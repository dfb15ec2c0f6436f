/** The `users` table and the lookups and writes the authentication service issues against it. */
module UserRepository {
  import opened Wrappers
  import opened Models

  const IntegrityErrorDetail := "UNIQUE constraint failed"

  /** The user whose email is exactly `email` (case-sensitive), if any. */
  function FindByEmail(users: seq<User>, email: string): (r: Option<User>)
    ensures r.Some? ==> r.value in users && r.value.email == email
    ensures r.None? <==> forall u :: u in users ==> u.email != email
  {
    if users == [] then None
    else if users[0].email == email then Some(users[0])
    else FindByEmail(users[1..], email)
  }

  /** The user whose primary key is `id`, if any. */
  function FindById(users: seq<User>, id: string): (r: Option<User>)
    ensures r.Some? ==> r.value in users && r.value.id == id
    ensures r.None? <==> forall u :: u in users ==> u.id != id
  {
    if users == [] then None
    else if users[0].id == id then Some(users[0])
    else FindById(users[1..], id)
  }

  lemma TailKeepsConstraints(users: seq<User>)
    requires UserTableConstraints(users) && users != []
    ensures UserTableConstraints(users[1..])
  {
    var t := users[1..];
    forall i, j | 0 <= i < |t| && 0 <= j < |t|
      ensures t[i].id == t[j].id ==> i == j
      ensures t[i].email == t[j].email ==> i == j
    {
      assert t[i] == users[i + 1] && t[j] == users[j + 1];
    }
  }

  /** Under the unique index on `email`, the lookup finds the one user with that email. */
  lemma {:induction false} FindByEmailUnique(users: seq<User>, k: nat)
    requires UserTableConstraints(users) && k < |users|
    ensures FindByEmail(users, users[k].email) == Some(users[k])
  {
    if users[0].email != users[k].email {
      TailKeepsConstraints(users);
      FindByEmailUnique(users[1..], k - 1);
    }
  }

  /** Under the primary key, the lookup by id finds the one user with that id. */
  lemma {:induction false} FindByIdUnique(users: seq<User>, k: nat)
    requires UserTableConstraints(users) && k < |users|
    ensures FindById(users, users[k].id) == Some(users[k])
  {
    if users[0].id != users[k].id {
      TailKeepsConstraints(users);
      FindByIdUnique(users[1..], k - 1);
    }
  }

  predicate Insertable(users: seq<User>, user: User) {
    forall u :: u in users ==> u.id != user.id && u.email != user.email
  }

  predicate EmailFreeForRow(users: seq<User>, user: User) {
    forall u :: u in users && u.id != user.id ==> u.email != user.email
  }

  ghost predicate HasId(users: seq<User>, id: string) {
    exists i :: 0 <= i < |users| && users[i].id == id
  }

  /** The position of the first user with primary key `id`. */
  function IndexOfId(users: seq<User>, id: string): (k: nat)
    requires HasId(users, id)
    ensures k < |users| && users[k].id == id
    ensures forall j :: 0 <= j < k ==> users[j].id != id
  {
    if users[0].id == id then 0
    else
      assert HasId(users[1..], id) by {
        var i :| 0 <= i < |users| && users[i].id == id;
        assert i != 0 && users[1..][i - 1] == users[i];
      }
      1 + IndexOfId(users[1..], id)
  }

  class UserRepository {
    var users: seq<User>

    ghost predicate Valid()
      reads this
    {
      UserTableConstraints(users)
    }

    constructor ()
      ensures Valid() && users == []
    {
      users := [];
    }

    /** `session.add(user); commit()`: the unique indexes reject a duplicate id or email. */
    method Create(user: User) returns (r: Result<User, Error>)
      requires Valid()
      modifies this
      ensures Valid()
      ensures r.Success? <==> Insertable(old(users), user)
      ensures r.Success? ==> r.value == user && users == old(users) + [user]
      ensures r.Failure? ==> r.error == Internal(IntegrityErrorDetail) && users == old(users)
    {
      if Insertable(users, user) {
        users := users + [user];
        r := Success(user);
      } else {
        r := Failure(Internal(IntegrityErrorDetail));
      }
    }

    function GetById(id: string): (r: Option<User>)
      reads this
      ensures r.Some? ==> r.value in users && r.value.id == id
      ensures r.None? <==> forall u :: u in users ==> u.id != id
    {
      FindById(users, id)
    }

    function GetByEmail(email: string): (r: Option<User>)
      reads this
      ensures r.Some? ==> r.value in users && r.value.email == email
      ensures r.None? <==> forall u :: u in users ==> u.email != email
    {
      FindByEmail(users, email)
    }

    /** `session.add(user); commit()` for a stored user: the row with the same primary key
        takes the given fields, unless another user already holds the new email. */
    method Update(user: User) returns (r: Result<User, Error>)
      requires Valid() && HasId(users, user.id)
      modifies this
      ensures Valid()
      ensures r.Success? <==> EmailFreeForRow(old(users), user)
      ensures r.Success? ==> r.value == user && users == old(users)[IndexOfId(old(users), user.id) := user]
      ensures r.Failure? ==> r.error == Internal(IntegrityErrorDetail) && users == old(users)
    {
      if EmailFreeForRow(users, user) {
        var k := IndexOfId(users, user.id);
        users := users[k := user];
        r := Success(user);
      } else {
        r := Failure(Internal(IntegrityErrorDetail));
      }
    }
  }

  /** After a successful create, the lookup by email returns the created user. */
  lemma CreatedUserIsFound(before: seq<User>, user: User)
    requires UserTableConstraints(before) && Insertable(before, user)
    ensures UserTableConstraints(before + [user])
    ensures FindByEmail(before + [user], user.email) == Some(user)
    ensures FindById(before + [user], user.id) == Some(user)
  {
    var after := before + [user];
    assert after[|before|] == user;
    assert UserTableConstraints(after) by {
      forall i, j | 0 <= i < |after| && 0 <= j < |after|
        ensures after[i].id == after[j].id ==> i == j
        ensures after[i].email == after[j].email ==> i == j
      {
        if i < |before| { assert after[i] == before[i]; assert after[i] in before; }
        if j < |before| { assert after[j] == before[j]; assert after[j] in before; }
      }
    }
    FindByEmailUnique(after, |before|);
    FindByIdUnique(after, |before|);
  }

  /** After a successful update, the lookup by id returns the new fields. */
  lemma UpdatedUserIsFound(before: seq<User>, user: User)
    requires UserTableConstraints(before) && HasId(before, user.id) && EmailFreeForRow(before, user)
    ensures UserTableConstraints(before[IndexOfId(before, user.id) := user])
    ensures FindById(before[IndexOfId(before, user.id) := user], user.id) == Some(user)
    ensures FindByEmail(before[IndexOfId(before, user.id) := user], user.email) == Some(user)
  {
    var k := IndexOfId(before, user.id);
    var after := before[k := user];
    assert UserTableConstraints(after) by {
      forall i, j | 0 <= i < |after| && 0 <= j < |after|
        ensures after[i].id == after[j].id ==> i == j
        ensures after[i].email == after[j].email ==> i == j
      {
        if i != k { assert after[i] == before[i]; assert before[i] in before; }
        if j != k { assert after[j] == before[j]; assert before[j] in before; }
      }
    }
    FindByEmailUnique(after, k);
    FindByIdUnique(after, k);
  }
}
