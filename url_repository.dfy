/** The `urls` table and the queries and updates the URL service issues against it. */
module UrlRepository {
  import opened Wrappers
  import opened Models

  const DefaultSkip := 0
  const DefaultLimit := 100
  const IntegrityErrorDetail := "UNIQUE constraint failed"

  /** The row whose short code is exactly `code` (case-sensitive), if any. */
  function FindByShortCode(rows: seq<Url>, code: string): (r: Option<Url>)
    ensures r.Some? ==> r.value in rows && r.value.shortCode == code
    ensures r.None? <==> forall u :: u in rows ==> u.shortCode != code
  {
    if rows == [] then None
    else if rows[0].shortCode == code then Some(rows[0])
    else FindByShortCode(rows[1..], code)
  }

  /** The row whose primary key is `id`, if any. */
  function FindById(rows: seq<Url>, id: string): (r: Option<Url>)
    ensures r.Some? ==> r.value in rows && r.value.id == id
    ensures r.None? <==> forall u :: u in rows ==> u.id != id
  {
    if rows == [] then None
    else if rows[0].id == id then Some(rows[0])
    else FindById(rows[1..], id)
  }

  /** Under the unique index, a lookup by short code finds the one row that has it. */
  lemma {:induction false} FindByShortCodeUnique(rows: seq<Url>, k: nat)
    requires UrlTableConstraints(rows) && k < |rows|
    ensures FindByShortCode(rows, rows[k].shortCode) == Some(rows[k])
  {
    if rows[0].shortCode != rows[k].shortCode {
      assert k != 0;
      assert UrlTableConstraints(rows[1..]) by {
        forall i, j | 0 <= i < |rows| - 1 && 0 <= j < |rows| - 1
          ensures rows[1..][i].id == rows[1..][j].id ==> i == j
          ensures rows[1..][i].shortCode == rows[1..][j].shortCode ==> i == j
        {
          assert rows[1..][i] == rows[i + 1] && rows[1..][j] == rows[j + 1];
        }
      }
      FindByShortCodeUnique(rows[1..], k - 1);
    }
  }

  /** The rows of owner `userId`, in table order (`WHERE user_id = …`). */
  function OwnedBy(rows: seq<Url>, userId: string): (r: seq<Url>)
    ensures |r| <= |rows|
    ensures forall u :: u in r <==> u in rows && u.userId == userId
  {
    if rows == [] then []
    else if rows[0].userId == userId then [rows[0]] + OwnedBy(rows[1..], userId)
    else OwnedBy(rows[1..], userId)
  }

  /** `ORDER BY created_at DESC`. */
  ghost predicate NewestFirstOrder(s: seq<Url>) {
    forall i, j :: 0 <= i < j < |s| ==> s[i].createdAt >= s[j].createdAt
  }

  /** Prepending a row no older than any row of a newest-first list keeps it newest first. */
  lemma PrependKeepsOrder(h: Url, t: seq<Url>)
    requires NewestFirstOrder(t)
    requires forall y :: y in t ==> h.createdAt >= y.createdAt
    ensures NewestFirstOrder([h] + t)
  {
    var r := [h] + t;
    forall i, j | 0 <= i < j < |r| ensures r[i].createdAt >= r[j].createdAt {
      assert r[j] == t[j - 1];
      if i > 0 { assert r[i] == t[i - 1]; }
    }
  }

  /** The rows of a permutation of `t + [x]` are no newer than `h` when `h` is newer than
      `x` and than every row of `t`. */
  lemma NoNewerThan(h: Url, t: seq<Url>, x: Url, rest: seq<Url>)
    requires forall y :: y in t ==> h.createdAt >= y.createdAt
    requires h.createdAt >= x.createdAt
    requires multiset(rest) == multiset(t) + multiset{x}
    ensures forall y :: y in rest ==> h.createdAt >= y.createdAt
  {
    forall y | y in rest ensures h.createdAt >= y.createdAt {
      assert y in multiset(rest);
      if y != x {
        assert y in multiset(t);
      }
    }
  }

  /** The head of a newest-first list is no older than any row after it. */
  lemma HeadIsNewest(s: seq<Url>)
    requires NewestFirstOrder(s) && s != []
    ensures NewestFirstOrder(s[1..])
    ensures forall y :: y in s[1..] ==> s[0].createdAt >= y.createdAt
  {
    forall y | y in s[1..] ensures s[0].createdAt >= y.createdAt {
      var j :| 0 <= j < |s[1..]| && s[1..][j] == y;
      assert s[j + 1] == y;
    }
  }

  function InsertByCreation(x: Url, s: seq<Url>): (r: seq<Url>)
    requires NewestFirstOrder(s)
    ensures NewestFirstOrder(r)
    ensures multiset(r) == multiset(s) + multiset{x}
  {
    if s == [] || x.createdAt >= s[0].createdAt then
      PrependKeepsOrder(x, s);
      [x] + s
    else
      assert s == [s[0]] + s[1..];
      var rest := InsertByCreation(x, s[1..]);
      HeadIsNewest(s);
      NoNewerThan(s[0], s[1..], x, rest);
      PrependKeepsOrder(s[0], rest);
      [s[0]] + rest
  }

  /** The rows sorted newest first; rows with equal `created_at` keep a fixed order. */
  function NewestFirst(s: seq<Url>): (r: seq<Url>)
    ensures NewestFirstOrder(r)
    ensures multiset(r) == multiset(s)
    ensures |r| == |s|
  {
    if s == [] then []
    else
      assert s == [s[0]] + s[1..];
      InsertByCreation(s[0], NewestFirst(s[1..]))
  }

  function Min(a: int, b: int): int { if a <= b then a else b }

  /** `OFFSET skip LIMIT limit`. */
  function Window(s: seq<Url>, skip: nat, limit: nat): (r: seq<Url>)
    ensures |r| == Min(limit, if skip <= |s| then |s| - skip else 0)
    ensures forall i :: 0 <= i < |r| ==> r[i] == s[skip + i]
  {
    if skip >= |s| then [] else s[skip..Min(|s|, skip + limit)]
  }

  /** A window of a newest-first list is itself newest first. */
  lemma WindowKeepsOrder(s: seq<Url>, skip: nat, limit: nat)
    requires NewestFirstOrder(s)
    ensures NewestFirstOrder(Window(s, skip, limit))
  {
    var w := Window(s, skip, limit);
    forall i, j | 0 <= i < j < |w| ensures w[i].createdAt >= w[j].createdAt {
      assert w[i] == s[skip + i] && w[j] == s[skip + j];
    }
  }

  /** No row shares the primary key or the short code of `url`. */
  predicate Insertable(rows: seq<Url>, url: Url) {
    forall u :: u in rows ==> u.id != url.id && u.shortCode != url.shortCode
  }

  /** No row other than the one with primary key `url.id` has the short code of `url`. */
  predicate CodeFreeForRow(rows: seq<Url>, url: Url) {
    forall u :: u in rows && u.id != url.id ==> u.shortCode != url.shortCode
  }

  ghost predicate HasId(rows: seq<Url>, id: string) {
    exists i :: 0 <= i < |rows| && rows[i].id == id
  }

  /** The position of the first row with primary key `id`. */
  function IndexOfId(rows: seq<Url>, id: string): (k: nat)
    requires HasId(rows, id)
    ensures k < |rows| && rows[k].id == id
    ensures forall j :: 0 <= j < k ==> rows[j].id != id
  {
    if rows[0].id == id then 0
    else
      assert HasId(rows[1..], id) by {
        var i :| 0 <= i < |rows| && rows[i].id == id;
        assert i != 0 && rows[1..][i - 1] == rows[i];
      }
      1 + IndexOfId(rows[1..], id)
  }

  /** Under the primary key, the position of `rows[k].id` is `k`. */
  lemma IndexOfIdUnique(rows: seq<Url>, k: nat)
    requires UrlTableConstraints(rows) && k < |rows|
    ensures HasId(rows, rows[k].id) && IndexOfId(rows, rows[k].id) == k
  {
  }

  class URLRepository {
    var rows: seq<Url>

    ghost predicate Valid()
      reads this
    {
      UrlTableConstraints(rows)
    }

    constructor ()
      ensures Valid() && rows == []
    {
      rows := [];
    }

    /** `session.add(url); commit()`: the unique indexes reject a duplicate id or short code. */
    method Create(url: Url) returns (r: Result<Url, Error>)
      requires Valid()
      modifies this
      ensures Valid()
      ensures r.Success? <==> Insertable(old(rows), url)
      ensures r.Success? ==> r.value == url && rows == old(rows) + [url]
      ensures r.Failure? ==> r.error == Internal(IntegrityErrorDetail) && rows == old(rows)
    {
      if Insertable(rows, url) {
        rows := rows + [url];
        r := Success(url);
      } else {
        r := Failure(Internal(IntegrityErrorDetail));
      }
    }

    function GetById(id: string): (r: Option<Url>)
      reads this
      ensures r.Some? ==> r.value in rows && r.value.id == id
      ensures r.None? <==> forall u :: u in rows ==> u.id != id
    {
      FindById(rows, id)
    }

    function GetByShortCode(code: string): (r: Option<Url>)
      reads this
      ensures r.Some? ==> r.value in rows && r.value.shortCode == code
      ensures r.None? <==> forall u :: u in rows ==> u.shortCode != code
    {
      FindByShortCode(rows, code)
    }

    /** The owner's rows, newest first, after skipping `skip` and keeping at most `limit`. */
    function GetByUserId(userId: string, skip: nat := DefaultSkip, limit: nat := DefaultLimit): (r: seq<Url>)
      reads this
      ensures r == Window(NewestFirst(OwnedBy(rows, userId)), skip, limit)
      ensures |r| <= limit
      ensures forall u :: u in r ==> u in rows && u.userId == userId
      ensures NewestFirstOrder(r)
    {
      var sorted := NewestFirst(OwnedBy(rows, userId));
      WindowKeepsOrder(sorted, skip, limit);
      assert forall u :: u in Window(sorted, skip, limit) ==> u in multiset(sorted);
      Window(sorted, skip, limit)
    }

    function CountByUserId(userId: string): (n: nat)
      reads this
      ensures n == |GetByUserId(userId, 0, |rows|)|
      ensures n == |OwnedBy(rows, userId)|
    {
      |OwnedBy(rows, userId)|
    }

    /** `session.add(url); commit()` for a row already stored: the stored row with the same
        primary key is replaced, unless another row already holds the new short code. */
    method Update(url: Url) returns (r: Result<Url, Error>)
      requires Valid() && HasId(rows, url.id)
      modifies this
      ensures Valid()
      ensures r.Success? <==> CodeFreeForRow(old(rows), url)
      ensures r.Success? ==> r.value == url && rows == old(rows)[IndexOfId(old(rows), url.id) := url]
      ensures r.Failure? ==> r.error == Internal(IntegrityErrorDetail) && rows == old(rows)
    {
      if CodeFreeForRow(rows, url) {
        var k := IndexOfId(rows, url.id);
        rows := rows[k := url];
        r := Success(url);
      } else {
        r := Failure(Internal(IntegrityErrorDetail));
      }
    }

    /** `session.delete(url); commit()`: the row with that primary key is removed. */
    method Delete(url: Url)
      requires Valid() && HasId(rows, url.id)
      modifies this
      ensures Valid()
      ensures var k := IndexOfId(old(rows), url.id); rows == old(rows)[..k] + old(rows)[k + 1..]
    {
      var k := IndexOfId(rows, url.id);
      rows := rows[..k] + rows[k + 1..];
      assert forall i :: 0 <= i < |rows| ==> rows[i] == old(rows)[if i < k then i else i + 1];
    }

    /** `url.clicks += 1` on a stored row, then `update(url)`. */
    method IncrementClicks(url: Url) returns (r: Url)
      requires Valid() && url in rows
      modifies this
      ensures Valid()
      ensures r == url.(clicks := url.clicks + 1)
      ensures rows == old(rows)[IndexOfId(old(rows), url.id) := r]
    {
      var bumped := url.(clicks := url.clicks + 1);
      var res := Update(bumped);
      assert res.Success?;
      r := res.value;
    }
  }

  /** After a successful create, the lookup by short code returns the new row. */
  lemma CreatedUrlIsFound(before: seq<Url>, url: Url)
    requires UrlTableConstraints(before) && Insertable(before, url)
    ensures UrlTableConstraints(before + [url])
    ensures FindByShortCode(before + [url], url.shortCode) == Some(url)
  {
    var after := before + [url];
    assert after[|before|] == url;
    assert UrlTableConstraints(after) by {
      forall i, j | 0 <= i < |after| && 0 <= j < |after|
        ensures after[i].id == after[j].id ==> i == j
        ensures after[i].shortCode == after[j].shortCode ==> i == j
      {
        if i < |before| { assert after[i] == before[i]; assert after[i] in before; }
        if j < |before| { assert after[j] == before[j]; assert after[j] in before; }
      }
    }
    FindByShortCodeUnique(after, |before|);
  }

  /** Deleting row `k` makes its short code unknown and leaves every other row findable. */
  lemma DeletedUrlIsGone(before: seq<Url>, k: nat)
    requires UrlTableConstraints(before) && k < |before|
    ensures var after := before[..k] + before[k + 1..];
      && UrlTableConstraints(after)
      && FindByShortCode(after, before[k].shortCode).None?
      && forall i :: 0 <= i < |before| && i != k ==> FindByShortCode(after, before[i].shortCode) == Some(before[i])
  {
    var after := before[..k] + before[k + 1..];
    assert forall i :: 0 <= i < |after| ==> after[i] == before[if i < k then i else i + 1];
    assert UrlTableConstraints(after);
    forall u | u in after ensures u.shortCode != before[k].shortCode {
      var i :| 0 <= i < |after| && after[i] == u;
    }
    forall i | 0 <= i < |before| && i != k
      ensures FindByShortCode(after, before[i].shortCode) == Some(before[i])
    {
      FindByShortCodeUnique(after, if i < k then i else i - 1);
    }
  }

  /** The call without paging arguments lists the owner's newest rows from the first one on,
      and never more than 100 of them. */
  lemma DefaultListingIsCapped(repo: URLRepository, userId: string)
    ensures var n := |OwnedBy(repo.rows, userId)|;
            |repo.GetByUserId(userId)| == Min(DefaultLimit, n) &&
            repo.GetByUserId(userId) == NewestFirst(OwnedBy(repo.rows, userId))[..Min(DefaultLimit, n)]
  {
    var sorted := NewestFirst(OwnedBy(repo.rows, userId));
    var w := repo.GetByUserId(userId);
    assert |w| == Min(DefaultLimit, |sorted|);
    assert forall i :: 0 <= i < |w| ==> w[i] == sorted[i];
  }
}
