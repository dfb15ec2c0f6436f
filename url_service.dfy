/** Short-URL allocation, resolution and owner-gated management. */
module UrlService {
  import opened Wrappers
  import opened Models
  import opened Schemas
  import opened UrlRepository
  import opened ShortCodeGenerator

  const MaxRetries := 5
  /** The defaults of `get_user_urls(user_id, page=1, page_size=20)`. */
  const DefaultListPage := 1
  const DefaultListPageSize := 20

  const NotFoundDetail := "Short URL not found"
  const GoneDetail := "This short URL has been deactivated"
  const UpdateForbiddenDetail := "You don't have permission to update this URL"
  const DeleteForbiddenDetail := "You don't have permission to delete this URL"
  const ExhaustedDetail := "Unable to generate unique short code. Please try again."

  /** Some row already holds `code`. */
  predicate Taken(rows: seq<Url>, code: string) {
    exists u :: u in rows && u.shortCode == code
  }

  /** The code drawn by attempt `j` (counting from 0) of a retry loop that began at draw
      `start` and asks for codes of `length` characters. */
  function AttemptCode(pick: nat -> nat, chars: string, start: nat, length: nat, j: nat): (code: string)
    requires |chars| > 0
    ensures |code| == length
  {
    Draw(pick, chars, start + Offset(length, j), length)
  }

  /** The codes the first `n` attempts of such a loop draw, in order. */
  function Candidates(pick: nat -> nat, chars: string, start: nat, length: nat, n: nat): (codes: seq<string>)
    requires |chars| > 0
    ensures |codes| == n
  {
    seq(n, j requires 0 <= j < n => AttemptCode(pick, chars, start, length, j))
  }

  /** The outcome of a retry loop over the candidate `codes` from attempt `j` on, with the
      number of attempts made in all: the first candidate no row holds, or the exhaustion
      error once every candidate has turned out to be taken. */
  function RetryOutcome(rows: seq<Url>, codes: seq<string>, j: nat): (r: (Result<string, Error>, nat))
    requires j <= |codes|
    ensures j <= r.1 <= |codes|
    decreases |codes| - j
  {
    if j == |codes| then (Failure(Internal(ExhaustedDetail)), |codes|)
    else if FindByShortCode(rows, codes[j]).None? then (Success(codes[j]), j + 1)
    else RetryOutcome(rows, codes, j + 1)
  }

  /** A retry loop returns a code no row holds, the candidate of its last attempt, after
      every earlier candidate was taken; it fails only after every candidate was taken. */
  lemma {:induction false} RetryOutcomeMeaning(rows: seq<Url>, codes: seq<string>, j: nat)
    requires j <= |codes|
    ensures var r := RetryOutcome(rows, codes, j);
      && (forall k :: j <= k < r.1 - 1 ==> Taken(rows, codes[k]))
      && (r.0.Success? ==> j < r.1 && r.0.value == codes[r.1 - 1] && !Taken(rows, r.0.value))
      && (r.0.Failure? ==> r.0.error == Internal(ExhaustedDetail) && r.1 == |codes|)
      && (r.0.Failure? ==> forall k :: j <= k < |codes| ==> Taken(rows, codes[k]))
    decreases |codes| - j
  {
    if j < |codes| {
      var found := FindByShortCode(rows, codes[j]);
      if found.Some? {
        assert Taken(rows, codes[j]) by { assert found.value in rows && found.value.shortCode == codes[j]; }
        RetryOutcomeMeaning(rows, codes, j + 1);
      }
    }
  }

  /** The number of draws taken by `j` attempts of `length` characters each. */
  function Offset(length: nat, j: nat): nat {
    if j == 0 then 0 else Offset(length, j - 1) + length
  }

  lemma {:induction false} OffsetIsProduct(length: nat, j: nat)
    ensures Offset(length, j) == j * length
  {
    if j > 0 { OffsetIsProduct(length, j - 1); }
  }

  /** `if url_data.preferred_short_code:` is true (a non-empty string) and no row has it. */
  function PreferredAvailable(rows: seq<Url>, data: URLCreate): (b: bool)
    ensures data.preferredShortCode.None? || data.preferredShortCode.value == "" ==> !b
    ensures data.preferredShortCode.Some? && FindByShortCode(rows, data.preferredShortCode.value).Some? ==> !b
    ensures data.preferredShortCode.Some? ==>
              (data.preferredShortCode.value != "" && FindByShortCode(rows, data.preferredShortCode.value).None? ==> b)
  {
    data.preferredShortCode.Some? && data.preferredShortCode.value != "" &&
    !Taken(rows, data.preferredShortCode.value)
  }

  /** The fields of `url_update` that are not `None` overwrite the row; `updated_at` is
      refreshed; every other column keeps its value. */
  function ApplyUpdate(u: Url, upd: URLUpdate, now: Instant): (v: Url)
    ensures v.title == if upd.title.Some? then upd.title else u.title
    ensures v.isActive == if upd.isActive.Some? then upd.isActive.value else u.isActive
    ensures v.updatedAt == now
    ensures v.(title := u.title, isActive := u.isActive, updatedAt := u.updatedAt) == u
  {
    var titled := if upd.title.Some? then u.(title := upd.title) else u;
    var activated := if upd.isActive.Some? then titled.(isActive := upd.isActive.value) else titled;
    activated.(updatedAt := now)
  }

  /** An update with both fields omitted only refreshes `updated_at`. */
  lemma EmptyUpdateOnlyRefreshesTimestamp(u: Url, now: Instant)
    ensures ApplyUpdate(u, EmptyURLUpdate, now) == u.(updatedAt := now)
  {
  }

  class URLService {
    const repo: URLRepository
    const gen: RandomShortCodeGenerator

    ghost predicate Valid()
      reads this, repo, gen
    {
      repo.Valid() && gen.Valid()
    }

    constructor (repo: URLRepository, gen: RandomShortCodeGenerator)
      requires repo.Valid() && gen.Valid()
      ensures Valid() && this.repo == repo && this.gen == gen
    {
      this.repo := repo;
      this.gen := gen;
    }

    /** One attempt of the retry loop: draw the next code and look it up. */
    method DrawCandidate(length: nat, ghost codes: seq<string>, ghost start: nat, ghost attempt: nat)
      returns (code: string, free: bool)
      requires gen.Valid() && attempt < MaxRetries
      requires codes == Candidates(gen.pick, gen.characters, start, length, MaxRetries)
      requires gen.drawn == start + Offset(length, attempt)
      modifies gen
      ensures gen.Valid() && gen.characters == old(gen.characters)
      ensures gen.drawn == start + Offset(length, attempt + 1)
      ensures code == codes[attempt]
      ensures free <==> FindByShortCode(repo.rows, code).None?
    {
      code := gen.Generate(length);
      assert code == AttemptCode(gen.pick, gen.characters, start, length, attempt);
      var existing := repo.GetByShortCode(code);
      free := existing.None?;
    }

    /** `_generate_unique_short_code`: at most `MaxRetries` draws, each of `length`
        characters (the length bump runs only on the last attempt, after its draw). */
    method GenerateUniqueShortCode(length: nat) returns (r: Result<string, Error>, ghost attempts: nat)
      requires Valid()
      modifies gen
      ensures Valid()
      ensures (r, attempts) == RetryOutcome(repo.rows, Candidates(gen.pick, gen.characters, old(gen.drawn), length, MaxRetries), 0)
      ensures gen.drawn == old(gen.drawn) + Offset(length, attempts)
    {
      ghost var codes := Candidates(gen.pick, gen.characters, gen.drawn, length, MaxRetries);
      var len := length;
      var attempt := 0;
      while attempt < MaxRetries
        invariant 0 <= attempt <= MaxRetries
        invariant attempt < MaxRetries ==> len == length
        invariant gen.Valid() && codes == Candidates(gen.pick, gen.characters, old(gen.drawn), length, MaxRetries)
        invariant gen.drawn == old(gen.drawn) + Offset(length, attempt)
        invariant RetryOutcome(repo.rows, codes, attempt) == RetryOutcome(repo.rows, codes, 0)
      {
        var code, free := DrawCandidate(len, codes, old(gen.drawn), attempt);
        if free {
          r, attempts := Success(code), attempt + 1;
          return;
        }
        if attempt == MaxRetries - 1 {
          len := len + 1;
        }
        attempt := attempt + 1;
      }
      r, attempts := Failure(Internal(ExhaustedDetail)), MaxRetries;
    }

    /** The short-code choice of `create_short_url`: the preferred code when it is given
        and free, otherwise (silently) the outcome of the retry loop. */
    method ChooseShortCode(data: URLCreate) returns (r: Result<string, Error>)
      requires Valid()
      modifies gen
      ensures Valid() && gen.characters == old(gen.characters)
      ensures PreferredAvailable(repo.rows, data) ==>
                r == Success(data.preferredShortCode.value) && gen.drawn == old(gen.drawn)
      ensures !PreferredAvailable(repo.rows, data) ==>
                r == RetryOutcome(repo.rows, Candidates(gen.pick, gen.characters, old(gen.drawn), DefaultLength, MaxRetries), 0).0
      ensures r.Success? ==> !Taken(repo.rows, r.value)
      ensures r.Failure? ==> r.error == Internal(ExhaustedDetail)
    {
      ghost var codes := Candidates(gen.pick, gen.characters, gen.drawn, DefaultLength, MaxRetries);
      RetryOutcomeMeaning(repo.rows, codes, 0);
      if data.preferredShortCode.Some? && data.preferredShortCode.value != "" {
        var existing := repo.GetByShortCode(data.preferredShortCode.value);
        if existing.None? {
          return Success(data.preferredShortCode.value);
        }
        assert Taken(repo.rows, data.preferredShortCode.value) by {
          assert existing.value in repo.rows;
        }
      }
      ghost var attempts;
      r, attempts := GenerateUniqueShortCode(DefaultLength);
    }

    /** `create_short_url`: the row gets the chosen code and the model defaults. `id` is the
        generated primary key, assumed fresh. */
    method CreateShortUrl(data: URLCreate, userId: string, id: string, now: Instant)
      returns (r: Result<Url, Error>)
      requires Valid()
      requires forall u :: u in repo.rows ==> u.id != id
      modifies repo, gen
      ensures Valid()
      ensures r.Success? ==> r.value == NewUrl(id, data.originalUrl, r.value.shortCode, userId, data.title, now)
      ensures r.Success? ==> repo.rows == old(repo.rows) + [r.value]
      ensures r.Success? ==> !Taken(old(repo.rows), r.value.shortCode)
      ensures r.Success? ==> repo.GetByShortCode(r.value.shortCode) == Some(r.value)
      ensures r.Failure? ==> r.error == Internal(ExhaustedDetail) && repo.rows == old(repo.rows)
      ensures PreferredAvailable(old(repo.rows), data) ==>
                r.Success? && r.value.shortCode == data.preferredShortCode.value && gen.drawn == old(gen.drawn)
      ensures !PreferredAvailable(old(repo.rows), data) ==>
                var outcome := RetryOutcome(old(repo.rows), Candidates(gen.pick, gen.characters, old(gen.drawn), DefaultLength, MaxRetries), 0).0;
                (r.Success? <==> outcome.Success?) && (r.Success? ==> r.value.shortCode == outcome.value)
    {
      var chosen := ChooseShortCode(data);
      if chosen.Failure? {
        return Failure(chosen.error);
      }
      var shortCode := chosen.value;
      var url := NewUrl(id, data.originalUrl, shortCode, userId, data.title, now);
      assert Insertable(repo.rows, url);
      CreatedUrlIsFound(repo.rows, url);
      r := repo.Create(url);
    }

    /** `get_url_by_short_code`: NotFound when no row has the code, Gone when its row is
        deactivated, the row otherwise. */
    function GetUrlByShortCode(code: string): (r: Result<Url, Error>)
      reads this, repo
      ensures r == Failure(NotFound(NotFoundDetail)) <==> forall u :: u in repo.rows ==> u.shortCode != code
      ensures r == Failure(Gone(GoneDetail)) <==>
                repo.GetByShortCode(code).Some? && !repo.GetByShortCode(code).value.isActive
      ensures r.Success? ==> r.value in repo.rows && r.value.shortCode == code && r.value.isActive
      ensures r.Failure? ==> r.error in {NotFound(NotFoundDetail), Gone(GoneDetail)}
    {
      var url := repo.GetByShortCode(code);
      if url.None? then Failure(NotFound(NotFoundDetail))
      else if !url.value.isActive then Failure(Gone(GoneDetail))
      else Success(url.value)
    }

    /** Resolving the short code of a stored row gives that row when it is active, and
        Gone (never NotFound) when it is not. */
    lemma ResolveStoredRow(k: nat)
      requires Valid() && k < |repo.rows|
      ensures GetUrlByShortCode(repo.rows[k].shortCode) ==
                if repo.rows[k].isActive then Success(repo.rows[k]) else Failure(Gone(GoneDetail))
    {
      FindByShortCodeUnique(repo.rows, k);
    }

    /** `get_user_urls`: page `page` of the owner's rows, newest first, and the owner's full
        row count, which does not depend on the page. */
    function GetUserUrls(userId: string, page: int := DefaultListPage, pageSize: int := DefaultListPageSize): (r: (seq<Url>, nat))
      reads this, repo
      requires page >= 1 && pageSize >= 1
      ensures r.0 == Window(NewestFirst(OwnedBy(repo.rows, userId)), (page - 1) * pageSize, pageSize)
      ensures |r.0| <= pageSize
      ensures forall u :: u in r.0 ==> u in repo.rows && u.userId == userId
      ensures NewestFirstOrder(r.0)
      ensures r.1 == |OwnedBy(repo.rows, userId)|
    {
      var skip := (page - 1) * pageSize;
      var urls := repo.GetByUserId(userId, skip, pageSize);
      var total := repo.CountByUserId(userId);
      (urls, total)
    }

    /** `update_url`: NotFound, then Forbidden for a caller who does not own the row;
        otherwise the row is replaced by its partial update. */
    method UpdateUrl(code: string, upd: URLUpdate, userId: string, now: Instant) returns (r: Result<Url, Error>)
      requires Valid()
      modifies repo
      ensures Valid()
      ensures var found := FindByShortCode(old(repo.rows), code);
        && (found.None? ==> r == Failure(NotFound(NotFoundDetail)) && repo.rows == old(repo.rows))
        && (found.Some? && found.value.userId != userId ==>
              r == Failure(Forbidden(UpdateForbiddenDetail)) && repo.rows == old(repo.rows))
        && (found.Some? && found.value.userId == userId ==>
              r == Success(ApplyUpdate(found.value, upd, now)) &&
              repo.rows == old(repo.rows)[IndexOfId(old(repo.rows), found.value.id) := r.value])
    {
      var url := repo.GetByShortCode(code);
      if url.None? {
        return Failure(NotFound(NotFoundDetail));
      }
      if url.value.userId != userId {
        return Failure(Forbidden(UpdateForbiddenDetail));
      }
      var updated := ApplyUpdate(url.value, upd, now);
      assert HasId(repo.rows, updated.id) && CodeFreeForRow(repo.rows, updated) by {
        var k :| 0 <= k < |repo.rows| && repo.rows[k] == url.value;
      }
      r := repo.Update(updated);
    }

    /** `delete_url`: the same NotFound-then-Forbidden gating; on success exactly that row
        is removed. */
    method DeleteUrl(code: string, userId: string) returns (r: Result<(), Error>)
      requires Valid()
      modifies repo
      ensures Valid()
      ensures var found := FindByShortCode(old(repo.rows), code);
        && (found.None? ==> r == Failure(NotFound(NotFoundDetail)) && repo.rows == old(repo.rows))
        && (found.Some? && found.value.userId != userId ==>
              r == Failure(Forbidden(DeleteForbiddenDetail)) && repo.rows == old(repo.rows))
        && (found.Some? && found.value.userId == userId ==>
              r == Success(()) &&
              var k := IndexOfId(old(repo.rows), found.value.id);
              repo.rows == old(repo.rows)[..k] + old(repo.rows)[k + 1..])
    {
      var url := repo.GetByShortCode(code);
      if url.None? {
        return Failure(NotFound(NotFoundDetail));
      }
      if url.value.userId != userId {
        return Failure(Forbidden(DeleteForbiddenDetail));
      }
      assert HasId(repo.rows, url.value.id) by {
        var k :| 0 <= k < |repo.rows| && repo.rows[k] == url.value;
      }
      repo.Delete(url.value);
      r := Success(());
    }

    /** `increment_click`: resolution first (NotFound, Gone); then the resolved row's
        click count goes up by exactly one. */
    method IncrementClick(code: string) returns (r: Result<Url, Error>)
      requires Valid()
      modifies repo
      ensures Valid()
      ensures old(GetUrlByShortCode(code)).Failure? ==>
                r == old(GetUrlByShortCode(code)) && repo.rows == old(repo.rows)
      ensures old(GetUrlByShortCode(code)).Success? ==>
                var u := old(GetUrlByShortCode(code)).value;
                r == Success(u.(clicks := u.clicks + 1)) &&
                repo.rows == old(repo.rows)[IndexOfId(old(repo.rows), u.id) := r.value]
    {
      var url := GetUrlByShortCode(code);
      if url.Failure? {
        return url;
      }
      var bumped := repo.IncrementClicks(url.value);
      r := Success(bumped);
    }
  }
}
