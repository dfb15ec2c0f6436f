# URL shortener core, modelled in Dafny

This project models the core of a FastAPI URL shortener. Users register and log in with a
password and receive a bearer token. With the token they create short codes for long URLs.
A code is either the one the user asks for, or a random 6-character code drawn from a
58-character alphabet. Users can update or delete their URLs, and anyone can resolve a code
to its target. The service can also list a user's URLs page by page and count a click. No
route counts clicks, and the list route as written never reaches the listing (see
"## Findings"). The URL routes are modelled as they behave once mounted; the API router of
this code includes only the auth routes.

The model has these modules:

- `Wrappers` holds `Option`, `Result`, and the HTTP errors the services raise.
- `Models` holds the `urls` and `users` rows, their defaults, and their unique constraints.
- `Schemas` holds the `URLCreate` and `URLUpdate` bodies, their length bounds, and the
  short-code validator.
- `ShortCodeGenerator` holds the alphabet and `RandomShortCodeGenerator`, a class whose random
  source is a stream of numbers.
- `UserRepository` and `UrlRepository` are the two tables. Each is a class over a `seq` of rows
  whose methods keep the primary-key and unique-index constraints.
- `UrlService` is the `URLService` class. Its retry loop for fresh codes is proved against a
  functional specification. Its owner-gated update and delete, and its click counter, change
  the table in place.
- `AuthService` covers registration, login and token resolution. Password hashing, token
  encoding and token decoding are passed in as functions.
- `UrlApi` holds the pure parts of the URL routes: the public short link, the page-query
  bounds, the page count, and the list route, both as written and as intended.

A few behaviours of the code are worth knowing:

- The short-code pattern uses `$`, which in Python also matches before a final newline. So
  `"admin\n"` passes the pattern, lowers to a string outside the reserved set, and is
  accepted (`Schemas.ReservedWordWithNewlineAccepted`).
- The alphabet does not exclude reserved words, so a random code can be `signup`.
- On the last attempt, the retry loop makes the code one character longer. No later attempt
  ever uses the longer length.

## Model

| member | source | states |
|---|---|---|
| Wrappers.StatusCode | app/services/url.py:89-107 | every error maps to a 4xx or 5xx status, and only the internal error maps to 5xx |
| Models.NewUrl | app/models/url.py:14-22 | a new URL row has the given id, target, code, owner and title, 0 clicks, is active, and both timestamps equal to the creation instant |
| Models.NewUser | app/models/user.py:11-16 | a new user has the given id, email and hash, is active, and both timestamps equal to the creation instant |
| Schemas.LowerChar | app/schemas/url.py:41 | lower-casing maps A-Z to a-z (code + 32) and leaves every other character alone |
| Schemas.Lower | app/schemas/url.py:41 | `str.lower()` keeps the length and lowers each character in place |
| Schemas.ValidateShortCode | app/schemas/url.py:20-43 | None passes; a value that fails the pattern gets the bad-characters message; a value that matches is refused exactly when its lower-case form is reserved; an accepted value is returned unchanged |
| Schemas.MatchesShortCodePattern | app/schemas/url.py:26 | a matching string is non-empty, and all its characters but the last are pattern characters; the last is one too, or a newline after at least one character. Every non-empty string of pattern characters matches, with or without one final newline |
| Schemas.PreferredShortCodeErrors | app/schemas/url.py:12-43 | an absent code has no errors. A code under 3 characters gets exactly the too-short message, and one over 50 exactly the too-long message, before the validator runs. A code of 3-50 characters has no error exactly when the validator accepts it, and otherwise has the validator's message |
| Schemas.TitleErrors | app/schemas/url.py:18 | a title has no error exactly when it is absent or at most 255 characters long |
| Schemas.ParseURLCreate | app/schemas/url.py:8-43 | a body parses exactly when its preferred code has no error and its title is absent or at most 255 characters. A parsed body keeps its fields unchanged. A rejected one gets a 422 listing the code's message and then the title's, one or two in all |
| Schemas.ParseURLUpdate | app/schemas/url.py:46-50 | an update parses exactly when its title is absent or at most 255 characters, and both fields are optional and kept as given |
| Schemas.AcceptedShortCode | app/schemas/url.py:12-43 | an accepted preferred code is 3-50 characters, all from `[a-zA-Z0-9_-]` apart from an optional final newline, and equal to no reserved word in any letter case |
| Schemas.AcceptsValidShortCode | app/schemas/url.py:12-43 | a body whose code is 3-50 pattern characters, equal to no reserved word in any case, and whose title fits, parses with the code unchanged |
| Schemas.AcceptsMissingShortCode | app/schemas/url.py:12-18 | a body without a preferred code parses whenever its title fits |
| Schemas.OmittedFieldsParseAsEmpty | app/schemas/url.py:46-50 | an update body with both fields omitted parses to the update whose fields are both None |
| Schemas.LowerIsEqualIgnoringCase | app/schemas/url.py:31-41 | a string whose lower-case form is a reserved word equals that word up to case |
| Schemas.LowerOfEqualIgnoringCase | app/schemas/url.py:31-41 | a string that equals a reserved word up to case lowers to that word |
| Schemas.ReservedInAnyCase | app/schemas/url.py:41-42 | every letter-case spelling of a reserved word is refused with the reserved message |
| Schemas.ReservedWordWithNewlineAccepted | app/schemas/url.py:26-43 | `"admin\n"` passes both the validator and the length bounds unchanged, because `$` also matches before a final newline |
| ShortCodeGenerator.Remove | app/services/short_code_generator.py:21-26 | `replace(c, "")` never lengthens the string and leaves no `c` in it |
| ShortCodeGenerator.RemoveMembership | app/services/short_code_generator.py:21-26 | after `replace(c, "")`, a character is present exactly when it was present and is not `c` |
| ShortCodeGenerator.RemoveFromDistinct | app/services/short_code_generator.py:21-26 | removing a character from a string without repeats leaves no repeats, and shortens the string by one exactly when the character occurred |
| ShortCodeGenerator.RemoveAt | app/services/short_code_generator.py:21-26 | in a string without repeats, removing the character at position k cuts out exactly that position |
| ShortCodeGenerator.Alphabet | app/services/short_code_generator.py:18-26 | the alphabet has 58 characters |
| ShortCodeGenerator.AsciiAlnum | app/services/short_code_generator.py:20 | `ascii_letters + digits` has 62 characters |
| ShortCodeGenerator.AsciiAlnumLayout | app/services/short_code_generator.py:20 | `ascii_letters + digits` is 62 distinct characters: a-z, then A-Z, then 0-9 |
| ShortCodeGenerator.AlphabetIsConstruction | app/services/short_code_generator.py:20-26 | the alphabet is exactly what the four successive `replace` calls leave of `ascii_letters + digits` |
| ShortCodeGenerator.AlphabetMembership | app/services/short_code_generator.py:18-26 | a character is in the alphabet exactly when it is an ASCII letter or digit other than 0, O, I and l |
| ShortCodeGenerator.AlphabetFacts | app/services/short_code_generator.py:18-26 | the alphabet has 58 distinct characters: every ASCII letter and digit except the four ambiguous ones |
| ShortCodeGenerator.AlphabetWithinPattern | app/services/short_code_generator.py:20-26 | every code drawn from the alphabet satisfies the character class of the short-code pattern |
| ShortCodeGenerator.ReservedWordsAreDrawable | app/services/short_code_generator.py:38 | the reserved word `signup` is spelled entirely in alphabet characters, so a draw can produce it |
| ShortCodeGenerator.Draw | app/services/short_code_generator.py:38 | a draw of `length` characters has that length, and every character comes from the alphabet it draws from |
| ShortCodeGenerator.EveryCharacterDrawable | app/services/short_code_generator.py:38 | every character of the alphabet is the outcome of some one-character draw |
| ShortCodeGenerator.RandomShortCodeGenerator.constructor | app/services/short_code_generator.py:17-26 | a new generator holds the 58-character alphabet and has used no draws |
| ShortCodeGenerator.RandomShortCodeGenerator.Generate | app/services/short_code_generator.py:28-38 | `generate(length)` returns the next `length` draws of the stream over the alphabet, consumes exactly those draws, and never yields 0, O, I or l |
| UserRepository.FindByEmail | app/repositories/user.py:26-30 | the lookup returns a stored user with that exact email, and returns nothing exactly when no user has it |
| UserRepository.FindById | app/repositories/user.py:20-24 | the lookup returns a stored user with that id, and returns nothing exactly when no user has it |
| UserRepository.FindByEmailUnique | app/models/user.py:12 | under the unique email index, looking up a stored user's email returns that user |
| UserRepository.FindByIdUnique | app/models/user.py:11 | under the primary key, looking up a stored user's id returns that user |
| UserRepository.IndexOfId | app/repositories/user.py:32-37 | the row that `session.add` of a stored user overwrites is the first row with its id |
| UserRepository.UserRepository.constructor | app/repositories/user.py:10-11 | a new repository is an empty, valid table |
| UserRepository.UserRepository.Create | app/repositories/user.py:13-18 | insertion succeeds exactly when both the id and the email are new; on success the user is appended, and on failure it is an integrity error and the table is unchanged |
| UserRepository.UserRepository.GetById | app/repositories/user.py:20-24 | returns a stored user with that id, or nothing exactly when none exists |
| UserRepository.UserRepository.GetByEmail | app/repositories/user.py:26-30 | returns a stored user with that email, or nothing exactly when none exists |
| UserRepository.UserRepository.Update | app/repositories/user.py:32-37 | the update succeeds exactly when no other user has the new email; on success the row with the same id takes the new fields, and on failure the table is unchanged |
| UserRepository.CreatedUserIsFound | app/repositories/user.py:13-30 | after a valid insert, the table still satisfies its constraints and both lookups return the new user |
| UserRepository.UpdatedUserIsFound | app/repositories/user.py:32-37 | after a valid update, the table still satisfies its constraints and both lookups return the updated user |
| UrlRepository.FindByShortCode | app/repositories/url.py:28-32 | the lookup returns a stored row with that exact code, and returns nothing exactly when no row has it |
| UrlRepository.FindById | app/repositories/url.py:22-26 | the lookup returns a stored row with that id, and returns nothing exactly when no row has it |
| UrlRepository.FindByShortCodeUnique | app/models/url.py:16 | under the unique index on `short_code`, looking up a stored row's code returns that row |
| UrlRepository.OwnedBy | app/repositories/url.py:44 | `WHERE user_id = …` keeps exactly the stored rows of that owner |
| UrlRepository.PrependKeepsOrder | app/repositories/url.py:45 | a row no older than any row of a newest-first list can be put in front of it |
| UrlRepository.NoNewerThan | app/repositories/url.py:45 | a bound on `created_at` that holds for a list and for one more row also holds for every reordering of the two |
| UrlRepository.HeadIsNewest | app/repositories/url.py:45 | the head of a newest-first list is no older than any later row, and the rest is newest first |
| UrlRepository.InsertByCreation | app/repositories/url.py:45 | inserting a row into a newest-first list keeps it newest first, with the same rows plus the new one |
| UrlRepository.NewestFirst | app/repositories/url.py:45 | `ORDER BY created_at DESC` returns the same rows (as a multiset), newest first |
| UrlRepository.Window | app/repositories/url.py:46-47 | `OFFSET skip LIMIT limit` returns the run of rows starting at `skip`, of length min(limit, rows left) |
| UrlRepository.WindowKeepsOrder | app/repositories/url.py:45-47 | a window of a newest-first list is newest first |
| UrlRepository.IndexOfId | app/repositories/url.py:68-73 | the row that `session.add` of a stored row overwrites is the first row with its id |
| UrlRepository.IndexOfIdUnique | app/models/url.py:14 | under the primary key, the row with the id of row k is row k |
| UrlRepository.URLRepository.constructor | app/repositories/url.py:12-13 | a new repository is an empty, valid table |
| UrlRepository.URLRepository.Create | app/repositories/url.py:15-20 | insertion succeeds exactly when both the id and the code are new; on success the row is appended, and on failure it is an integrity error and the table is unchanged |
| UrlRepository.URLRepository.GetById | app/repositories/url.py:22-26 | returns a stored row with that id, or nothing exactly when none exists |
| UrlRepository.URLRepository.GetByShortCode | app/repositories/url.py:28-32 | returns a stored row with that code, or nothing exactly when none exists |
| UrlRepository.URLRepository.GetByUserId | app/repositories/url.py:34-54 | returns the window of the owner's rows sorted newest first: at most `limit` rows, all of them stored rows of that owner, in newest-first order. `skip` defaults to 0 and `limit` to 100 |
| UrlRepository.DefaultListingIsCapped | app/repositories/url.py:34-48 | the call without paging arguments returns the owner's newest rows from the first one on, min(100, owned) of them |
| UrlRepository.URLRepository.CountByUserId | app/repositories/url.py:56-66 | the count is the number of the owner's rows, the same as the length of an unbounded listing |
| UrlRepository.URLRepository.Update | app/repositories/url.py:68-73 | the update succeeds exactly when no other row has the new code; on success the row with the same id takes the new fields, and on failure the table is unchanged |
| UrlRepository.URLRepository.Delete | app/repositories/url.py:75-78 | exactly the row with that id is removed, and the others keep their order |
| UrlRepository.URLRepository.IncrementClicks | app/repositories/url.py:80-83 | the stored row's click count goes up by exactly one, and nothing else changes |
| UrlRepository.CreatedUrlIsFound | app/repositories/url.py:15-32 | after a valid insert, the table still satisfies its constraints and the lookup by code returns the new row |
| UrlRepository.DeletedUrlIsGone | app/repositories/url.py:75-78 | after a delete, the table still satisfies its constraints, the deleted code is unknown, and every other row is still found by its code |
| UrlService.AttemptCode | app/services/url.py:76-77 | every attempt draws a code of the requested length |
| UrlService.Candidates | app/services/url.py:76-77 | the retry loop has one candidate code per attempt |
| UrlService.RetryOutcome | app/services/url.py:76-92 | the retry loop over the candidates stops within the number of attempts |
| UrlService.RetryOutcomeMeaning | app/services/url.py:76-92 | every attempt before the last one drew a taken code. On success, the result is the last candidate and no row holds it. The loop fails with the 500 exhaustion error only after all five candidates were taken |
| UrlService.OffsetIsProduct | app/services/url.py:76-77 | j attempts of `length` characters use j * length draws |
| UrlService.PreferredAvailable | app/services/url.py:36-48 | an absent or empty preferred code is never used; a code some row holds is not available; a non-empty code no row holds is |
| UrlService.EmptyUpdateOnlyRefreshesTimestamp | app/services/url.py:143-149 | an update with both fields omitted changes only `updated_at` |
| UrlService.ApplyUpdate | app/services/url.py:143-149 | a field given in the update overwrites the row, an absent field keeps its value, `updated_at` becomes now, and no other column changes |
| UrlService.URLService.constructor | app/services/url.py:18-24 | the service wraps the given repository and generator |
| UrlService.URLService.DrawCandidate | app/services/url.py:77-80 | one attempt draws the next candidate of the loop, advances the stream by one code length, and reports whether the code is free |
| UrlService.URLService.GenerateUniqueShortCode | app/services/url.py:63-92 | the loop returns the retry outcome over the five candidates the stream yields, and consumes exactly the draws of the attempts it made |
| UrlService.URLService.ChooseShortCode | app/services/url.py:33-51 | a non-empty preferred code that no row holds is used without drawing. Otherwise the result is the retry outcome. A returned code is free; a failure is the exhaustion error |
| UrlService.URLService.CreateShortUrl | app/services/url.py:26-61 | on success, exactly one row is appended: a new row with defaults, a code no earlier row held, found by its code. A free preferred code is used without drawing; otherwise the code is the retry outcome's. On exhaustion nothing changes |
| UrlService.URLService.GetUrlByShortCode | app/services/url.py:94-109 | 404 exactly when no row has the code; 410 exactly when its row is inactive; otherwise the stored active row with that code |
| UrlService.URLService.ResolveStoredRow | app/services/url.py:94-109 | resolving a stored row's code returns that row when it is active, and 410, never 404, when it is not |
| UrlService.URLService.GetUserUrls | app/services/url.py:111-123 | page `page` is the window at `(page - 1) * page_size` of the owner's rows newest first: at most `page_size` rows, all the caller's. The total is the owner's full row count |
| UrlService.URLService.UpdateUrl | app/services/url.py:125-151 | 404 for an unknown code and 403 for a caller who does not own the row, both leaving the table unchanged. Otherwise exactly that row is replaced by its partial update |
| UrlService.URLService.DeleteUrl | app/services/url.py:153-169 | 404 for an unknown code and 403 for a caller who does not own the row, both leaving the table unchanged. Otherwise exactly that row is removed |
| UrlService.URLService.IncrementClick | app/services/url.py:171-174 | a code that does not resolve returns its 404 or 410 and changes nothing. Otherwise the resolved row's clicks go up by one and the updated row is returned |
| AuthService.TokenExpiry | app/security.py:49-54 | a non-zero `expires_delta` is added to now; an absent or zero one gives the default 30 minutes |
| AuthService.AuthService.constructor | app/services/auth.py:11-15 | the service wraps the given repository, hasher and token functions |
| AuthService.AuthService.RegisterUser | app/services/auth.py:17-31 | a taken email gives 400 and the table is unchanged. Otherwise exactly one user is appended, storing the hash of the password, and it is found by its email |
| AuthService.AuthService.CreateAccessToken | app/security.py:43-58 | the token encodes the claims with the expiry now + `expires_delta`, or now + 30 minutes when no delta is given |
| AuthService.AuthService.AuthenticateUser | app/services/auth.py:33-60 | success exactly when the email is known, the password verifies and the user is active; the token encodes `sub` = email with the default expiry, type bearer. 400 Inactive exactly when the password verifies for an inactive user. Every other failure is 401 |
| AuthService.AuthService.GetCurrentUser | app/services/auth.py:62-82 | success exactly when the token decodes, has `sub`, and a user has that email; the result is that stored user. Every failure is the same 401 |
| AuthService.UnknownEmailLooksLikeWrongPassword | app/services/auth.py:37-50 | an unknown email and a wrong password for a known email get the identical 401 |
| AuthService.InactiveUserWithWrongPassword | app/services/auth.py:44-55 | an inactive user with a wrong password gets the 401 of a wrong password, because the active flag is checked only after the password |
| AuthService.LoginThenCurrentUser | app/services/auth.py:58-82 | for any token scheme that decodes its tokens until they expire, the token from a successful login resolves, within 30 minutes, to the user who logged in |
| UrlApi.RStrip | app/api/v1/url.py:20 | `rstrip("/")` returns a prefix that does not end in '/', and everything it cut off was '/' |
| UrlApi.BuildShortUrl | app/api/v1/url.py:18-21 | the short URL ends with the code unchanged, preceded by exactly one '/'. What comes before is a prefix of the base that does not end in '/', and the base continues past it only with '/' |
| UrlApi.ExtraSlashesIgnored | app/api/v1/url.py:18-21 | adding any number of trailing slashes to the base URL does not change the short URL |
| UrlApi.TestClientShortUrl | tests/test_url_shortning.py:33 | base `http://test/` and code `nord` give `http://test/nord` |
| UrlApi.ParsePageQuery | app/api/v1/url.py:69-70 | the query is accepted exactly when page >= 1 and 1 <= page_size <= 100; absent values default to 1 and 20; a rejected query is a 422 with at least one message |
| UrlApi.TotalPages | app/api/v1/url.py:100 | 0 when the total is 0; otherwise n pages hold all the rows and n - 1 do not |
| UrlApi.TotalPagesIsLeast | app/api/v1/url.py:100 | no smaller number of pages holds all the rows |
| UrlApi.PageOfRow | app/api/v1/url.py:100 | row k lies on page k / page_size + 1, which is within the page count |
| UrlApi.EveryRowIsOnAPage | app/services/url.py:111-123 | every row of the caller's newest-first list is returned by some page between 1 and `total_pages` |
| UrlApi.ToResponse | app/api/v1/url.py:82-93 | the response copies the row's fields and adds the short URL built from its code |
| UrlApi.ListResponse | app/api/v1/url.py:80-101 | one response per row, in the same order; `total`, `page` and `page_size` are echoed; `total_pages` is the page count |
| UrlApi.GetMyUrlsAsWritten | app/api/v1/url.py:63-78 | an out-of-bounds query gets the query's 422; no query gets a list, since success would need the call's four arguments to fit the method's three parameters |
| UrlApi.MyUrlsRouteAsWrittenAlwaysFails | app/api/v1/url.py:78 | every query fails, and every valid one, including the default query, fails with 500 |
| UrlApi.GetMyUrls | app/api/v1/url.py:63-101 | as intended: the list succeeds exactly when the query is within bounds. It echoes the page and page size, and its total is the caller's full row count. A rejected query gets the query's 422 |
| UrlApi.MyUrlsResponse | app/services/url.py:111-123 | for a valid query, the intended list holds at most `page_size` of the caller's rows, newest first, each with the short link built from the base, and its page count is computed from the caller's full row count |
| UrlApi.RoutesAgreeOnRejectedQueries | app/api/v1/url.py:69-70 | the route as written and as intended give the same 422 for every out-of-bounds query |

## Left out

- Hashing and tokens: bcrypt and `python-jose` are foreign libraries, so the service receives
  `hash`, `verify`, `encode` and `decode` as functions. `verify` stands for the wrapper in
  app/security.py, which returns false when the check raises. `decode` stands for
  `decode_token`, which returns None when the signature or the expiry check fails. Claims
  other than `sub` and the `exp` claim's encoding are not modelled.
- The clock and the uuid generator: every operation that stamps a time takes `now`, in
  seconds. Creation takes the generated `id`, and requires it to be fresh, since a uuid4
  collision is not a behaviour of the code.
- `secrets.choice`: the generator draws from a stream of numbers `pick`. Draw number `n`
  selects `characters[pick(n) % 58]`. Uniformity is not modelled.
- Other `IShortCodeGenerator` implementations: the service always uses the random generator.
- Concurrency: the check-then-create race between `get_by_short_code` and `create` is not
  modelled. Every operation runs alone, and the repositories' integrity errors cover the
  constraint itself.
- The optional `URLFilter` of `get_by_user_id` and `count_by_user_id`: its `ilike` and date
  filters are SQL semantics. The service never passes one. The route passes one to
  `get_user_urls`, which has no parameter for it (see "## Findings").
- Schemas.ParseURLCreate: `original_url` is never validated as an `HttpUrl`. A malformed
  URL, which pydantic rejects with a further 422 message, is accepted here. Its
  normalisation, such as the trailing slash the tests expect, is not modelled either; the
  URL is kept as a plain string.
- `EmailStr` validation and the 8-100 character password bound of app/schemas/user.py are
  not modelled.
- The URL routes are not mounted: app/api/v1/router.py:9 includes only the auth router, so
  the mounted application answers the `/api/v1/urls` paths with 404. `UrlApi` models the
  URL routes as they would behave once included.
- The structlog calls of `create_short_url` only log, and are not modelled.
- Routes, dependency injection, database sessions and settings, other than the 30-minute
  token lifetime, are not modelled. `logout` is a message with no effect.
- The `WWW-Authenticate` headers of the 401 responses are not modelled.
- UrlService.URLService.GetUserUrls: requires `page >= 1` and `page_size >= 1`. The route's
  query bounds (`UrlApi.ParsePageQuery`) guarantee both. The service has no check of its own.
- UrlApi.TotalPages: computes the ceiling exactly on integers, where the code divides floats
  before `ceil`. The two can differ only for totals so large that the float quotient rounds.
- UrlRepository.NewestFirst: rows with equal `created_at` are put in one fixed order, where
  the database promises none.
- The length bump on the last attempt of `_generate_unique_short_code` is modelled as
  written. No draw ever uses the bumped length, because the loop ends right after it.
- `get_by_id` of the user repository is annotated `int` while ids are strings. The model
  uses strings.
- The trailing-newline behaviour of `re.match` with `$` is modelled as Python defines it.
  The case-sensitive collation of the lookups is the default, byte-exact one.

## Findings

| source | as written | input that shows it | evidently intended | confidence | as-written member | corrected member |
|---|---|---|---|---|---|---|
| app/api/v1/url.py:78 | `get_my_urls` calls `get_user_urls(current_user.id, page, page_size, url_filter)`, but the method declares only `user_id, page, page_size` (app/services/url.py:111-113). The call raises TypeError, answered with 500 | any call of `get_my_urls`, once `url.router` is included in the API router as tests/test_url_shortning.py expects | call the service with the id, the page and the page size, and return one page of the caller's URLs | high (by reading the signatures; not executed) | UrlApi.GetMyUrlsAsWritten, UrlApi.MyUrlsRouteAsWrittenAlwaysFails | UrlApi.GetMyUrls, UrlApi.MyUrlsResponse |
