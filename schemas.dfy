/** Request bodies of the URL endpoints and the checks pydantic applies when parsing them. */
module Schemas {
  import opened Wrappers
  import opened Models

  const ShortCodeMinLength := 3
  const ShortCodeMaxLength := 50

  /** Route names a preferred short code may not take, compared after lower-casing. */
  const Reserved: set<string> := {"api", "admin", "login", "signup", "logout", "docs", "redoc", "auth"}

  const BadCharactersMessage := "Short code can only contain letters, numbers, hyphens, and underscores"
  const TooShortMessage := "String should have at least 3 characters"
  const TooLongMessage := "String should have at most 50 characters"
  const TitleTooLongMessage := "String should have at most 255 characters"

  function ReservedMessage(v: string): string {
    "Short code \"" + v + "\" is reserved and cannot be used"
  }

  /** One member of the character class `[a-zA-Z0-9_-]`. */
  predicate IsShortCodeChar(c: char) {
    ('a' <= c <= 'z') || ('A' <= c <= 'Z') || ('0' <= c <= '9') || c == '_' || c == '-'
  }

  predicate AllShortCodeChars(s: string) {
    forall i :: 0 <= i < |s| ==> IsShortCodeChar(s[i])
  }

  /** `re.match(r"^[a-zA-Z0-9_-]+$", v)`: without MULTILINE, Python's `$` matches at the end of
      the string and also just before a newline that ends it. */
  function MatchesShortCodePattern(v: string): (b: bool)
    ensures b ==> |v| >= 1 && forall i :: 0 <= i < |v| - 1 ==> IsShortCodeChar(v[i])
    ensures b ==> IsShortCodeChar(v[|v| - 1]) || (|v| >= 2 && v[|v| - 1] == '\n')
    ensures |v| >= 1 && AllShortCodeChars(v) ==> b
    ensures |v| >= 2 && v[|v| - 1] == '\n' && AllShortCodeChars(v[..|v| - 1]) ==> b
  {
    || (|v| >= 1 && AllShortCodeChars(v))
    || (|v| >= 2 && v[|v| - 1] == '\n' && AllShortCodeChars(v[..|v| - 1]))
  }

  function LowerChar(c: char): (d: char)
    ensures 'A' <= c <= 'Z' ==> 'a' <= d <= 'z' && d as int == c as int + 32
    ensures !('A' <= c <= 'Z') ==> d == c
  {
    if 'A' <= c <= 'Z' then (c as int + 32) as char else c
  }

  /** `str.lower()` on the strings that reach it here, which are ASCII (the pattern check runs
      first and admits only ASCII letters, digits, `_`, `-` and a final newline). */
  function Lower(s: string): (r: string)
    ensures |r| == |s| && forall i :: 0 <= i < |s| ==> r[i] == LowerChar(s[i])
  {
    seq(|s|, i requires 0 <= i < |s| => LowerChar(s[i]))
  }

  /** `URLCreate.validate_short_code`, which pydantic runs after the length bounds. */
  function ValidateShortCode(v: Option<string>): (r: Result<Option<string>, string>)
    ensures v.None? ==> r == Success(None)
    ensures r.Success? ==> r.value == v
    ensures v.Some? && !MatchesShortCodePattern(v.value) ==> r == Failure(BadCharactersMessage)
    ensures v.Some? && MatchesShortCodePattern(v.value) ==>
              (r.Failure? <==> Lower(v.value) in Reserved)
  {
    if v.Some? then
      if !MatchesShortCodePattern(v.value) then Failure(BadCharactersMessage)
      else if Lower(v.value) in Reserved then Failure(ReservedMessage(v.value))
      else Success(v)
    else Success(v)
  }

  /** The body of `POST /urls`, after parsing. */
  datatype URLCreate = URLCreate(originalUrl: string, preferredShortCode: Option<string>, title: Option<string>)

  /** The body of `PATCH /urls/{short_code}`: absent fields are `None`. */
  datatype URLUpdate = URLUpdate(title: Option<string>, isActive: Option<bool>)

  const EmptyURLUpdate := URLUpdate(None, None)

  /** The error messages of the `preferred_short_code` field: length bounds first; the
      validator runs only on a value inside them. */
  function PreferredShortCodeErrors(v: Option<string>): (errs: seq<string>)
    ensures v.None? ==> errs == []
    ensures v.Some? && |v.value| < ShortCodeMinLength ==> errs == [TooShortMessage]
    ensures v.Some? && |v.value| > ShortCodeMaxLength ==> errs == [TooLongMessage]
    ensures v.Some? && ShortCodeMinLength <= |v.value| <= ShortCodeMaxLength ==>
              (errs == [] <==> ValidateShortCode(v).Success?) &&
              (errs != [] ==> errs == [ValidateShortCode(v).error])
    ensures |errs| <= 1
  {
    if v.None? then []
    else if |v.value| < ShortCodeMinLength then [TooShortMessage]
    else if |v.value| > ShortCodeMaxLength then [TooLongMessage]
    else match ValidateShortCode(v)
      case Success(_) => []
      case Failure(msg) => [msg]
  }

  function TitleErrors(title: Option<string>): (errs: seq<string>)
    ensures errs == [] <==> title.None? || |title.value| <= TitleMaxLength
  {
    if title.Some? && |title.value| > TitleMaxLength then [TitleTooLongMessage] else []
  }

  /** Parsing a `URLCreate`; pydantic reports the errors of every field together. */
  function ParseURLCreate(originalUrl: string, preferredShortCode: Option<string>, title: Option<string>)
    : (r: Result<URLCreate, Error>)
    ensures r.Success? <==>
              PreferredShortCodeErrors(preferredShortCode) == [] &&
              (title.None? || |title.value| <= TitleMaxLength)
    ensures r.Success? ==> r.value == URLCreate(originalUrl, preferredShortCode, title)
    ensures r.Failure? ==>
              r.error == Unprocessable(PreferredShortCodeErrors(preferredShortCode) + TitleErrors(title)) &&
              1 <= |r.error.details| <= 2
  {
    var errs := PreferredShortCodeErrors(preferredShortCode) + TitleErrors(title);
    if errs == [] then Success(URLCreate(originalUrl, preferredShortCode, title))
    else Failure(Unprocessable(errs))
  }

  /** Parsing a `URLUpdate`. */
  function ParseURLUpdate(title: Option<string>, isActive: Option<bool>): (r: Result<URLUpdate, Error>)
    ensures r.Success? <==> title.None? || |title.value| <= TitleMaxLength
    ensures r.Success? ==> r.value == URLUpdate(title, isActive)
  {
    var errs := TitleErrors(title);
    if errs == [] then Success(URLUpdate(title, isActive)) else Failure(Unprocessable(errs))
  }

  /** A preferred short code that parses is either made of `[a-zA-Z0-9_-]` only and 3 to 50
      long, or is such a string of 2 to 49 characters followed by one newline; it is never a
      reserved word in any letter case. */
  lemma {:induction false} AcceptedShortCode(url: string, v: string, title: Option<string>)
    requires ParseURLCreate(url, Some(v), title).Success?
    ensures ShortCodeMinLength <= |v| <= ShortCodeMaxLength
    ensures AllShortCodeChars(v) || (v[|v| - 1] == '\n' && AllShortCodeChars(v[..|v| - 1]))
    ensures forall w :: w in Reserved ==> !EqualIgnoringCase(v, w)
  {
    assert PreferredShortCodeErrors(Some(v)) == [] by {
      var errs := PreferredShortCodeErrors(Some(v)) + TitleErrors(title);
      assert errs == [];
      assert |errs| == |PreferredShortCodeErrors(Some(v))| + |TitleErrors(title)|;
    }
    assert ValidateShortCode(Some(v)).Success?;
    forall w | w in Reserved ensures !EqualIgnoringCase(v, w) {
      if EqualIgnoringCase(v, w) {
        LowerOfEqualIgnoringCase(v, w);
        assert false;
      }
    }
  }

  /** The converse of `AcceptedShortCode`: a body whose preferred code is 3 to 50 pattern
      characters, equal to no reserved word in any letter case, and whose title fits, parses,
      and keeps the code as given. */
  lemma {:induction false} AcceptsValidShortCode(url: string, v: string, title: Option<string>)
    requires ShortCodeMinLength <= |v| <= ShortCodeMaxLength && AllShortCodeChars(v)
    requires forall w :: w in Reserved ==> !EqualIgnoringCase(v, w)
    requires title.None? || |title.value| <= TitleMaxLength
    ensures ParseURLCreate(url, Some(v), title) == Success(URLCreate(url, Some(v), title))
  {
    if Lower(v) in Reserved {
      LowerIsEqualIgnoringCase(v, Lower(v));
    }
  }

  /** A body without a preferred code parses whenever its title fits. */
  lemma AcceptsMissingShortCode(url: string, title: Option<string>)
    requires title.None? || |title.value| <= TitleMaxLength
    ensures ParseURLCreate(url, None, title) == Success(URLCreate(url, None, title))
  {
  }

  /** An update body with both fields omitted parses to the update that changes nothing. */
  lemma OmittedFieldsParseAsEmpty()
    ensures ParseURLUpdate(None, None) == Success(EmptyURLUpdate)
  {
  }

  /** Case-insensitive equality as `str.lower()` decides it on ASCII text. */
  predicate EqualIgnoringCase(a: string, b: string) {
    |a| == |b| && forall i :: 0 <= i < |a| ==> LowerChar(a[i]) == LowerChar(b[i])
  }

  /** The reserved words are written in lower case, so a string equal to one of them up to
      case lowers to it. */
  lemma LowerOfEqualIgnoringCase(a: string, w: string)
    requires w in Reserved && EqualIgnoringCase(a, w)
    ensures Lower(a) == w
  {
    assert forall i :: 0 <= i < |w| ==> LowerChar(w[i]) == w[i];
  }

  /** A string whose lower-case form is a reserved word equals that word up to case. */
  lemma LowerIsEqualIgnoringCase(a: string, w: string)
    requires w in Reserved && Lower(a) == w
    ensures EqualIgnoringCase(a, w)
  {
    assert forall i :: 0 <= i < |w| ==> LowerChar(w[i]) == w[i];
  }

  /** The reserved-word check ignores case: any letter-case spelling of a reserved word
      made of pattern characters is refused with the reserved message. */
  lemma ReservedInAnyCase(v: string, w: string)
    requires w in Reserved && EqualIgnoringCase(v, w) && AllShortCodeChars(v)
    ensures ValidateShortCode(Some(v)) == Failure(ReservedMessage(v))
  {
    LowerOfEqualIgnoringCase(v, w);
  }

  /** The trailing-newline case of `$`: a reserved word followed by `"\n"` lowers to a string
      outside the reserved set, so it is accepted unchanged. */
  lemma ReservedWordWithNewlineAccepted()
    ensures ValidateShortCode(Some("admin\n")) == Success(Some("admin\n"))
    ensures PreferredShortCodeErrors(Some("admin\n")) == []
  {
    var v := "admin\n";
    assert AllShortCodeChars(v[..|v| - 1]);
    assert |Lower(v)| == 6;
    forall w | w in Reserved ensures Lower(v) != w {
      assert Lower(v)[5] == '\n';
    }
  }
}
