/** The random short-code generator: its 58-character alphabet and its draws. */
module ShortCodeGenerator {
  import Schemas

  const DefaultLength := 6

  /** `string.ascii_lowercase`, `string.ascii_uppercase`, `string.digits`. */
  function AsciiLowercase(): string { seq(26, i requires 0 <= i < 26 => (97 + i) as char) }
  function AsciiUppercase(): string { seq(26, i requires 0 <= i < 26 => (65 + i) as char) }
  function Digits(): string { seq(10, i requires 0 <= i < 10 => (48 + i) as char) }

  predicate IsAsciiAlnum(c: char) {
    ('a' <= c <= 'z') || ('A' <= c <= 'Z') || ('0' <= c <= '9')
  }

  /** The characters left out because they are easily confused with others. */
  predicate IsAmbiguous(c: char) {
    c == '0' || c == 'O' || c == 'I' || c == 'l'
  }

  ghost predicate Distinct(s: string) {
    forall i, j :: 0 <= i < |s| && 0 <= j < |s| && s[i] == s[j] ==> i == j
  }

  /** `s.replace(c, "")`. */
  function Remove(s: string, c: char): (r: string)
    ensures |r| <= |s|
    ensures c !in r
  {
    if s == [] then []
    else if s[0] == c then Remove(s[1..], c)
    else [s[0]] + Remove(s[1..], c)
  }

  lemma {:induction false} RemoveMembership(s: string, c: char)
    ensures forall x :: x in Remove(s, c) <==> x in s && x != c
  {
    if s != [] {
      RemoveMembership(s[1..], c);
      assert s == [s[0]] + s[1..];
    }
  }

  lemma DistinctTail(s: string)
    requires Distinct(s) && s != []
    ensures Distinct(s[1..]) && s[0] !in s[1..]
  {
    var t := s[1..];
    forall i, j | 0 <= i < |t| && 0 <= j < |t| && t[i] == t[j] ensures i == j {
      assert s[i + 1] == s[j + 1];
    }
    forall j | 0 <= j < |t| ensures t[j] != s[0] {
      assert t[j] == s[j + 1];
    }
  }

  /** Removing a character that occurs once from a string without repeats shortens it by one
      and leaves it without repeats. */
  lemma {:induction false} RemoveFromDistinct(s: string, c: char)
    requires Distinct(s)
    ensures Distinct(Remove(s, c))
    ensures |Remove(s, c)| == if c in s then |s| - 1 else |s|
  {
    if s != [] {
      var t := s[1..];
      DistinctTail(s);
      RemoveFromDistinct(t, c);
      RemoveMembership(t, c);
      assert c in s <==> c == s[0] || c in t by {
        assert s == [s[0]] + t;
      }
      if s[0] != c {
        var r := [s[0]] + Remove(t, c);
        assert Remove(s, c) == r;
        assert forall k :: 1 <= k < |r| ==> r[k] in t by {
          forall k | 1 <= k < |r| ensures r[k] in t {
            assert r[k] == Remove(t, c)[k - 1];
          }
        }
        forall i, j | 0 <= i < |r| && 0 <= j < |r| && r[i] == r[j] ensures i == j {
          if i > 0 && j > 0 {
            assert r[i] == Remove(t, c)[i - 1] && r[j] == Remove(t, c)[j - 1];
          }
        }
      }
    }
  }

  lemma {:induction false} RemoveAbsent(s: string, c: char)
    requires c !in s
    ensures Remove(s, c) == s
  {
    if s != [] {
      assert s == [s[0]] + s[1..];
      RemoveAbsent(s[1..], c);
    }
  }

  /** In a string without repeats, removing the character at position `k` cuts out exactly
      that position. */
  lemma {:induction false} RemoveAt(s: string, k: nat)
    requires Distinct(s) && k < |s|
    ensures Remove(s, s[k]) == s[..k] + s[k + 1..]
  {
    DistinctTail(s);
    if k == 0 {
      RemoveAbsent(s[1..], s[0]);
    } else {
      assert s[1..][k - 1] == s[k];
      RemoveAt(s[1..], k - 1);
      assert s[..k] + s[k + 1..] == [s[0]] + (s[1..][..k - 1] + s[1..][k..]);
    }
  }

  /** Character number `i` of the alphabet: `a`-`k`, `m`-`z`, `A`-`H`, `J`-`N`, `P`-`Z`,
      `1`-`9`. */
  function AlphabetChar(i: nat): (c: char)
    requires i < 58
  {
    (if i < 11 then 97 + i else if i < 25 then 98 + i else if i < 33 then 40 + i
     else if i < 38 then 41 + i else if i < 49 then 42 + i else i) as char
  }

  /** `ascii_letters + digits` with `0`, `O`, `I` and `l` removed, in that order. */
  function Alphabet(): (s: string)
    ensures |s| == 58
  {
    seq(58, i requires 0 <= i < 58 => AlphabetChar(i))
  }

  /** Cutting the character at position `k` out of a string without repeats, in one
      statement: positions before `k` stay, later ones move down by one. */
  lemma RemoveAtIndex(s: string, k: nat, c: char)
    requires Distinct(s) && k < |s| && s[k] == c
    ensures Distinct(Remove(s, c))
    ensures |Remove(s, c)| == |s| - 1
    ensures forall i {:trigger Remove(s, c)[i]} :: 0 <= i < |s| - 1 ==>
              Remove(s, c)[i] == if i < k then s[i] else s[i + 1]
  {
    RemoveAt(s, k);
    RemoveFromDistinct(s, s[k]);
  }

  /** `string.ascii_letters + string.digits`. */
  function AsciiAlnum(): (s: string)
    ensures |s| == 62
  {
    AsciiLowercase() + AsciiUppercase() + Digits()
  }

  lemma AsciiAlnumLayout()
    ensures |AsciiAlnum()| == 62 && Distinct(AsciiAlnum())
    ensures forall i :: 0 <= i < 62 ==>
              AsciiAlnum()[i] as int == if i < 26 then 97 + i else if i < 52 then 39 + i else i - 4
  {
    var s := AsciiAlnum();
    assert forall i :: 0 <= i < 62 ==> s[i] as int == if i < 26 then 97 + i else if i < 52 then 39 + i else i - 4;
  }

  /** The character codes left after each of the first three `replace` calls, by position. */
  function CodeAfterZero(i: int): int {
    if i < 26 then 97 + i else if i < 52 then 39 + i else i - 3
  }

  function CodeAfterUpperO(i: int): int {
    if i < 26 then 97 + i else if i < 40 then 39 + i else if i < 51 then 40 + i else i - 2
  }

  function CodeAfterUpperI(i: int): int {
    if i < 26 then 97 + i else if i < 34 then 39 + i else if i < 39 then 40 + i
    else if i < 50 then 41 + i else i - 1
  }

  /** `.replace("0", "")` on `ascii_letters + digits`. */
  lemma RemoveZeroStep(s0: string)
    requires s0 == AsciiAlnum()
    ensures |Remove(s0, '0')| == 61 && Distinct(Remove(s0, '0'))
    ensures forall i :: 0 <= i < 61 ==> Remove(s0, '0')[i] as int == CodeAfterZero(i)
  {
    AsciiAlnumLayout();
    RemoveAtIndex(s0, 52, '0');
  }

  /** `.replace("O", "")` next. */
  lemma RemoveUpperOStep(s1: string)
    requires |s1| == 61 && Distinct(s1)
    requires forall i :: 0 <= i < 61 ==> s1[i] as int == CodeAfterZero(i)
    ensures |Remove(s1, 'O')| == 60 && Distinct(Remove(s1, 'O'))
    ensures forall i :: 0 <= i < 60 ==> Remove(s1, 'O')[i] as int == CodeAfterUpperO(i)
  {
    RemoveAtIndex(s1, 40, 'O');
  }

  /** `.replace("I", "")` next. */
  lemma RemoveUpperIStep(s2: string)
    requires |s2| == 60 && Distinct(s2)
    requires forall i :: 0 <= i < 60 ==> s2[i] as int == CodeAfterUpperO(i)
    ensures |Remove(s2, 'I')| == 59 && Distinct(Remove(s2, 'I'))
    ensures forall i :: 0 <= i < 59 ==> Remove(s2, 'I')[i] as int == CodeAfterUpperI(i)
  {
    RemoveAtIndex(s2, 34, 'I');
  }

  /** `.replace("l", "")` last, which leaves the alphabet. */
  lemma RemoveLowerLStep(s3: string)
    requires |s3| == 59 && Distinct(s3)
    requires forall i :: 0 <= i < 59 ==> s3[i] as int == CodeAfterUpperI(i)
    ensures Remove(s3, 'l') == Alphabet()
  {
    RemoveAtIndex(s3, 11, 'l');
    var s4 := Remove(s3, 'l');
    forall i | 0 <= i < 58 ensures s4[i] == Alphabet()[i] {
      if i < 11 { assert s4[i] == s3[i]; } else { assert s4[i] == s3[i + 1]; }
    }
  }

  /** The alphabet is what the four successive `replace` calls leave of `ascii_letters +
      digits`. */
  lemma AlphabetIsConstruction()
    ensures Alphabet() == Remove(Remove(Remove(Remove(AsciiAlnum(), '0'), 'O'), 'I'), 'l')
  {
    var s1 := Remove(AsciiAlnum(), '0');
    RemoveZeroStep(AsciiAlnum());
    var s2 := Remove(s1, 'O');
    RemoveUpperOStep(s1);
    RemoveUpperIStep(s2);
    RemoveLowerLStep(Remove(s2, 'I'));
  }

  lemma AlphabetMembership(c: char)
    ensures c in Alphabet() <==> IsAsciiAlnum(c) && !IsAmbiguous(c)
  {
    var s := Alphabet();
    if IsAsciiAlnum(c) && !IsAmbiguous(c) {
      var n := c as int;
      var k := if 97 <= n <= 107 then n - 97 else if 109 <= n <= 122 then n - 98
               else if 65 <= n <= 72 then n - 40 else if 74 <= n <= 78 then n - 41
               else if 80 <= n <= 90 then n - 42 else n;
      assert s[k] == c;
    }
    if c in s {
      var k :| 0 <= k < 58 && s[k] == c;
      assert s[k] == AlphabetChar(k);
    }
  }

  /** The alphabet has exactly 58 distinct characters: the ASCII letters and digits other
      than the four ambiguous ones. */
  lemma AlphabetFacts()
    ensures |Alphabet()| == 58
    ensures Distinct(Alphabet())
    ensures forall c :: c in Alphabet() <==> IsAsciiAlnum(c) && !IsAmbiguous(c)
  {
    var s := Alphabet();
    forall i, j | 0 <= i < 58 && 0 <= j < 58 && s[i] == s[j] ensures i == j {
      assert s[i] == AlphabetChar(i) && s[j] == AlphabetChar(j);
    }
    forall c ensures c in Alphabet() <==> IsAsciiAlnum(c) && !IsAmbiguous(c) {
      AlphabetMembership(c);
    }
  }

  /** Every alphabet character is one the short-code pattern `[a-zA-Z0-9_-]` admits. */
  lemma AlphabetWithinPattern(code: string)
    requires forall i :: 0 <= i < |code| ==> code[i] in Alphabet()
    ensures Schemas.AllShortCodeChars(code)
  {
    AlphabetFacts();
  }

  /** Reserved words are not excluded from the alphabet: a draw can spell one. */
  lemma ReservedWordsAreDrawable()
    ensures "signup" in Schemas.Reserved
    ensures forall i :: 0 <= i < 6 ==> "signup"[i] in Alphabet()
  {
    AlphabetFacts();
  }

  /** `"".join(secrets.choice(chars) for _ in range(length))`, where the random source is the
      stream `pick`: draw number `start + i` selects character `pick(start + i) % |chars|`. */
  function Draw(pick: nat -> nat, chars: string, start: nat, length: nat): (r: string)
    requires |chars| > 0
    ensures |r| == length
    ensures forall i :: 0 <= i < length ==> r[i] in chars
    decreases length
  {
    if length == 0 then [] else [chars[pick(start) % |chars|]] + Draw(pick, chars, start + 1, length - 1)
  }

  /** Every character of the alphabet is reached by some value of the stream. */
  lemma EveryCharacterDrawable(chars: string, c: char, start: nat)
    requires c in chars
    ensures exists pick: nat -> nat :: Draw(pick, chars, start, 1) == [c]
  {
    var k :| 0 <= k < |chars| && chars[k] == c;
    var pick: nat -> nat := n => k;
    assert Draw(pick, chars, start, 1)[0] == c;
  }

  class RandomShortCodeGenerator {
    var characters: string
    /** The random source, as an infinite stream of draws. */
    const pick: nat -> nat
    /** How many draws have been taken from `pick`. */
    var drawn: nat

    ghost predicate Valid()
      reads this
    {
      characters == Alphabet() && |characters| == 58
    }

    constructor (pick: nat -> nat)
      ensures Valid() && this.pick == pick && drawn == 0
    {
      this.pick := pick;
      new;
      drawn := 0;
      characters := AsciiAlnum();
      characters := Remove(Remove(Remove(Remove(characters, '0'), 'O'), 'I'), 'l');
      AlphabetIsConstruction();
    }

    method Generate(length: nat := DefaultLength) returns (code: string)
      requires Valid()
      modifies this
      ensures Valid() && drawn == old(drawn) + length
      ensures code == Draw(pick, characters, old(drawn), length)
      ensures |code| == length
      ensures forall i :: 0 <= i < |code| ==> code[i] in Alphabet() && !IsAmbiguous(code[i])
    {
      AlphabetFacts();
      code := Draw(pick, characters, drawn, length);
      drawn := drawn + length;
    }
  }
}
