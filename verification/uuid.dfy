/** The UUID version 4 validator (libs/core/src/lib/browser/uuid/uuid.validators.ts):
    the regular expression
    `^[0-9a-f]{8}-[0-9a-f]{4}-[4][0-9a-f]{3}-[89ab][0-9a-f]{3}-[0-9a-f]{12}$`
    with the `i` flag, and the form validator built on it. The layout is
    the string form of section 3 of RFC 4122, the '4' the version of
    section 4.1.3, and 8, 9, a or b the variant of section 4.1.1. */
module Uuid {
  import opened Results
  import Validators

  /** `[0-9a-f]` under the `i` flag: A to F match as well. */
  predicate IsHexDigit(c: char) {
    '0' <= c <= '9' || 'a' <= c <= 'f' || 'A' <= c <= 'F'
  }

  /** The character classes the expression uses. */
  datatype CharClass = Hex | Dash | Version | Variant

  predicate Matches(cls: CharClass, c: char) {
    match cls
    case Hex => IsHexDigit(c)
    case Dash => c == '-'
    case Version => c == '4'
    case Variant => c in "89abAB"
  }

  function Repeat(cls: CharClass, n: nat): (r: seq<CharClass>)
    ensures |r| == n && forall i :: 0 <= i < n ==> r[i] == cls
  {
    seq(n, _ => cls)
  }

  /** The expression between its anchors: fixed counts only, so a match is
      one character per class. */
  const V4Pattern: seq<CharClass> :=
    Repeat(Hex, 8) + [Dash] + Repeat(Hex, 4) + [Dash] + [Version] + Repeat(Hex, 3) + [Dash] +
    [Variant] + Repeat(Hex, 3) + [Dash] + Repeat(Hex, 12)

  /** `v4Regex.test(str)`: anchored at both ends, so the whole string
      matches the pattern. */
  predicate IsUuidV4(str: string) {
    |str| == |V4Pattern| && forall i :: 0 <= i < |str| ==> Matches(V4Pattern[i], str[i])
  }

  /** Where each class of the pattern sits. */
  lemma PatternAt(i: int)
    requires 0 <= i < 36
    ensures |V4Pattern| == 36
    ensures V4Pattern[i] ==
      if i == 8 || i == 13 || i == 18 || i == 23 then Dash
      else if i == 14 then Version
      else if i == 19 then Variant
      else Hex
  {
    var p := V4Pattern;
    assert p[..8] == Repeat(Hex, 8);
    assert p[9..13] == Repeat(Hex, 4);
    assert p[15..18] == Repeat(Hex, 3);
    assert p[20..23] == Repeat(Hex, 3);
    assert p[24..] == Repeat(Hex, 12);
    if i < 8 {
      assert p[i] == p[..8][i];
    } else if 9 <= i < 13 {
      assert p[i] == p[9..13][i - 9];
    } else if 15 <= i < 18 {
      assert p[i] == p[15..18][i - 15];
    } else if 20 <= i < 23 {
      assert p[i] == p[20..23][i - 20];
    } else if 24 <= i {
      assert p[i] == p[24..][i - 24];
    }
  }

  predicate AllHex(group: string) {
    forall i :: 0 <= i < |group| ==> IsHexDigit(group[i])
  }

  /** Five groups of 8, 4, 4, 4 and 12 hex digits joined by '-', the third
      starting with the version '4', the fourth with a variant digit. */
  predicate IsV4Layout(str: string) {
    |str| == 36 &&
    AllHex(str[0..8]) && str[8] == '-' &&
    AllHex(str[9..13]) && str[13] == '-' &&
    AllHex(str[14..18]) && str[14] == '4' && str[18] == '-' &&
    AllHex(str[19..23]) && str[19] in "89abAB" && str[23] == '-' &&
    AllHex(str[24..36])
  }

  /** The expression accepts exactly the version 4 layout. */
  lemma IsUuidV4IsLayout(str: string)
    ensures IsUuidV4(str) <==> IsV4Layout(str)
  {
    PatternAt(0);
    if |str| == 36 {
      forall i | 0 <= i < 36
        ensures Matches(V4Pattern[i], str[i]) <==>
          if i == 8 || i == 13 || i == 18 || i == 23 then str[i] == '-'
          else if i == 14 then str[i] == '4'
          else if i == 19 then str[i] in "89abAB"
          else IsHexDigit(str[i])
      {
        PatternAt(i);
      }
      if IsV4Layout(str) {
        forall i | 0 <= i < 36
          ensures Matches(V4Pattern[i], str[i])
        {
          PatternAt(i);
          if i < 8 {
            assert str[i] == str[0..8][i];
          } else if 9 <= i < 13 {
            assert str[i] == str[9..13][i - 9];
          } else if 14 <= i < 18 {
            assert str[i] == str[14..18][i - 14];
          } else if 19 <= i < 23 {
            assert str[i] == str[19..23][i - 19];
          } else if 24 <= i {
            assert str[i] == str[24..36][i - 24];
          }
        }
      }
    }
  }

  function AsciiLower(c: char): char {
    if 'A' <= c <= 'Z' then (c as int - 'A' as int + 'a' as int) as char else c
  }

  function AsciiLowerCase(str: string): (r: string)
    ensures |r| == |str| && forall i :: 0 <= i < |str| ==> r[i] == AsciiLower(str[i])
  {
    seq(|str|, i requires 0 <= i < |str| => AsciiLower(str[i]))
  }

  /** The `i` flag: a string matches exactly when its lower-case form
      does. */
  lemma CaseDoesNotMatter(str: string)
    ensures IsUuidV4(str) <==> IsUuidV4(AsciiLowerCase(str))
  {
    var lowered := AsciiLowerCase(str);
    forall i | 0 <= i < |str| && i < |V4Pattern|
      ensures Matches(V4Pattern[i], str[i]) <==> Matches(V4Pattern[i], lowered[i])
    {
    }
  }

  /** The error object `{ invalidUuidV4: true }`. */
  datatype UuidError = InvalidUuidV4

  /** `uuidV4Validator()` applied to a control's value, `None` standing for
      `null` or `undefined`. */
  function UuidV4Validator(value: Option<string>): (r: Option<UuidError>)
  {
    if !Validators.IsFalsy(value) && IsUuidV4(value.value) then None else Some(InvalidUuidV4)
  }

  /** Valid exactly when a value is there and has the version 4 layout;
      the truthiness test never rejects a string the expression accepts. */
  lemma ValidatorAcceptsLayout(value: Option<string>)
    ensures UuidV4Validator(value).None? <==> value.Some? && IsV4Layout(value.value)
  {
    if value.Some? {
      IsUuidV4IsLayout(value.value);
    }
  }

  lemma AcceptsLowerCaseExample()
    ensures IsUuidV4("110ec58a-a0f2-4ac4-8393-c866d813b8d1")
  {
    var str := "110ec58a-a0f2-4ac4-8393-c866d813b8d1";
    PatternAt(0);
    forall i | 0 <= i < 36
      ensures Matches(V4Pattern[i], str[i])
    {
      PatternAt(i);
    }
  }

  lemma AcceptsUpperCaseExample()
    ensures IsUuidV4("110EC58A-A0F2-4AC4-B393-C866D813B8D1")
  {
    var str := "110EC58A-A0F2-4AC4-B393-C866D813B8D1";
    PatternAt(0);
    forall i | 0 <= i < 36
      ensures Matches(V4Pattern[i], str[i])
    {
      PatternAt(i);
    }
  }

  /** A version 1 identifier, a variant 'c' and a string one digit short. */
  lemma RejectsExamples()
    ensures !IsUuidV4("110ec58a-a0f2-1ac4-8393-c866d813b8d1")
    ensures !IsUuidV4("110ec58a-a0f2-4ac4-c393-c866d813b8d1")
    ensures !IsUuidV4("110ec58a-a0f2-4ac4-8393-c866d813b8d")
    ensures UuidV4Validator(Some("")) == Some(InvalidUuidV4)
    ensures UuidV4Validator(None) == Some(InvalidUuidV4)
  {
    PatternAt(14);
    PatternAt(19);
    assert "110ec58a-a0f2-1ac4-8393-c866d813b8d1"[14] == '1';
    assert "110ec58a-a0f2-4ac4-c393-c866d813b8d1"[19] == 'c';
  }
}
