/** Letters, letter indexes and the "complete alphabet" check shared by the
    rotor and the reflector (libs/enigma/enigma-utility/src/lib/alphabet.ts). */
module Alphabet {
  import opened Results

  const CHAR_CODE_LETTER_A: int := 97

  /** JavaScript strings are made of 16-bit code units. */
  const UTF16_CODE_UNITS: int := 0x1_0000

  /** The 26 lower-case letters, sorted; `ALPHABET[LetterIndex.X]` is letter X. */
  const ALPHABET: string := "abcdefghijklmnopqrstuvwxyz"

  /** `ALPHABET.length`. */
  const ALPHABET_SIZE: int := 26

  /** `ALPHABET[i]`, computed from the character code. */
  function LetterAt(i: int): (c: char)
    requires 0 <= i < ALPHABET_SIZE
    ensures IsLetter(c) && LetterIndex(c) == i
  {
    (i + CHAR_CODE_LETTER_A) as char
  }

  predicate IsLetter(c: char) {
    'a' <= c <= 'z'
  }

  /** `isValidAlphabetLetter` as intended: the keys the lookup table is
      built with, the 26 one-character strings "a" .. "z". */
  predicate IsValidAlphabetLetter(s: string) {
    |s| == 1 && IsLetter(s[0])
  }

  /** The property names a plain object inherits from `Object.prototype`
      (section 20.1.3 of ECMA-262 and its Annex B). Reading any of them
      from `{}` gives a function or an object, which is truthy. */
  const OBJECT_PROTOTYPE_KEYS: set<string> := {
    "constructor", "hasOwnProperty", "isPrototypeOf", "propertyIsEnumerable",
    "toLocaleString", "toString", "valueOf", "__proto__",
    "__defineGetter__", "__defineSetter__", "__lookupGetter__", "__lookupSetter__"}

  /** `isValidAlphabetLetter` as written: `validLettersMap[letter]` on a
      table built from `{}`, so the inherited names are found too. */
  predicate ValidLettersMapHas(s: string) {
    IsValidAlphabetLetter(s) || s in OBJECT_PROTOTYPE_KEYS
  }

  /** `getLetterIndexInAlphabet` as written, on any string: the first
      character's code minus 97 once the lookup succeeds. */
  function GetLetterIndexOfStringAsWritten(letter: string): Result<int> {
    if !ValidLettersMapHas(letter) then Err(InvalidLetter)
    else
      InheritedKeysAreLong();
      Ok(letter[0] as int - CHAR_CODE_LETTER_A)
  }

  /** The inherited names pass the check: "constructor" is given the index
      2 and "__proto__" the index -2, where `InvalidLetter` was meant. */
  lemma ValidLettersMapAcceptsInheritedKeys()
    ensures ValidLettersMapHas("constructor") && !IsValidAlphabetLetter("constructor")
    ensures ValidLettersMapHas("__proto__") && !IsValidAlphabetLetter("__proto__")
    ensures GetLetterIndexOfStringAsWritten("constructor") == Ok(2)
    ensures GetLetterIndexOfStringAsWritten("__proto__") == Ok(-2)
  {
  }

  /** Every inherited name is longer than one character, so on a single
      character the lookup as written is the intended check. */
  lemma ValidLettersMapAgreesOnCharacters(c: char)
    ensures ValidLettersMapHas([c]) <==> IsValidAlphabetLetter([c])
    ensures ValidLettersMapHas([c]) <==> IsLetter(c)
  {
    InheritedKeysAreLong();
    assert [c] !in OBJECT_PROTOTYPE_KEYS;
  }

  /** ... and so is `getLetterIndexInAlphabet`. */
  lemma GetLetterIndexAgreesOnCharacters(c: char)
    ensures GetLetterIndexOfStringAsWritten([c]) == GetLetterIndexInAlphabet(c)
  {
    ValidLettersMapAgreesOnCharacters(c);
    assert [c][0] == c;
  }

  lemma InheritedKeysAreLong()
    ensures forall k :: k in OBJECT_PROTOTYPE_KEYS ==> |k| > 1
  {
  }

  /** `charCodeAt(0) - 97`, without any validation. */
  function LetterIndex(c: char): int {
    c as int - CHAR_CODE_LETTER_A
  }

  /** Every character is a letter of the alphabet. */
  predicate AllLetters(s: seq<char>) {
    forall k :: 0 <= k < |s| ==> IsLetter(s[k])
  }

  /** The index of every character, position by position. */
  function LetterIndexes(s: seq<char>): (t: seq<int>)
    ensures |t| == |s|
    ensures forall k :: 0 <= k < |s| ==> t[k] == LetterIndex(s[k])
  {
    seq(|s|, k requires 0 <= k < |s| => LetterIndex(s[k]))
  }

  /** The set of characters of a string (`new Set(str)`). */
  function CharSet(s: seq<char>): set<char> {
    set i | 0 <= i < |s| :: s[i]
  }

  lemma AlphabetIsTheLowerCaseLetters()
    ensures |ALPHABET| == 26
    ensures forall i :: 0 <= i < |ALPHABET| ==> LetterIndex(ALPHABET[i]) == i
    ensures forall i, j :: 0 <= i < j < |ALPHABET| ==> ALPHABET[i] < ALPHABET[j]
    ensures forall c :: IsLetter(c) <==> c in ALPHABET
  {
    forall c | IsLetter(c) ensures c in ALPHABET {
      assert ALPHABET[LetterIndex(c)] == c;
    }
  }

  /** Every letter sits at its own index of the alphabet. */
  lemma LettersAreAtTheirIndex()
    ensures forall c :: IsLetter(c) ==> 0 <= LetterIndex(c) < |ALPHABET| && ALPHABET[LetterIndex(c)] == c
  {
    forall c | IsLetter(c) ensures 0 <= LetterIndex(c) < |ALPHABET| && ALPHABET[LetterIndex(c)] == c {
      LetterIndexInRange(c);
    }
  }

  lemma LetterIndexInRange(c: char)
    requires IsLetter(c)
    ensures 0 <= LetterIndex(c) < |ALPHABET|
    ensures ALPHABET[LetterIndex(c)] == c
  {
  }

  /** The intended check holds for exactly the 26 one-letter strings; the
      lookup as written adds the inherited names and nothing else. */
  lemma ValidAlphabetLetterIsOneOfTwentySix(s: string)
    ensures IsValidAlphabetLetter(s) <==> exists i :: 0 <= i < |ALPHABET| && s == [ALPHABET[i]]
    ensures ValidLettersMapHas(s) <==> (exists i :: 0 <= i < |ALPHABET| && s == [ALPHABET[i]]) || s in OBJECT_PROTOTYPE_KEYS
  {
    if IsValidAlphabetLetter(s) {
      assert s == [ALPHABET[LetterIndex(s[0])]];
    }
  }

  /** `getLetterIndexInAlphabet`: charCode - 97 for a valid letter,
      `InvalidLetter` for anything else. */
  function GetLetterIndexInAlphabet(letter: char): (r: Result<int>)
    ensures r.Ok? <==> IsLetter(letter)
    ensures r.Ok? ==> 0 <= r.value < |ALPHABET| && ALPHABET[r.value] == letter
    ensures r.Err? ==> r.error == InvalidLetter
  {
    if !IsLetter(letter) then Err(InvalidLetter) else Ok(LetterIndex(letter))
  }

  /** `getLetterFromIndexInAlphabet` as written: `String.fromCharCode`
      truncates its argument to a 16-bit code unit before the letter check. */
  function GetLetterFromIndexInAlphabetAsWritten(index: int): Result<char> {
    var code := (index + CHAR_CODE_LETTER_A) % UTF16_CODE_UNITS;
    if CHAR_CODE_LETTER_A <= code < CHAR_CODE_LETTER_A + |ALPHABET| then Ok(code as char)
    else Err(InvalidLetter)
  }

  /** The wrap-around: 65536 is not an index of the alphabet, yet the source
      returns "a" for it instead of throwing. */
  lemma GetLetterFromIndexAcceptsWrappedIndex()
    ensures GetLetterFromIndexInAlphabetAsWritten(UTF16_CODE_UNITS) == Ok('a')
    ensures GetLetterFromIndexInAlphabetAsWritten(-UTF16_CODE_UNITS) == Ok('a')
  {
  }

  /** `getLetterFromIndexInAlphabet` as intended: succeeds exactly for 0..25. */
  function GetLetterFromIndexInAlphabet(index: int): (r: Result<char>)
    ensures r.Ok? <==> 0 <= index < |ALPHABET|
    ensures r.Ok? ==> r.value == ALPHABET[index] && r.value == LetterAt(index)
    ensures r.Err? ==> r.error == InvalidLetter
  {
    LettersAreAtTheirIndex();
    if 0 <= index < |ALPHABET| then Ok(ALPHABET[index]) else Err(InvalidLetter)
  }

  /** On the alphabet's own indexes the written and the corrected versions agree. */
  lemma GetLetterFromIndexVersionsAgree(index: int)
    requires 0 <= index < |ALPHABET|
    ensures GetLetterFromIndexInAlphabetAsWritten(index) == GetLetterFromIndexInAlphabet(index)
  {
  }

  lemma IndexLetterRoundTrip(index: int, letter: char)
    ensures 0 <= index < |ALPHABET| ==>
      GetLetterIndexInAlphabet(GetLetterFromIndexInAlphabet(index).value) == Ok(index)
    ensures IsLetter(letter) ==>
      GetLetterFromIndexInAlphabet(GetLetterIndexInAlphabet(letter).value) == Ok(letter)
  {
  }

  /** `isStringCompleteUnorderedAlphabet`: the set of characters has 26
      elements and contains every letter. */
  predicate IsStringCompleteUnorderedAlphabet(str: seq<char>) {
    var alphabetSet := CharSet(str);
    |alphabetSet| == |ALPHABET| && forall i :: 0 <= i < |ALPHABET| ==> ALPHABET[i] in alphabetSet
  }

  /** A wiring: 26 characters that pass the complete-alphabet check. */
  predicate IsPermutation(w: seq<char>) {
    |w| == |ALPHABET| && IsStringCompleteUnorderedAlphabet(w)
  }

  lemma {:induction false} CharSetOfDistinct(s: seq<char>)
    requires forall i, j :: 0 <= i < j < |s| ==> s[i] != s[j]
    ensures |CharSet(s)| == |s|
  {
    if s != [] {
      var init := s[..|s| - 1];
      CharSetOfDistinct(init);
      assert CharSet(s) == CharSet(init) + {s[|s| - 1]};
      assert s[|s| - 1] !in CharSet(init);
    }
  }

  lemma {:induction false} CharSetAtMostLength(s: seq<char>)
    ensures |CharSet(s)| <= |s|
  {
    if s != [] {
      var init := s[..|s| - 1];
      CharSetAtMostLength(init);
      assert CharSet(s) == CharSet(init) + {s[|s| - 1]};
    }
  }

  /** A repeated character makes the set strictly smaller than the string. */
  lemma CharSetOfRepeated(s: seq<char>, i: int, j: int)
    requires 0 <= i < j < |s| && s[i] == s[j]
    ensures |CharSet(s)| < |s|
  {
    var rest := s[..j] + s[j + 1..];
    assert CharSet(s) == CharSet(rest) by {
      forall c | c in CharSet(s) ensures c in CharSet(rest) {
        var k :| 0 <= k < |s| && s[k] == c;
        if k < j { assert rest[k] == c; }
        else if k == j { assert rest[i] == c; }
        else { assert rest[k - 1] == c; }
      }
      forall c | c in CharSet(rest) ensures c in CharSet(s) {
        var k :| 0 <= k < |rest| && rest[k] == c;
        if k < j { assert s[k] == c; } else { assert s[k + 1] == c; }
      }
    }
    CharSetAtMostLength(rest);
  }

  lemma {:induction false} SubsetOfEqualSize(a: set<char>, b: set<char>)
    requires a <= b && |a| == |b|
    ensures a == b
  {
    if a != b {
      var x :| x in b && x !in a;
      assert a <= b - {x};
      SubsetCardinality(a, b - {x});
    }
  }

  lemma {:induction false} SubsetCardinality(a: set<char>, b: set<char>)
    requires a <= b
    ensures |a| <= |b|
  {
    if a != {} {
      var x :| x in a;
      SubsetCardinality(a - {x}, b - {x});
    }
  }

  lemma AlphabetCharSetSize()
    ensures |CharSet(ALPHABET)| == |ALPHABET|
  {
    AlphabetIsTheLowerCaseLetters();
    CharSetOfDistinct(ALPHABET);
  }

  /** The check is set equality with the alphabet: order, repetitions and
      length do not matter. */
  lemma CompleteAlphabetIsSetEquality(str: seq<char>)
    ensures IsStringCompleteUnorderedAlphabet(str) <==> CharSet(str) == CharSet(ALPHABET)
  {
    AlphabetCharSetSize();
    if IsStringCompleteUnorderedAlphabet(str) {
      assert CharSet(ALPHABET) <= CharSet(str);
      SubsetOfEqualSize(CharSet(ALPHABET), CharSet(str));
    }
    if CharSet(str) == CharSet(ALPHABET) {
      forall i | 0 <= i < |ALPHABET| ensures ALPHABET[i] in CharSet(str) {
        assert ALPHABET[i] in CharSet(ALPHABET);
      }
    }
  }

  /** Every character of a complete alphabet is a letter, and every letter occurs. */
  lemma CompleteAlphabetLetters(str: seq<char>)
    requires IsStringCompleteUnorderedAlphabet(str)
    ensures forall k :: 0 <= k < |str| ==> IsLetter(str[k])
    ensures forall c :: IsLetter(c) ==> c in CharSet(str)
  {
    CompleteAlphabetIsSetEquality(str);
    AlphabetIsTheLowerCaseLetters();
    forall k | 0 <= k < |str| ensures IsLetter(str[k]) {
      assert str[k] in CharSet(ALPHABET);
    }
    forall c | IsLetter(c) ensures c in CharSet(str) {
      assert ALPHABET[LetterIndex(c)] == c;
    }
  }

  /** A 26-character complete alphabet is a permutation of the letters. */
  lemma PermutationIsInjective(w: seq<char>)
    requires IsPermutation(w)
    ensures forall i, j :: 0 <= i < |w| && 0 <= j < |w| && w[i] == w[j] ==> i == j
    ensures forall k :: 0 <= k < |w| ==> IsLetter(w[k])
  {
    CompleteAlphabetLetters(w);
    forall i, j | 0 <= i < |w| && 0 <= j < |w| && w[i] == w[j] ensures i == j {
      if i < j { CharSetOfRepeated(w, i, j); }
      if j < i { CharSetOfRepeated(w, j, i); }
    }
  }

  /** Every letter permutation passes the check. */
  lemma DistinctLettersAreComplete(w: seq<char>)
    requires |w| == |ALPHABET|
    requires forall k :: 0 <= k < |w| ==> IsLetter(w[k])
    requires forall i, j :: 0 <= i < j < |w| ==> w[i] != w[j]
    ensures IsPermutation(w)
  {
    CharSetOfDistinct(w);
    AlphabetIsTheLowerCaseLetters();
    assert CharSet(w) <= CharSet(ALPHABET) by {
      forall c | c in CharSet(w) ensures c in CharSet(ALPHABET) {
        assert ALPHABET[LetterIndex(c)] == c;
      }
    }
    AlphabetCharSetSize();
    SubsetOfEqualSize(CharSet(w), CharSet(ALPHABET));
    CompleteAlphabetIsSetEquality(w);
  }

  /** The first position of `c` in `w` (|w| when absent). */
  function IndexOf(w: seq<char>, c: char): (k: nat)
    ensures k <= |w|
    ensures k < |w| ==> w[k] == c
    ensures forall j :: 0 <= j < k ==> w[j] != c
  {
    if w == [] then 0
    else if w[0] == c then 0
    else 1 + IndexOf(w[1..], c)
  }

  /** In a permutation every letter has one position. */
  lemma PermutationPosition(w: seq<char>, c: char)
    requires IsPermutation(w) && IsLetter(c)
    ensures IndexOf(w, c) < |w| && w[IndexOf(w, c)] == c
  {
    CompleteAlphabetLetters(w);
    assert c in CharSet(w);
  }

  /** ... so every index 0..25 is the index of the letter at some position. */
  lemma PermutationPreimage(w: seq<char>, j: int) returns (k: int)
    requires IsPermutation(w) && 0 <= j < ALPHABET_SIZE
    ensures 0 <= k < |w| && LetterIndex(w[k]) == j
  {
    var c := (j + CHAR_CODE_LETTER_A) as char;
    PermutationPosition(w, c);
    k := IndexOf(w, c);
  }

  /** Position k of the certificate `inv` names the index at which w holds
      the k-th letter of the alphabet. */
  predicate InverseWiringAt(w: seq<char>, inv: seq<char>, k: int)
    requires 0 <= k < |inv|
  {
    k < ALPHABET_SIZE && IsLetter(inv[k]) && LetterIndex(inv[k]) < |w| && w[LetterIndex(inv[k])] == LetterAt(k)
  }

  /** `inv` lists, for each letter of the alphabet, the letter at whose
      position w holds it: a certificate that w is a permutation. */
  predicate IsInverseWiring(w: seq<char>, inv: seq<char>) {
    |w| == ALPHABET_SIZE && |inv| == ALPHABET_SIZE &&
    forall j :: 0 <= j < |inv| ==> InverseWiringAt(w, inv, j)
  }

  /** `IsInverseWiring` on the positions lo..hi-1 only. */
  predicate InverseWiringBetween(w: seq<char>, inv: seq<char>, lo: int, hi: int) {
    forall k :: lo <= k < hi && 0 <= k < |inv| ==> InverseWiringAt(w, inv, k)
  }

  /** A certificate checked in blocks of positions is a certificate. */
  lemma InverseWiringByBlocks(w: seq<char>, inv: seq<char>)
    requires |w| == ALPHABET_SIZE && |inv| == ALPHABET_SIZE
    requires InverseWiringBetween(w, inv, 0, 4) && InverseWiringBetween(w, inv, 4, 8)
    requires InverseWiringBetween(w, inv, 8, 12) && InverseWiringBetween(w, inv, 12, 16)
    requires InverseWiringBetween(w, inv, 16, 20) && InverseWiringBetween(w, inv, 20, 24)
    requires InverseWiringBetween(w, inv, 24, 26)
    ensures IsInverseWiring(w, inv) && IsPermutation(w)
  {
    InverseWiringMakesPermutation(w, inv);
  }

  lemma InverseWiringMakesPermutation(w: seq<char>, inv: seq<char>)
    requires IsInverseWiring(w, inv)
    ensures IsPermutation(w)
  {
    AlphabetIsTheLowerCaseLetters();
    assert CharSet(ALPHABET) <= CharSet(w) by {
      forall c | c in CharSet(ALPHABET) ensures c in CharSet(w) {
        var j :| 0 <= j < |ALPHABET| && ALPHABET[j] == c;
        assert InverseWiringAt(w, inv, j);
        assert LetterAt(j) == c;
        assert w[LetterIndex(inv[j])] == c;
      }
    }
    AlphabetCharSetSize();
    SubsetCardinality(CharSet(ALPHABET), CharSet(w));
    CharSetAtMostLength(w);
    SubsetOfEqualSize(CharSet(ALPHABET), CharSet(w));
    CompleteAlphabetIsSetEquality(w);
  }

  /** `stringToAlphabet`: the characters unchanged, or `InvalidAlphabet`. */
  function StringToAlphabet(str: string): (r: Result<seq<char>>)
    ensures r.Ok? <==> CharSet(str) == CharSet(ALPHABET)
    ensures r.Ok? ==> r.value == str
    ensures r.Err? ==> r.error == InvalidAlphabet
  {
    CompleteAlphabetIsSetEquality(str);
    if !IsStringCompleteUnorderedAlphabet(str) then Err(InvalidAlphabet) else Ok(str)
  }

  /** Repetitions and extra length are not rejected by the check. */
  lemma DuplicatesAreNotRejected()
    ensures |ALPHABET + "a"| == 27
    ensures IsStringCompleteUnorderedAlphabet(ALPHABET + "a")
  {
    var s := ALPHABET + "a";
    assert CharSet(s) == CharSet(ALPHABET) by {
      assert s[26] == ALPHABET[0];
      forall c | c in CharSet(s) ensures c in CharSet(ALPHABET) {
        var k :| 0 <= k < |s| && s[k] == c;
        if k < 26 { assert ALPHABET[k] == c; }
      }
      forall c | c in CharSet(ALPHABET) ensures c in CharSet(s) {
        var k :| 0 <= k < |ALPHABET| && ALPHABET[k] == c;
        assert s[k] == c;
      }
    }
    CompleteAlphabetIsSetEquality(s);
  }

  lemma IncorrectAlphabetIsRejected()
    ensures !IsStringCompleteUnorderedAlphabet("incorrect alphabet")
    ensures !IsStringCompleteUnorderedAlphabet("hello")
  {
    AlphabetIsTheLowerCaseLetters();
    var s := "incorrect alphabet";
    assert ALPHABET[3] == 'd';
    assert 'd' !in CharSet(s);
    CharSetAtMostLength("hello");
  }
}
