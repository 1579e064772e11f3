/** The wiring tables, the letter odometer and the ring-relative distance of
    the first Enigma engine (libs/enigma-machine/src/lib/rotor.ts). Positions
    are letters here, not indexes. */
module LegacyRotor {
  import opened Results
  import opened Alphabet
  import opened LegacyAlphabet
  import Rotor

  /** `leftToRight` maps the letter at a contact to the index of the letter
      wired to it; `rightToLeft` maps that index back to the contact's letter. */
  datatype AlphabetLeftAndRightMap = AlphabetLeftAndRightMap(leftToRight: map<char, int>, rightToLeft: map<int, char>)

  /** The `reduce` after the first n letters. Past index 25 `ALPHABET[index]`
      is `undefined`: the `leftToRight` write then lands on a key no letter
      reaches, and the `rightToLeft` entry becomes `undefined`, i.e. absent. */
  function MapOfPrefix(scrambledAlphabet: seq<char>, n: nat): AlphabetLeftAndRightMap
    requires n <= |scrambledAlphabet|
  {
    if n == 0 then AlphabetLeftAndRightMap(map[], map[])
    else
      var acc := MapOfPrefix(scrambledAlphabet, n - 1);
      var index := n - 1;
      var letterIndex := LetterIndex(scrambledAlphabet[index]);
      if index < ALPHABET_SIZE then
        AlphabetLeftAndRightMap(acc.leftToRight[LetterAt(index) := letterIndex], acc.rightToLeft[letterIndex := LetterAt(index)])
      else
        AlphabetLeftAndRightMap(acc.leftToRight, acc.rightToLeft - {letterIndex})
  }

  /** The contact letter of position i keeps the value written for it. */
  lemma {:induction false} LeftToRightEntry(w: seq<char>, n: nat, i: int)
    requires n <= |w| && 0 <= i < n && i < ALPHABET_SIZE
    ensures LetterAt(i) in MapOfPrefix(w, n).leftToRight
    ensures MapOfPrefix(w, n).leftToRight[LetterAt(i)] == LetterIndex(w[i])
  {
    if i < n - 1 {
      LeftToRightEntry(w, n - 1, i);
      if n - 1 < ALPHABET_SIZE {
        assert LetterAt(n - 1) != LetterAt(i) by {
          assert LetterIndex(LetterAt(n - 1)) != LetterIndex(LetterAt(i));
        }
      }
    }
  }

  /** With no letter repeated, index w[i] keeps the letter of position i. */
  lemma {:induction false} RightToLeftEntry(w: seq<char>, n: nat, i: int)
    requires n <= |w| <= ALPHABET_SIZE && 0 <= i < n
    requires forall j, k :: 0 <= j < |w| && 0 <= k < |w| && w[j] == w[k] ==> j == k
    ensures LetterIndex(w[i]) in MapOfPrefix(w, n).rightToLeft
    ensures MapOfPrefix(w, n).rightToLeft[LetterIndex(w[i])] == LetterAt(i)
  {
    if i < n - 1 {
      RightToLeftEntry(w, n - 1, i);
      assert w[n - 1] != w[i];
    }
  }

  /** `mapScrambledAlphabetToRotorIndexOutput`: `InvalidAlphabet` unless the
      wiring is a complete alphabet, else both tables. */
  function MapScrambledAlphabetToRotorIndexOutput(scrambledAlphabet: seq<char>): (r: Result<AlphabetLeftAndRightMap>)
    ensures r.Ok? <==> IsStringCompleteUnorderedAlphabet(scrambledAlphabet)
    ensures r.Err? ==> r.error == InvalidAlphabet
    ensures r.Ok? ==> |scrambledAlphabet| >= ALPHABET_SIZE
    ensures r.Ok? ==> forall i :: 0 <= i < ALPHABET_SIZE ==>
      LetterAt(i) in r.value.leftToRight && r.value.leftToRight[LetterAt(i)] == LetterIndex(scrambledAlphabet[i])
  {
    if !IsStringCompleteUnorderedAlphabet(scrambledAlphabet) then Err(InvalidAlphabet)
    else
      AlphabetCharSetSize();
      CharSetAtMostLength(scrambledAlphabet);
      LeftToRightEntries(scrambledAlphabet);
      Ok(MapOfPrefix(scrambledAlphabet, |scrambledAlphabet|))
  }

  lemma LeftToRightEntries(w: seq<char>)
    requires |w| >= ALPHABET_SIZE
    ensures forall i :: 0 <= i < ALPHABET_SIZE ==>
      LetterAt(i) in MapOfPrefix(w, |w|).leftToRight && MapOfPrefix(w, |w|).leftToRight[LetterAt(i)] == LetterIndex(w[i])
  {
    forall i | 0 <= i < ALPHABET_SIZE
      ensures LetterAt(i) in MapOfPrefix(w, |w|).leftToRight
      ensures MapOfPrefix(w, |w|).leftToRight[LetterAt(i)] == LetterIndex(w[i])
    {
      LeftToRightEntry(w, |w|, i);
    }
  }

  /** The two tables undo each other on the whole alphabet. */
  predicate AreInverseTables(m: AlphabetLeftAndRightMap) {
    (forall c :: IsLetter(c) ==>
      c in m.leftToRight && 0 <= m.leftToRight[c] < ALPHABET_SIZE &&
      m.leftToRight[c] in m.rightToLeft && m.rightToLeft[m.leftToRight[c]] == c) &&
    (forall j :: 0 <= j < ALPHABET_SIZE ==>
      j in m.rightToLeft && IsLetter(m.rightToLeft[j]) &&
      m.rightToLeft[j] in m.leftToRight && m.leftToRight[m.rightToLeft[j]] == j)
  }

  /** A 26-letter wiring gives mutually inverse tables: the letter at contact
      i goes to index w[i], and index w[i] comes back to contact i. */
  lemma MapOfPermutation(w: seq<char>)
    requires IsPermutation(w)
    ensures MapScrambledAlphabetToRotorIndexOutput(w).Ok?
    ensures forall i :: 0 <= i < ALPHABET_SIZE ==>
      LetterIndex(w[i]) in MapScrambledAlphabetToRotorIndexOutput(w).value.rightToLeft &&
      MapScrambledAlphabetToRotorIndexOutput(w).value.rightToLeft[LetterIndex(w[i])] == LetterAt(i)
    ensures AreInverseTables(MapScrambledAlphabetToRotorIndexOutput(w).value)
  {
    PermutationIsInjective(w);
    var m := MapScrambledAlphabetToRotorIndexOutput(w).value;
    forall i | 0 <= i < ALPHABET_SIZE
      ensures LetterIndex(w[i]) in m.rightToLeft && m.rightToLeft[LetterIndex(w[i])] == LetterAt(i)
    {
      RightToLeftEntry(w, |w|, i);
    }
    forall c | IsLetter(c)
      ensures c in m.leftToRight && 0 <= m.leftToRight[c] < ALPHABET_SIZE
      ensures m.leftToRight[c] in m.rightToLeft && m.rightToLeft[m.leftToRight[c]] == c
    {
      var i := LetterIndex(c);
      assert LetterAt(i) == c;
    }
    forall j | 0 <= j < ALPHABET_SIZE
      ensures j in m.rightToLeft && IsLetter(m.rightToLeft[j])
      ensures m.rightToLeft[j] in m.leftToRight && m.leftToRight[m.rightToLeft[j]] == j
    {
      PermutationPosition(w, LetterAt(j));
      var k := IndexOf(w, LetterAt(j));
      assert LetterIndex(w[k]) == j;
    }
  }

  // ---------------------------------------------------------------------
  // Stepping on letters.

  /** `goToNextRotorCombination`: all Zs wrap to all As, a leading Z becomes
      A and carries, any other leading letter moves to the next one. */
  function GoToNextRotorCombination(rotors: seq<char>): (r: seq<char>)
    requires AllLetters(rotors)
    ensures |r| == |rotors| && AllLetters(r)
  {
    if forall k :: 0 <= k < |rotors| ==> rotors[k] == 'z' then seq(|rotors|, _ => 'a')
    else if rotors[0] == 'z' then ['a'] + GoToNextRotorCombination(rotors[1..])
    else [GetNextLetter(rotors[0])] + rotors[1..]
  }

  /** On indexes the letter odometer is the digit odometer of the current
      engine. */
  lemma {:induction false} StepIsTheDigitStep(rotors: seq<char>)
    requires AllLetters(rotors)
    ensures LetterIndexes(GoToNextRotorCombination(rotors)) == Rotor.GetNextNumberBase26(LetterIndexes(rotors))
  {
    if forall k :: 0 <= k < |rotors| ==> rotors[k] == 'z' {
      AllZStep(rotors);
    } else if rotors[0] == 'z' {
      StepIsTheDigitStep(rotors[1..]);
      LeadingZStep(rotors);
    } else {
      LeadingOtherStep(rotors);
    }
  }

  lemma AllZStep(rotors: seq<char>)
    requires AllLetters(rotors) && forall k :: 0 <= k < |rotors| ==> rotors[k] == 'z'
    ensures LetterIndexes(GoToNextRotorCombination(rotors)) == Rotor.GetNextNumberBase26(LetterIndexes(rotors))
  {
    assert Rotor.AllZ(LetterIndexes(rotors));
  }

  /** Not all Zs on letters is not all 25s on indexes. */
  lemma NotAllZIndexes(rotors: seq<char>, k: int)
    requires 0 <= k < |rotors| && rotors[k] != 'z'
    ensures !Rotor.AllZ(LetterIndexes(rotors))
  {
    assert LetterIndexes(rotors)[k] != Rotor.LETTER_INDEX_Z;
  }

  lemma LetterIndexesCons(c: char, rest: seq<char>)
    ensures LetterIndexes([c] + rest) == [LetterIndex(c)] + LetterIndexes(rest)
  {
  }

  lemma LetterIndexesTail(s: seq<char>)
    requires |s| > 0
    ensures LetterIndexes(s)[1..] == LetterIndexes(s[1..])
  {
  }

  lemma CarryOnLetters(rotors: seq<char>, k: int)
    requires AllLetters(rotors) && 0 <= k < |rotors| && rotors[k] != 'z' && rotors[0] == 'z'
    ensures GoToNextRotorCombination(rotors) == ['a'] + GoToNextRotorCombination(rotors[1..])
  {
  }

  lemma CarryOnIndexes(t: seq<int>)
    requires !Rotor.AllZ(t) && |t| > 0 && t[0] == Rotor.LETTER_INDEX_Z
    ensures Rotor.GetNextNumberBase26(t) == [Rotor.LETTER_INDEX_A] + Rotor.GetNextNumberBase26(t[1..])
  {
  }

  lemma LeadingZStep(rotors: seq<char>)
    requires AllLetters(rotors) && |rotors| > 0 && rotors[0] == 'z'
    requires exists k :: 0 <= k < |rotors| && rotors[k] != 'z'
    requires LetterIndexes(GoToNextRotorCombination(rotors[1..])) == Rotor.GetNextNumberBase26(LetterIndexes(rotors[1..]))
    ensures LetterIndexes(GoToNextRotorCombination(rotors)) == Rotor.GetNextNumberBase26(LetterIndexes(rotors))
  {
    var k :| 0 <= k < |rotors| && rotors[k] != 'z';
    NotAllZIndexes(rotors, k);
    LetterIndexesTail(rotors);
    CarryOnIndexes(LetterIndexes(rotors));
    CarryOnLetters(rotors, k);
    LetterIndexesCons('a', GoToNextRotorCombination(rotors[1..]));
  }

  lemma NoCarryOnLetters(rotors: seq<char>)
    requires AllLetters(rotors) && |rotors| > 0 && rotors[0] != 'z'
    ensures GoToNextRotorCombination(rotors) == [GetNextLetter(rotors[0])] + rotors[1..]
  {
  }

  lemma NoCarryOnIndexes(t: seq<int>)
    requires !Rotor.AllZ(t) && |t| > 0 && t[0] != Rotor.LETTER_INDEX_Z
    ensures Rotor.GetNextNumberBase26(t) == [t[0] + 1] + t[1..]
  {
  }

  lemma LeadingOtherStep(rotors: seq<char>)
    requires AllLetters(rotors) && |rotors| > 0 && rotors[0] != 'z'
    ensures LetterIndexes(GoToNextRotorCombination(rotors)) == Rotor.GetNextNumberBase26(LetterIndexes(rotors))
  {
    NotAllZIndexes(rotors, 0);
    LetterIndexesTail(rotors);
    NoCarryOnIndexes(LetterIndexes(rotors));
    NoCarryOnLetters(rotors);
    LetterIndexesCons(GetNextLetter(rotors[0]), rotors[1..]);
  }

  /** Stepping adds one to the little-endian base-26 value of the positions,
      cycling after 26^n combinations. */
  lemma StepIsSuccessor(rotors: seq<char>)
    requires AllLetters(rotors)
    ensures Rotor.Value(LetterIndexes(GoToNextRotorCombination(rotors)))
         == (Rotor.Value(LetterIndexes(rotors)) + 1) % Rotor.Pow26(|rotors|)
  {
    StepIsTheDigitStep(rotors);
    Rotor.NextNumberIsSuccessor(LetterIndexes(rotors));
  }

  lemma StepExamples()
    ensures GoToNextRotorCombination("aaa") == "baa"
    ensures GoToNextRotorCombination("zaa") == "aba"
    ensures GoToNextRotorCombination("zza") == "aab"
    ensures GoToNextRotorCombination("zzz") == "aaa"
  {
    NotAllZ("aaa", 0);
    NotAllZ("zaa", 1);
    NotAllZ("aa", 0);
    NotAllZ("zza", 2);
    NotAllZ("za", 1);
    NotAllZ("a", 0);
    assert "zaa"[1..] == "aa" && "zza"[1..] == "za" && "za"[1..] == "a";
  }

  lemma NotAllZ(rotors: seq<char>, k: int)
    requires 0 <= k < |rotors| && rotors[k] != 'z'
    ensures !(forall j :: 0 <= j < |rotors| ==> rotors[j] == 'z')
  {
  }

  // ---------------------------------------------------------------------
  // Relative distances.

  /** `relativeDistanceBetweenCurrentRottorRingPositionAndOutputIndex`: how
      far past the ring position the absolute index lies, going up. */
  function RelativeDistance(currentRingPosition: char, absoluteIndex: int): (d: int)
    ensures IsLetter(currentRingPosition) && 0 <= absoluteIndex < ALPHABET_SIZE ==>
      0 <= d < ALPHABET_SIZE && d == (absoluteIndex - LetterIndex(currentRingPosition)) % ALPHABET_SIZE
  {
    var indexInputLetter := LetterIndex(currentRingPosition);
    if indexInputLetter == absoluteIndex then 0
    else if absoluteIndex > indexInputLetter then absoluteIndex - indexInputLetter
    else 26 - (indexInputLetter - absoluteIndex)
  }

  /** Going the distance from the ring position lands on the absolute index. */
  lemma RelativeDistanceIsInverseOfPlusX(currentRingPosition: char, absoluteIndex: int)
    requires IsLetter(currentRingPosition) && 0 <= absoluteIndex < ALPHABET_SIZE
    ensures LetterIndex(GetLetterPlusXAlphabetLoop(currentRingPosition, RelativeDistance(currentRingPosition, absoluteIndex)))
         == absoluteIndex
  {
    var d := RelativeDistance(currentRingPosition, absoluteIndex);
    DistanceThenShift(LetterIndex(currentRingPosition), absoluteIndex, d);
    ShiftedLetter(currentRingPosition, d, absoluteIndex);
  }

  lemma ShiftedLetter(c: char, d: nat, a: int)
    requires IsLetter(c) && (LetterIndex(c) + d) % ALPHABET_SIZE == a
    ensures LetterIndex(GetLetterPlusXAlphabetLoop(c, d)) == a
  {
  }

  lemma DistanceThenShift(p: int, a: int, d: int)
    requires 0 <= p < ALPHABET_SIZE && 0 <= a < ALPHABET_SIZE
    requires d == (a - p) % ALPHABET_SIZE
    ensures (p + d) % ALPHABET_SIZE == a
  {
    if a >= p {
      assert d == a - p;
    } else {
      assert d == ALPHABET_SIZE + a - p;
    }
  }

  lemma RelativeDistanceExamples()
    ensures RelativeDistance('a', 0) == 0
    ensures RelativeDistance('e', 6) == 2
    ensures RelativeDistance('g', 4) == 24
  {
  }
}
