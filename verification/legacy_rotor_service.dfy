/** One rotor of the first Enigma engine: the two tables built from its
    wiring and a ring position held as a letter
    (libs/enigma-machine/src/lib/enigma-rotor.service.ts). */
module LegacyRotorService {
  import opened Results
  import opened Alphabet
  import opened LegacyAlphabet
  import opened LegacyRotor
  import RotorService

  datatype LegacyEnigmaRotor = LegacyEnigmaRotor(alphabetMapping: AlphabetLeftAndRightMap, currentRingPosition: char)

  /** Both tables are defined on the whole alphabet and hold letters or
      letter indexes, so a pass never reads an undefined entry. */
  predicate TablesAreTotal(m: AlphabetLeftAndRightMap) {
    (forall c :: IsLetter(c) ==> c in m.leftToRight && 0 <= m.leftToRight[c] < ALPHABET_SIZE) &&
    (forall j :: 0 <= j < ALPHABET_SIZE ==> j in m.rightToLeft && IsLetter(m.rightToLeft[j]))
  }

  predicate Valid(r: LegacyEnigmaRotor) {
    IsLetter(r.currentRingPosition) && TablesAreTotal(r.alphabetMapping)
  }

  /** The constructor: the wiring is mapped first (`InvalidAlphabet`), then
      the ring position is checked (`InvalidRingPosition`). */
  function NewLegacyEnigmaRotor(currentRingPosition: char, alphabetOutput: seq<char>): (r: Result<LegacyEnigmaRotor>)
    ensures r.Ok? <==> IsStringCompleteUnorderedAlphabet(alphabetOutput) && IsLetter(currentRingPosition)
    ensures !IsStringCompleteUnorderedAlphabet(alphabetOutput) ==> r == Err(InvalidAlphabet)
    ensures IsStringCompleteUnorderedAlphabet(alphabetOutput) && !IsLetter(currentRingPosition) ==>
      r == Err(InvalidRingPosition)
    ensures r.Ok? ==> r.value.currentRingPosition == currentRingPosition
    ensures r.Ok? ==> r.value.alphabetMapping == MapScrambledAlphabetToRotorIndexOutput(alphabetOutput).value
  {
    var alphabetMapping :- MapScrambledAlphabetToRotorIndexOutput(alphabetOutput);
    if !IsValidAlphabetLetter([currentRingPosition]) then Err(InvalidRingPosition)
    else Ok(LegacyEnigmaRotor(alphabetMapping, currentRingPosition))
  }

  /** `setCurrentRingPosition`: unlike the constructor, it stores any
      character; only a letter keeps the rotor usable. */
  function SetCurrentRingPosition(r: LegacyEnigmaRotor, ringPosition: char): (r': LegacyEnigmaRotor)
    ensures r'.alphabetMapping == r.alphabetMapping && r'.currentRingPosition == ringPosition
    ensures TablesAreTotal(r.alphabetMapping) ==> (Valid(r') <==> IsLetter(ringPosition))
  {
    r.(currentRingPosition := ringPosition)
  }

  /** `getRelativeIndexOutputFromLeftRelativeIndexInput`: the letter x
      contacts past the ring position, its table entry, and that entry's
      distance from the ring position. */
  function LeftToRight(r: LegacyEnigmaRotor, relativeIndexInput: nat): (out: int)
    requires Valid(r)
    ensures 0 <= out < ALPHABET_SIZE
  {
    var targetedLetter := GetLetterPlusXAlphabetLoop(r.currentRingPosition, relativeIndexInput);
    var absoluteIndexOutput := r.alphabetMapping.leftToRight[targetedLetter];
    RelativeDistance(r.currentRingPosition, absoluteIndexOutput)
  }

  /** `getRelativeIndexOutputFromRightRelativeIndexInput`: the same walk
      through the other table. */
  function RightToLeft(r: LegacyEnigmaRotor, relativeIndexInput: nat): (out: int)
    requires Valid(r)
    ensures 0 <= out < ALPHABET_SIZE
  {
    var absoluteTargetedIndex := LetterIndex(GetLetterPlusXAlphabetLoop(r.currentRingPosition, relativeIndexInput));
    var letterOutput := r.alphabetMapping.rightToLeft[absoluteTargetedIndex];
    RelativeDistance(r.currentRingPosition, LetterIndex(letterOutput))
  }

  /** A rotor built from a 26-letter wiring at a letter position works and
      has mutually inverse tables. */
  lemma NewOfPermutation(currentRingPosition: char, w: seq<char>)
    requires IsPermutation(w) && IsLetter(currentRingPosition)
    ensures NewLegacyEnigmaRotor(currentRingPosition, w).Ok?
    ensures Valid(NewLegacyEnigmaRotor(currentRingPosition, w).value)
    ensures AreInverseTables(NewLegacyEnigmaRotor(currentRingPosition, w).value.alphabetMapping)
  {
    MapOfPermutation(w);
  }

  /** Relative and absolute contacts convert back and forth. */
  lemma RelativeAbsolute(p: int, x: int)
    requires 0 <= p < ALPHABET_SIZE && 0 <= x < ALPHABET_SIZE
    ensures ((p + x) % ALPHABET_SIZE - p) % ALPHABET_SIZE == x
  {
  }

  /** The right-to-left pass undoes the left-to-right pass and vice versa,
      whenever the tables are inverse to each other. */
  lemma RoundTrip(r: LegacyEnigmaRotor, x: int)
    requires Valid(r) && AreInverseTables(r.alphabetMapping) && 0 <= x < ALPHABET_SIZE
    ensures RightToLeft(r, LeftToRight(r, x)) == x
    ensures LeftToRight(r, RightToLeft(r, x)) == x
  {
    var pos := r.currentRingPosition;
    var p := LetterIndex(pos);
    var m := r.alphabetMapping;
    // There and back.
    var t := GetLetterPlusXAlphabetLoop(pos, x);
    var y := LeftToRight(r, x);
    DistanceThenShift(p, m.leftToRight[t], y);
    var t' := GetLetterPlusXAlphabetLoop(pos, y);
    assert LetterIndex(t') == m.leftToRight[t];
    RelativeAbsolute(p, x);
    // Back and there.
    var j := LetterIndex(GetLetterPlusXAlphabetLoop(pos, x));
    var l := m.rightToLeft[j];
    var z := RightToLeft(r, x);
    DistanceThenShift(p, LetterIndex(l), z);
    var u := GetLetterPlusXAlphabetLoop(pos, z);
    SameIndexSameLetter(u, l);
  }

  /** A legacy rotor and a current rotor built from the same 26-letter
      wiring, sitting at the same position. */
  predicate SameRotor(legacy: LegacyEnigmaRotor, current: RotorService.EnigmaRotor, w: seq<char>) {
    IsPermutation(w) && AllLetters(w) &&
    MapScrambledAlphabetToRotorIndexOutput(w).Ok? &&
    legacy.alphabetMapping == MapScrambledAlphabetToRotorIndexOutput(w).value &&
    current.rotor == Rotor.CreateBiMapFromAlphabet(w) &&
    current.currentRingPosition == LetterIndex(legacy.currentRingPosition)
  }

  /** Both constructors, given the same wiring and position, build the same
      rotor. */
  lemma ConstructorsAgree(currentRingPosition: char, w: seq<char>)
    requires IsPermutation(w) && IsLetter(currentRingPosition)
    ensures NewLegacyEnigmaRotor(currentRingPosition, w).Ok?
    ensures RotorService.NewEnigmaRotor(w, LetterIndex(currentRingPosition)).Ok?
    ensures SameRotor(NewLegacyEnigmaRotor(currentRingPosition, w).value,
                      RotorService.NewEnigmaRotor(w, LetterIndex(currentRingPosition)).value, w)
  {
  }

  /** On the same wiring and position the passes agree with the current
      engine's rotor, in both directions. */
  lemma PassesAgreeWithCurrentRotor(legacy: LegacyEnigmaRotor, current: RotorService.EnigmaRotor, w: seq<char>, x: nat)
    requires Valid(legacy) && RotorService.Valid(current) && SameRotor(legacy, current, w)
    ensures LeftToRight(legacy, x) == RotorService.GoThroughRotorLeftToRight(current, x)
    ensures RightToLeft(legacy, x) == RotorService.GoThroughRotorRightToLeft(current, x)
  {
    LeftToRightAgrees(legacy, current, w, x);
    RightToLeftAgrees(legacy, current, w, x);
  }

  /** Left to right, both read the letter wired at contact p + x. */
  lemma LeftToRightAgrees(legacy: LegacyEnigmaRotor, current: RotorService.EnigmaRotor, w: seq<char>, x: nat)
    requires Valid(legacy) && RotorService.Valid(current) && SameRotor(legacy, current, w)
    ensures LeftToRight(legacy, x) == RotorService.GoThroughRotorLeftToRight(current, x)
  {
    var i := (current.currentRingPosition + x) % ALPHABET_SIZE;
    LegacyLeftToRightOfWiring(legacy, w, x, i);
    CurrentLeftToRightOfWiring(current, w, x, i);
  }

  lemma CurrentLeftToRightOfWiring(current: RotorService.EnigmaRotor, w: seq<char>, x: nat, i: int)
    requires RotorService.Valid(current) && IsPermutation(w) && AllLetters(w)
    requires current.rotor == Rotor.CreateBiMapFromAlphabet(w)
    requires i == (current.currentRingPosition + x) % ALPHABET_SIZE
    ensures RotorService.GoThroughRotorLeftToRight(current, x) == (LetterIndex(w[i]) - current.currentRingPosition) % ALPHABET_SIZE
  {
    RotorService.WiredIsLetterIndex(w, i);
    RotorService.LeftToRightIsRelativeWiring(current, x);
  }

  lemma LegacyLeftToRightOfWiring(legacy: LegacyEnigmaRotor, w: seq<char>, x: nat, i: int)
    requires Valid(legacy) && MapScrambledAlphabetToRotorIndexOutput(w).Ok?
    requires legacy.alphabetMapping == MapScrambledAlphabetToRotorIndexOutput(w).value
    requires i == (LetterIndex(legacy.currentRingPosition) + x) % ALPHABET_SIZE
    ensures LeftToRight(legacy, x) == (LetterIndex(w[i]) - LetterIndex(legacy.currentRingPosition)) % ALPHABET_SIZE
  {
    var t := GetLetterPlusXAlphabetLoop(legacy.currentRingPosition, x);
    SameIndexSameLetter(t, LetterAt(i));
  }

  /** Right to left, both find the contact k whose letter has index p + x. */
  lemma RightToLeftAgrees(legacy: LegacyEnigmaRotor, current: RotorService.EnigmaRotor, w: seq<char>, x: nat)
    requires Valid(legacy) && RotorService.Valid(current) && SameRotor(legacy, current, w)
    ensures RightToLeft(legacy, x) == RotorService.GoThroughRotorRightToLeft(current, x)
  {
    var k := PermutationPreimage(w, (current.currentRingPosition + x) % ALPHABET_SIZE);
    LegacyRightToLeftOfWiring(legacy, w, x, k);
    CurrentRightToLeftOfWiring(current, w, x, k);
  }

  lemma LegacyRightToLeftOfWiring(legacy: LegacyEnigmaRotor, w: seq<char>, x: nat, k: int)
    requires Valid(legacy) && IsPermutation(w) && MapScrambledAlphabetToRotorIndexOutput(w).Ok?
    requires legacy.alphabetMapping == MapScrambledAlphabetToRotorIndexOutput(w).value
    requires 0 <= k < |w| && LetterIndex(w[k]) == (LetterIndex(legacy.currentRingPosition) + x) % ALPHABET_SIZE
    ensures RightToLeft(legacy, x) == (k - LetterIndex(legacy.currentRingPosition)) % ALPHABET_SIZE
  {
    PermutationIsInjective(w);
    RightToLeftEntry(w, |w|, k);
  }

  lemma CurrentRightToLeftOfWiring(current: RotorService.EnigmaRotor, w: seq<char>, x: nat, k: int)
    requires RotorService.Valid(current) && IsPermutation(w) && AllLetters(w)
    requires current.rotor == Rotor.CreateBiMapFromAlphabet(w)
    requires 0 <= k < |w| && LetterIndex(w[k]) == (current.currentRingPosition + x) % ALPHABET_SIZE
    ensures RotorService.GoThroughRotorRightToLeft(current, x) == (k - current.currentRingPosition) % ALPHABET_SIZE
  {
    RotorService.WiredOfPermutation(w, k);
    RotorService.RightToLeftIsRelativeUnwiring(current, x);
  }
}
