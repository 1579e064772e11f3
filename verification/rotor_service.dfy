/** One rotor of the machine: a fixed wiring table and a ring position that
    the machine moves (libs/enigma/enigma-machine/src/lib/enigma-rotor.service.ts). */
module RotorService {
  import opened Results
  import opened Alphabet
  import opened Rotor

  /** The wirings shipped with the service. */
  const ROTOR_1: string := "ekmflgdqvzntowyhxuspaibrcj"
  const ROTOR_2: string := "ajdksiruxblhwtmcqgznpyfvoe"
  const ROTOR_3: string := "fvpjiaoyedrzxwgctkuqsbnmhl"

  /** The rotor's state: the table never changes after construction. */
  datatype EnigmaRotor = EnigmaRotor(rotor: BiMap, currentRingPosition: int)

  predicate IsRingPosition(p: int) {
    LETTER_INDEX_A <= p <= LETTER_INDEX_Z
  }

  /** Both tables are defined at every contact 0..25 with a non-negative
      offset, so a pass never reads an undefined entry. */
  predicate TableIsTotal(b: BiMap) {
    (forall i :: 0 <= i < ALPHABET_SIZE ==> i in b.leftToRight && b.leftToRight[i] >= 0) &&
    (forall i :: 0 <= i < ALPHABET_SIZE ==> i in b.rightToLeft && b.rightToLeft[i] >= 0)
  }

  predicate Valid(r: EnigmaRotor) {
    IsRingPosition(r.currentRingPosition) && TableIsTotal(r.rotor)
  }

  /** Any complete alphabet, even a longer one, gives a total table. */
  lemma CompleteAlphabetGivesTotalTable(w: seq<char>)
    requires IsStringCompleteUnorderedAlphabet(w)
    ensures forall k :: 0 <= k < |w| ==> IsLetter(w[k])
    ensures TableIsTotal(CreateBiMapFromAlphabet(w))
  {
    CompleteAlphabetLetters(w);
    AlphabetCharSetSize();
    CompleteAlphabetIsSetEquality(w);
    CharSetAtMostLength(w);
    var b := CreateBiMapFromAlphabet(w);
    forall i | 0 <= i < ALPHABET_SIZE ensures i in b.leftToRight && b.leftToRight[i] >= 0 {
      LetterIndexInRange(w[i]);
    }
    forall i | 0 <= i < ALPHABET_SIZE ensures i in b.rightToLeft {
      var c := (i + CHAR_CODE_LETTER_A) as char;
      assert c in CharSet(w);
      var k :| 0 <= k < |w| && w[k] == c;
      assert LetterIndex(w[k]) == i;
    }
  }

  /** The constructor: the wiring is checked first, then the ring position. */
  function NewEnigmaRotor(rotorConfig: string, currentRingPosition: int): (r: Result<EnigmaRotor>)
    ensures r.Ok? <==> IsStringCompleteUnorderedAlphabet(rotorConfig) && IsRingPosition(currentRingPosition)
    ensures !IsStringCompleteUnorderedAlphabet(rotorConfig) ==> r == Err(InvalidAlphabet)
    ensures IsStringCompleteUnorderedAlphabet(rotorConfig) && !IsRingPosition(currentRingPosition) ==>
      r == Err(InvalidRingPosition)
    ensures r.Ok? ==> Valid(r.value) && r.value.currentRingPosition == currentRingPosition
    ensures r.Ok? ==> AllLetters(rotorConfig)
    ensures r.Ok? ==> r.value.rotor == CreateBiMapFromAlphabet(rotorConfig)
  {
    if !IsStringCompleteUnorderedAlphabet(rotorConfig) then Err(InvalidAlphabet)
    else
      CompleteAlphabetGivesTotalTable(rotorConfig);
      var rotor := EnigmaRotor(CreateBiMapFromAlphabet(rotorConfig), LETTER_INDEX_A);
      SetCurrentRingPosition(rotor, currentRingPosition)
  }

  /** The constructor with the default ring position, A. */
  function NewEnigmaRotorAtA(rotorConfig: string): (r: Result<EnigmaRotor>)
    ensures r.Ok? <==> IsStringCompleteUnorderedAlphabet(rotorConfig)
    ensures r.Ok? ==> Valid(r.value) && r.value.currentRingPosition == LETTER_INDEX_A
    ensures r.Ok? ==> AllLetters(rotorConfig)
    ensures r.Ok? ==> r.value.rotor == CreateBiMapFromAlphabet(rotorConfig)
  {
    NewEnigmaRotor(rotorConfig, LETTER_INDEX_A)
  }

  /** `setCurrentRingPosition`: only a position 0..25 is stored; any other
      throws and the rotor keeps its state. The table is never touched. */
  function SetCurrentRingPosition(r: EnigmaRotor, ringPosition: int): (r': Result<EnigmaRotor>)
    ensures r'.Ok? <==> IsRingPosition(ringPosition)
    ensures r'.Ok? ==> r'.value.rotor == r.rotor && GetCurrentRingPosition(r'.value) == ringPosition
    ensures r'.Err? ==> r'.error == InvalidRingPosition
    ensures TableIsTotal(r.rotor) && r'.Ok? ==> Valid(r'.value)
  {
    if ringPosition < LETTER_INDEX_A || ringPosition > LETTER_INDEX_Z then Err(InvalidRingPosition)
    else Ok(r.(currentRingPosition := ringPosition))
  }

  function GetCurrentRingPosition(r: EnigmaRotor): int {
    r.currentRingPosition
  }

  /** `goThroughRotor`: read the offset at the contact under the input, add it. */
  function GoThroughRotor(r: EnigmaRotor, fromLeft: bool, relativeIndexInput: int): (out: int)
    requires Valid(r) && relativeIndexInput >= 0
    ensures 0 <= out < ALPHABET_SIZE
  {
    var table := if fromLeft then r.rotor.leftToRight else r.rotor.rightToLeft;
    var currentRelativeIndexOutput := table[(r.currentRingPosition + relativeIndexInput) % ALPHABET_SIZE];
    (relativeIndexInput + currentRelativeIndexOutput) % ALPHABET_SIZE
  }

  function GoThroughRotorLeftToRight(r: EnigmaRotor, relativeIndexInput: int): (out: int)
    requires Valid(r) && relativeIndexInput >= 0
    ensures 0 <= out < ALPHABET_SIZE
  {
    GoThroughRotor(r, true, relativeIndexInput)
  }

  function GoThroughRotorRightToLeft(r: EnigmaRotor, relativeIndexInput: int): (out: int)
    requires Valid(r) && relativeIndexInput >= 0
    ensures 0 <= out < ALPHABET_SIZE
  {
    GoThroughRotor(r, false, relativeIndexInput)
  }

  // ---------------------------------------------------------------------
  // The wiring in absolute terms: contact i is wired to contact Wired(b, i).

  function Wired(b: BiMap, i: int): (j: int)
    requires TableIsTotal(b) && 0 <= i < ALPHABET_SIZE
    ensures 0 <= j < ALPHABET_SIZE
  {
    (i + b.leftToRight[i]) % ALPHABET_SIZE
  }

  function Unwired(b: BiMap, j: int): (i: int)
    requires TableIsTotal(b) && 0 <= j < ALPHABET_SIZE
    ensures 0 <= i < ALPHABET_SIZE
  {
    (j + b.rightToLeft[j]) % ALPHABET_SIZE
  }

  /** The two tables describe mutually inverse wirings. */
  predicate Invertible(b: BiMap) {
    TableIsTotal(b) &&
    forall i :: 0 <= i < ALPHABET_SIZE ==> Unwired(b, Wired(b, i)) == i && Wired(b, Unwired(b, i)) == i
  }

  /** A 26-letter wiring w sends contact i to the index of w[i]. */
  lemma WiredIsLetterIndex(w: seq<char>, i: int)
    requires IsPermutation(w) && 0 <= i < ALPHABET_SIZE
    ensures forall k :: 0 <= k < |w| ==> IsLetter(w[k])
    ensures TableIsTotal(CreateBiMapFromAlphabet(w))
    ensures Wired(CreateBiMapFromAlphabet(w), i) == LetterIndex(w[i])
  {
    CompleteAlphabetGivesTotalTable(w);
    LetterIndexInRange(w[i]);
    var b := CreateBiMapFromAlphabet(w);
    var l := LetterIndex(w[i]);
    assert b.leftToRight[i] == ModuloWithPositiveOrNegative(ALPHABET_SIZE, l - i);
    OffsetLandsOn(i, l);
  }

  /** Moving from contact i by the offset towards contact l lands on l. */
  lemma OffsetLandsOn(i: int, l: int)
    requires 0 <= i < ALPHABET_SIZE && 0 <= l < ALPHABET_SIZE
    ensures (i + ModuloWithPositiveOrNegative(ALPHABET_SIZE, l - i)) % ALPHABET_SIZE == l
  {
    var x := ModuloWithPositiveOrNegative(ALPHABET_SIZE, l - i);
    assert i + x == l || i + x == l + ALPHABET_SIZE;
  }

  /** ... and the right-to-left table brings the index of w[i] back to i. */
  lemma WiredOfPermutation(w: seq<char>, i: int)
    requires IsPermutation(w) && 0 <= i < ALPHABET_SIZE
    ensures forall k :: 0 <= k < |w| ==> IsLetter(w[k])
    ensures TableIsTotal(CreateBiMapFromAlphabet(w))
    ensures Wired(CreateBiMapFromAlphabet(w), i) == LetterIndex(w[i])
    ensures Unwired(CreateBiMapFromAlphabet(w), LetterIndex(w[i])) == i
  {
    WiredIsLetterIndex(w, i);
    PermutationIsInjective(w);
    assert LastOccurrence(w, |w|, i);
    UnwiredAtLastOccurrence(w, i);
  }

  lemma UnwiredAtLastOccurrence(w: seq<char>, i: int)
    requires forall k :: 0 <= k < |w| ==> IsLetter(w[k])
    requires TableIsTotal(CreateBiMapFromAlphabet(w))
    requires 0 <= i < ALPHABET_SIZE <= |w| && LastOccurrence(w, |w|, i)
    ensures Unwired(CreateBiMapFromAlphabet(w), LetterIndex(w[i])) == i
  {
    RightToLeftFromLastOccurrence(w, |w|, i);
    LetterIndexInRange(w[i]);
    UnwiredByOffset(CreateBiMapFromAlphabet(w), LetterIndex(w[i]), i);
  }

  lemma UnwiredByOffset(b: BiMap, l: int, i: int)
    requires TableIsTotal(b) && 0 <= i < ALPHABET_SIZE && 0 <= l < ALPHABET_SIZE
    requires b.rightToLeft[l] == ModuloWithPositiveOrNegative(ALPHABET_SIZE, i - l)
    ensures Unwired(b, l) == i
  {
    OffsetLandsOn(l, i);
  }

  /** Every contact j is the wired image of the position holding letter j. */
  lemma UnwiredOfPermutation(w: seq<char>, j: int)
    requires IsPermutation(w) && 0 <= j < ALPHABET_SIZE
    ensures forall k :: 0 <= k < |w| ==> IsLetter(w[k])
    ensures TableIsTotal(CreateBiMapFromAlphabet(w))
    ensures Wired(CreateBiMapFromAlphabet(w), Unwired(CreateBiMapFromAlphabet(w), j)) == j
  {
    var c := (j + CHAR_CODE_LETTER_A) as char;
    PermutationPosition(w, c);
    var k := IndexOf(w, c);
    WiredOfPermutation(w, k);
  }

  /** The tables of a 26-letter wiring are inverse to each other. */
  lemma PermutationIsInvertible(w: seq<char>)
    requires IsPermutation(w)
    ensures forall k :: 0 <= k < |w| ==> IsLetter(w[k])
    ensures TableIsTotal(CreateBiMapFromAlphabet(w))
    ensures forall i :: 0 <= i < ALPHABET_SIZE ==> Wired(CreateBiMapFromAlphabet(w), i) == LetterIndex(w[i])
    ensures Invertible(CreateBiMapFromAlphabet(w))
  {
    CompleteAlphabetGivesTotalTable(w);
    var b := CreateBiMapFromAlphabet(w);
    forall i | 0 <= i < ALPHABET_SIZE
      ensures Wired(b, i) == LetterIndex(w[i])
      ensures Unwired(b, Wired(b, i)) == i && Wired(b, Unwired(b, i)) == i
    {
      WiredOfPermutation(w, i);
      UnwiredOfPermutation(w, i);
    }
  }

  /** With an inverse certificate, the right-to-left wiring is read off it. */
  lemma InverseWiringUnwires(w: seq<char>, inv: seq<char>, j: int)
    requires IsInverseWiring(w, inv) && 0 <= j < ALPHABET_SIZE
    ensures IsPermutation(w)
    ensures forall k :: 0 <= k < |w| ==> IsLetter(w[k])
    ensures TableIsTotal(CreateBiMapFromAlphabet(w))
    ensures Unwired(CreateBiMapFromAlphabet(w), j) == LetterIndex(inv[j])
  {
    InverseWiringMakesPermutation(w, inv);
    assert InverseWiringAt(w, inv, j);
    var k := LetterIndex(inv[j]);
    assert LetterIndex(w[k]) == j;
    WiredOfPermutation(w, k);
  }

  /** The left-to-right pass is the absolute wiring seen from the ring
      position: the relative index of the wired contact. */
  lemma LeftToRightIsRelativeWiring(r: EnigmaRotor, x: int)
    requires Valid(r) && x >= 0
    ensures GoThroughRotorLeftToRight(r, x)
         == (Wired(r.rotor, (r.currentRingPosition + x) % ALPHABET_SIZE) - r.currentRingPosition) % ALPHABET_SIZE
  {
  }

  lemma RightToLeftIsRelativeUnwiring(r: EnigmaRotor, y: int)
    requires Valid(r) && y >= 0
    ensures GoThroughRotorRightToLeft(r, y)
         == (Unwired(r.rotor, (r.currentRingPosition + y) % ALPHABET_SIZE) - r.currentRingPosition) % ALPHABET_SIZE
  {
  }

  /** A 26-letter wiring at ring position p sends relative input x to the
      relative index of the letter wired at contact p + x. */
  lemma LeftToRightOfWiring(w: seq<char>, p: int, x: int)
    requires IsPermutation(w) && IsRingPosition(p) && x >= 0
    ensures NewEnigmaRotor(w, p).Ok?
    ensures GoThroughRotorLeftToRight(NewEnigmaRotor(w, p).value, x)
         == (LetterIndex(w[(p + x) % ALPHABET_SIZE]) - p) % ALPHABET_SIZE
  {
    PermutationIsInvertible(w);
    LeftToRightIsRelativeWiring(NewEnigmaRotor(w, p).value, x);
  }

  /** Relative and absolute contact indexes convert back and forth. */
  lemma RelativeAbsolute(p: int, x: int)
    requires IsRingPosition(p) && 0 <= x < ALPHABET_SIZE
    ensures (p + (x - p) % ALPHABET_SIZE) % ALPHABET_SIZE == x
    ensures ((p + x) % ALPHABET_SIZE - p) % ALPHABET_SIZE == x
  {
  }

  /** The round trip: right-to-left undoes left-to-right at any ring
      position. */
  lemma RoundTripLeftFirst(r: EnigmaRotor, x: int)
    requires Valid(r) && Invertible(r.rotor) && 0 <= x < ALPHABET_SIZE
    ensures GoThroughRotorRightToLeft(r, GoThroughRotorLeftToRight(r, x)) == x
  {
    var p := r.currentRingPosition;
    var c := (p + x) % ALPHABET_SIZE;
    var y := GoThroughRotorLeftToRight(r, x);
    LeftToRightIsRelativeWiring(r, x);
    RelativeAbsolute(p, Wired(r.rotor, c));
    RightToLeftIsRelativeUnwiring(r, y);
    RelativeAbsolute(p, x);
  }

  /** ... and left-to-right undoes right-to-left. */
  lemma RoundTripRightFirst(r: EnigmaRotor, x: int)
    requires Valid(r) && Invertible(r.rotor) && 0 <= x < ALPHABET_SIZE
    ensures GoThroughRotorLeftToRight(r, GoThroughRotorRightToLeft(r, x)) == x
  {
    var p := r.currentRingPosition;
    var c := (p + x) % ALPHABET_SIZE;
    var z := GoThroughRotorRightToLeft(r, x);
    RightToLeftIsRelativeUnwiring(r, x);
    RelativeAbsolute(p, Unwired(r.rotor, c));
    LeftToRightIsRelativeWiring(r, z);
    RelativeAbsolute(p, x);
  }

  lemma RoundTrip(r: EnigmaRotor, x: int)
    requires Valid(r) && Invertible(r.rotor) && 0 <= x < ALPHABET_SIZE
    ensures GoThroughRotorRightToLeft(r, GoThroughRotorLeftToRight(r, x)) == x
    ensures GoThroughRotorLeftToRight(r, GoThroughRotorRightToLeft(r, x)) == x
  {
    RoundTripLeftFirst(r, x);
    RoundTripRightFirst(r, x);
  }

  /** Round trip for every rotor built from a 26-letter wiring. */
  lemma WiringRoundTrip(w: seq<char>, p: int, x: int)
    requires IsPermutation(w) && IsRingPosition(p) && 0 <= x < ALPHABET_SIZE
    ensures NewEnigmaRotor(w, p).Ok?
    ensures GoThroughRotorRightToLeft(NewEnigmaRotor(w, p).value, GoThroughRotorLeftToRight(NewEnigmaRotor(w, p).value, x)) == x
    ensures GoThroughRotorLeftToRight(NewEnigmaRotor(w, p).value, GoThroughRotorRightToLeft(NewEnigmaRotor(w, p).value, x)) == x
  {
    PermutationIsInvertible(w);
    RoundTrip(NewEnigmaRotor(w, p).value, x);
  }

  /** Moving the ring position keeps the table, hence its invertibility. */
  lemma SetPositionKeepsTable(r: EnigmaRotor, p: int)
    requires Valid(r) && IsRingPosition(p)
    ensures SetCurrentRingPosition(r, p).Ok?
    ensures SetCurrentRingPosition(r, p).value.rotor == r.rotor
    ensures Invertible(r.rotor) ==> Invertible(SetCurrentRingPosition(r, p).value.rotor)
  {
  }

  /** 'incorrect alphabet' is rejected whatever the position. */
  lemma IncorrectWiringIsRejected(p: int)
    ensures NewEnigmaRotor("incorrect alphabet", p) == Err(InvalidAlphabet)
  {
    IncorrectAlphabetIsRejected();
  }
}
