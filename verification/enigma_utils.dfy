/** The pure helpers of the stream-based machine
    (libs/enigma/enigma-machine/src/lib/rxjs/internal/enigma.utils.ts):
    unvalidated letter conversions, a second `createBiMapFromAlphabet`, the
    odometer step, one rotor or reflector pass, and the initial state. */
module EnigmaUtils {
  import opened Results
  import opened Alphabet
  import opened Rotor
  import opened RotorService
  import opened Reflector

  /** `getLetterIndexInAlphabet`: charCode - 97, with no validation; it is
      `Alphabet.LetterIndex`. */
  function GetLetterIndexInAlphabet(letter: char): (index: int)
    ensures IsLetter(letter) <==> 0 <= index < ALPHABET_SIZE
    ensures IsLetter(letter) ==> LetterAt(index) == letter
  {
    LetterIndex(letter)
  }

  /** `getLetterFromIndexInAlphabet`: `String.fromCharCode(index + 97)`,
      given as the 16-bit code unit it produces (any index is accepted and
      truncated to 16 bits). */
  function GetLetterFromIndexInAlphabet(index: int): (codeUnit: int)
    ensures 0 <= codeUnit < UTF16_CODE_UNITS
    ensures 0 <= index < ALPHABET_SIZE ==> codeUnit == LetterAt(index) as int
  {
    (index + CHAR_CODE_LETTER_A) % UTF16_CODE_UNITS
  }

  /** The two conversions are mutual inverses on 'a'..'z' and 0..25, and
      the code unit only depends on the index modulo 2^16. */
  lemma LetterIndexConversionsAreInverse(letter: char, index: int)
    ensures IsLetter(letter) ==> GetLetterFromIndexInAlphabet(GetLetterIndexInAlphabet(letter)) == letter as int
    ensures 0 <= index < ALPHABET_SIZE ==>
      GetLetterIndexInAlphabet(GetLetterFromIndexInAlphabet(index) as char) == index
    ensures GetLetterFromIndexInAlphabet(index + UTF16_CODE_UNITS) == GetLetterFromIndexInAlphabet(index)
  {
  }

  /** JavaScript's `a % 26`: the remainder takes the sign of the dividend. */
  function JsRemainder(a: int): (r: int)
    ensures a >= 0 ==> 0 <= r < ALPHABET_SIZE && r % ALPHABET_SIZE == a % ALPHABET_SIZE
    ensures a < 0 ==> -ALPHABET_SIZE < r <= 0
    ensures (a - r) % ALPHABET_SIZE == 0
  {
    if a >= 0 then a % ALPHABET_SIZE else -((-a) % ALPHABET_SIZE)
  }

  // ---------------------------------------------------------------------
  // `createBiMapFromAlphabet(rotorAlphabetLetters, rotorAlphabet)`

  /** The `reduce` after n letters: the base of the offsets is the length of
      the alphabet, and the letters are not checked. */
  function BiMapOfPrefixWithBase(rotorAlphabetLetters: string, base: int, n: nat): (b: BiMap)
    requires n <= |rotorAlphabetLetters|
  {
    if n == 0 then BiMap(map[], map[])
    else
      var acc := BiMapOfPrefixWithBase(rotorAlphabetLetters, base, n - 1);
      var index := n - 1;
      var letterIndex := LetterIndex(rotorAlphabetLetters[index]);
      BiMap(
        acc.leftToRight[index := ModuloWithPositiveOrNegative(base, letterIndex - index)],
        acc.rightToLeft[letterIndex := ModuloWithPositiveOrNegative(base, -(letterIndex - index))])
  }

  function CreateBiMapFromAlphabet(rotorAlphabetLetters: string, rotorAlphabet: string): BiMap {
    BiMapOfPrefixWithBase(rotorAlphabetLetters, |rotorAlphabet|, |rotorAlphabetLetters|)
  }

  /** Position i of the left-to-right table holds the offset to the letter
      at i, once the fold has passed it. */
  lemma {:induction false} LeftToRightEntry(rotorAlphabetLetters: string, base: int, n: nat, i: int)
    requires n <= |rotorAlphabetLetters| && 0 <= i < n
    ensures i in BiMapOfPrefixWithBase(rotorAlphabetLetters, base, n).leftToRight
    ensures BiMapOfPrefixWithBase(rotorAlphabetLetters, base, n).leftToRight[i]
         == ModuloWithPositiveOrNegative(base, LetterIndex(rotorAlphabetLetters[i]) - i)
  {
    if i < n - 1 {
      LeftToRightEntry(rotorAlphabetLetters, base, n - 1, i);
    }
  }

  lemma {:induction false} PrefixesAgree(rotorAlphabetLetters: string, n: nat)
    requires n <= |rotorAlphabetLetters|
    requires forall k :: 0 <= k < |rotorAlphabetLetters| ==> IsLetter(rotorAlphabetLetters[k])
    ensures BiMapOfPrefixWithBase(rotorAlphabetLetters, ALPHABET_SIZE, n) == BiMapOfPrefix(rotorAlphabetLetters, n)
  {
    if n > 0 {
      PrefixesAgree(rotorAlphabetLetters, n - 1);
    }
  }

  /** Over a 26-letter alphabet this copy builds the same tables as the one
      of the service-based machine. */
  lemma CreateBiMapFromAlphabetAgrees(rotorAlphabetLetters: string, rotorAlphabet: string)
    requires |rotorAlphabet| == ALPHABET_SIZE
    requires forall k :: 0 <= k < |rotorAlphabetLetters| ==> IsLetter(rotorAlphabetLetters[k])
    ensures CreateBiMapFromAlphabet(rotorAlphabetLetters, rotorAlphabet)
         == Rotor.CreateBiMapFromAlphabet(rotorAlphabetLetters)
  {
    PrefixesAgree(rotorAlphabetLetters, |rotorAlphabetLetters|);
  }

  // ---------------------------------------------------------------------
  // Stepping. `getNextNumberBase26` is the same code as in rotor.ts and is
  // modelled once, as `Rotor.GetNextNumberBase26`.

  /** `getNextRotorCombination`: a missing list (`None`) restarts at [0, 0, 0]. */
  function GetNextRotorCombination(rotors: Option<seq<int>>): (r: seq<int>)
    ensures rotors.None? ==> r == [LETTER_INDEX_A, LETTER_INDEX_A, LETTER_INDEX_A]
    ensures rotors.Some? ==> |r| == |rotors.value|
  {
    if rotors.None? then [LETTER_INDEX_A, LETTER_INDEX_A, LETTER_INDEX_A]
    else GetNextNumberBase26(rotors.value)
  }

  /** On a present triple it is the machine's own step, the successor in
      base 26; the documented examples. */
  lemma GetNextRotorCombinationIsTheStep(t: seq<int>)
    requires IsTriple(t)
    ensures GetNextRotorCombination(Some(t)) == GoToNextRotorCombination(t)
    ensures IsTriple(GetNextRotorCombination(Some(t)))
    ensures Value(GetNextRotorCombination(Some(t))) == (Value(t) + 1) % COMBINATIONS
    ensures GetNextRotorCombination(Some([0, 0, 0])) == [1, 0, 0]
    ensures GetNextRotorCombination(Some([25, 0, 0])) == [0, 1, 0]
    ensures GetNextRotorCombination(Some([25, 25, 25])) == [0, 0, 0]
  {
    NextNumberIsSuccessor(t);
    Pow26Three();
    StepExamples();
  }

  // ---------------------------------------------------------------------
  // One pass.

  /** `goThroughRotorOrReflector`: read the offset at the contact under the
      input and add it; an entry the table lacks reads `undefined`, and the
      sum is then NaN (`None`). */
  function GoThroughRotorOrReflector(rotorOrReflector: map<int, int>, currentRotorPosition: int,
                                     relativeIndexInput: int): (out: Option<int>)
    ensures out.Some? <==>
      JsRemainder(currentRotorPosition + relativeIndexInput) in rotorOrReflector
    ensures out.Some? && relativeIndexInput >= 0 &&
            rotorOrReflector[JsRemainder(currentRotorPosition + relativeIndexInput)] >= 0 ==>
      0 <= out.value < ALPHABET_SIZE
  {
    var contact := JsRemainder(currentRotorPosition + relativeIndexInput);
    if contact !in rotorOrReflector then None
    else Some(JsRemainder(relativeIndexInput + rotorOrReflector[contact]))
  }

  /** On a rotor of the service-based machine, both passes agree with
      `EnigmaRotorService`. */
  lemma RotorPassesAgree(r: EnigmaRotor, x: int)
    requires RotorService.Valid(r) && x >= 0
    ensures GoThroughRotorOrReflector(r.rotor.leftToRight, r.currentRingPosition, x)
         == Some(GoThroughRotorLeftToRight(r, x))
    ensures GoThroughRotorOrReflector(r.rotor.rightToLeft, r.currentRingPosition, x)
         == Some(GoThroughRotorRightToLeft(r, x))
  {
  }

  /** Used as the reflector (left-to-right offsets, position 0), the pass
      returns the index of the configured letter. */
  lemma ReflectorPassIsLookup(reflectorAlphabetLetters: string, rotorAlphabet: string, i: int)
    requires |rotorAlphabet| == ALPHABET_SIZE
    requires forall k :: 0 <= k < |reflectorAlphabetLetters| ==> IsLetter(reflectorAlphabetLetters[k])
    requires 0 <= i < ALPHABET_SIZE && i < |reflectorAlphabetLetters|
    ensures GoThroughRotorOrReflector(CreateBiMapFromAlphabet(reflectorAlphabetLetters, rotorAlphabet).leftToRight, 0, i)
         == Some(LetterIndex(reflectorAlphabetLetters[i]))
  {
    LeftToRightEntry(reflectorAlphabetLetters, ALPHABET_SIZE, |reflectorAlphabetLetters|, i);
    LetterIndexInRange(reflectorAlphabetLetters[i]);
    ModuloWithPositiveOrNegativeIsShiftedModulo(LetterIndex(reflectorAlphabetLetters[i]) - i);
    assert JsRemainder(0 + i) == i;
  }

  /** The same pass agrees with the reflector service built from the same
      letters. */
  lemma ReflectorPassesAgree(reflectorAlphabetLetters: string, rotorAlphabet: string, i: int)
    requires |rotorAlphabet| == ALPHABET_SIZE
    requires NewReflectorService(reflectorAlphabetLetters).Ok? && 0 <= i < ALPHABET_SIZE
    ensures GoThroughRotorOrReflector(CreateBiMapFromAlphabet(reflectorAlphabetLetters, rotorAlphabet).leftToRight, 0, i)
         == GoThroughFromRelativeIndex(NewReflectorService(reflectorAlphabetLetters).value, i)
  {
    ReflectsToOtherContact(reflectorAlphabetLetters, i);
    CompleteAlphabetLetters(reflectorAlphabetLetters);
    AlphabetCharSetSize();
    CompleteAlphabetIsSetEquality(reflectorAlphabetLetters);
    CharSetAtMostLength(reflectorAlphabetLetters);
    ReflectorPassIsLookup(reflectorAlphabetLetters, rotorAlphabet, i);
  }

  // ---------------------------------------------------------------------
  // `getInitialState`

  datatype BiMapRotor = BiMapRotor(id: string, wires: BiMap)
  datatype InternalReflector = InternalReflector(id: string, wires: map<int, int>)
  datatype EnigmaState = EnigmaState(
    rotors: seq<BiMapRotor>,
    reflector: InternalReflector,
    currentRotorsPositions: map<string, int>)

  /** The `reduce` over the rotors: each id gets the index of its letter in
      the initial configuration. An id the configuration lacks reads
      `undefined`, whose `charCodeAt` throws a `TypeError`. */
  function PositionsOf(biMapRotors: seq<BiMapRotor>, initialConfig: map<string, char>): (r: Result<map<string, int>>)
    ensures r.Ok? <==> forall k :: 0 <= k < |biMapRotors| ==> biMapRotors[k].id in initialConfig
    ensures r.Err? ==> r.error == TypeError
  {
    if |biMapRotors| == 0 then Ok(map[])
    else
      var acc := PositionsOf(biMapRotors[..|biMapRotors| - 1], initialConfig);
      var id := biMapRotors[|biMapRotors| - 1].id;
      if acc.Err? then acc
      else if id !in initialConfig then Err(TypeError)
      else Ok(acc.value[id := GetLetterIndexInAlphabet(initialConfig[id])])
  }

  function RotorIds(biMapRotors: seq<BiMapRotor>): set<string> {
    set k | 0 <= k < |biMapRotors| :: biMapRotors[k].id
  }

  /** A successful `reduce` has one entry per rotor id, holding the index
      of that rotor's configured letter. */
  lemma {:induction false} PositionsOfEntries(biMapRotors: seq<BiMapRotor>, initialConfig: map<string, char>)
    requires PositionsOf(biMapRotors, initialConfig).Ok?
    ensures var positions := PositionsOf(biMapRotors, initialConfig).value;
      positions.Keys == RotorIds(biMapRotors) &&
      forall id :: id in positions ==> id in initialConfig && positions[id] == GetLetterIndexInAlphabet(initialConfig[id])
    decreases |biMapRotors|
  {
    if |biMapRotors| > 0 {
      var n := |biMapRotors| - 1;
      var prefix := biMapRotors[..n];
      PositionsOfEntries(prefix, initialConfig);
      assert RotorIds(biMapRotors) == RotorIds(prefix) + {biMapRotors[n].id} by {
        forall id | id in RotorIds(biMapRotors)
          ensures id in RotorIds(prefix) + {biMapRotors[n].id}
        {
          var k :| 0 <= k < |biMapRotors| && biMapRotors[k].id == id;
          if k < n {
            assert prefix[k].id == id;
          }
        }
      }
    }
  }

  /** `getInitialState`: the rotors and the reflector as given, each rotor
      at the position of its configured letter; a rotor without a
      configured letter makes it throw. The intermediary results are not
      modelled. */
  function GetInitialState(biMapRotors: seq<BiMapRotor>, reflector: InternalReflector,
                           initialConfig: map<string, char>): (r: Result<EnigmaState>)
    ensures r.Ok? <==> forall k :: 0 <= k < |biMapRotors| ==> biMapRotors[k].id in initialConfig
    ensures r.Err? ==> r.error == TypeError
    ensures r.Ok? ==> r.value.rotors == biMapRotors && r.value.reflector == reflector
    ensures r.Ok? ==> forall k :: 0 <= k < |biMapRotors| ==>
      biMapRotors[k].id in r.value.currentRotorsPositions &&
      r.value.currentRotorsPositions[biMapRotors[k].id] == GetLetterIndexInAlphabet(initialConfig[biMapRotors[k].id])
    ensures r.Ok? ==> forall id :: id in r.value.currentRotorsPositions ==>
      exists k :: 0 <= k < |biMapRotors| && biMapRotors[k].id == id
    ensures r.Ok? ==> forall k :: 0 <= k < |biMapRotors| && IsLetter(initialConfig[biMapRotors[k].id]) ==>
      0 <= r.value.currentRotorsPositions[biMapRotors[k].id] < ALPHABET_SIZE
  {
    var positions :- PositionsOf(biMapRotors, initialConfig);
    PositionsOfEntries(biMapRotors, initialConfig);
    Ok(EnigmaState(biMapRotors, reflector, positions))
  }
}
