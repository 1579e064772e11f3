/** The bombe: every initial rotor position, each paired with the ciphertext
    to try it on (libs/enigma/enigma-bombe/src/lib/enigma-bombe.service.ts). */
module Bombe {
  import opened Alphabet
  import opened Rotor
  import opened Machine

  datatype ConfigurationToDecrypt = ConfigurationToDecrypt(encryptedMessage: string, initialRotorPosition: seq<char>)

  /** The generator's first combination, [Z, Z, Z]. */
  const ZZZ: seq<int> := [LETTER_INDEX_Z, LETTER_INDEX_Z, LETTER_INDEX_Z]

  /** `rotorCombination.map(getLetterFromIndexInAlphabet)`. */
  function ToLetters(t: seq<int>): (s: seq<char>)
    requires IsTriple(t)
    ensures |s| == NB_ROTORS_REQUIRED
    ensures forall k :: 0 <= k < |s| ==> IsLetter(s[k]) && LetterIndex(s[k]) == t[k]
  {
    seq(NB_ROTORS_REQUIRED, k requires 0 <= k < NB_ROTORS_REQUIRED => GetLetterFromIndexInAlphabet(t[k]).value)
  }

  /** The letter indexes of three letters. */
  function Indexes(s: seq<char>): (t: seq<int>)
    requires |s| == NB_ROTORS_REQUIRED && forall k :: 0 <= k < |s| ==> IsLetter(s[k])
    ensures IsTriple(t)
  {
    LettersAreAtTheirIndex();
    seq(NB_ROTORS_REQUIRED, k requires 0 <= k < NB_ROTORS_REQUIRED => LetterIndex(s[k]))
  }

  lemma LettersIndexesRoundTrip(t: seq<int>, s: seq<char>)
    ensures IsTriple(t) ==> Indexes(ToLetters(t)) == t
    ensures |s| == NB_ROTORS_REQUIRED && (forall k :: 0 <= k < |s| ==> IsLetter(s[k])) ==> ToLetters(Indexes(s)) == s
  {
    if |s| == NB_ROTORS_REQUIRED && (forall k :: 0 <= k < |s| ==> IsLetter(s[k])) {
      var s' := ToLetters(Indexes(s));
      forall k | 0 <= k < NB_ROTORS_REQUIRED ensures s'[k] == s[k] {
        assert LetterIndex(s'[k]) == LetterIndex(s[k]);
      }
    }
  }

  /** The i-th combination in the order of the generator: i steps after [Z, Z, Z]. */
  function Combination(i: nat): (s: seq<char>)
    ensures |s| == NB_ROTORS_REQUIRED && forall k :: 0 <= k < |s| ==> IsLetter(s[k])
  {
    ToLetters(StepN(ZZZ, i))
  }

  /** `getPossibleCombinations`: the do-while loop yields the current
      combination, steps, and stops once it is back at [Z, Z, Z]. */
  method GetPossibleCombinations() returns (combos: seq<seq<char>>)
    ensures |combos| == COMBINATIONS
    ensures forall i :: 0 <= i < |combos| ==> combos[i] == Combination(i)
  {
    var rotorCombination := ZZZ;
    combos := [];
    var n := 0;
    while true
      invariant 0 <= n < COMBINATIONS
      invariant rotorCombination == StepN(ZZZ, n)
      invariant |combos| == n && forall i :: 0 <= i < n ==> combos[i] == Combination(i)
      decreases COMBINATIONS - n
    {
      combos := combos + [ToLetters(rotorCombination)];
      rotorCombination := GoToNextRotorCombination(rotorCombination);
      n := n + 1;
      OrbitLength(ZZZ, n);
      if rotorCombination[INDEX_ROTOR_0] == LETTER_INDEX_Z
        && rotorCombination[INDEX_ROTOR_1] == LETTER_INDEX_Z
        && rotorCombination[INDEX_ROTOR_2] == LETTER_INDEX_Z
      {
        assert rotorCombination == ZZZ;
        break;
      }
    }
  }

  /** `getPossibleCombinationsWithEncryptedMessage`: every combination,
      in order, paired with the same ciphertext. */
  method GetPossibleCombinationsWithEncryptedMessage(encryptedMessage: string)
    returns (configs: seq<ConfigurationToDecrypt>)
    ensures |configs| == COMBINATIONS
    ensures forall i :: 0 <= i < |configs| ==>
      configs[i].encryptedMessage == encryptedMessage && configs[i].initialRotorPosition == Combination(i)
  {
    var combos := GetPossibleCombinations();
    configs := [];
    var i := 0;
    while i < |combos|
      invariant 0 <= i <= |combos|
      invariant |configs| == i
      invariant forall j :: 0 <= j < i ==>
        configs[j] == ConfigurationToDecrypt(encryptedMessage, combos[j])
    {
      configs := configs + [ConfigurationToDecrypt(encryptedMessage, combos[i])];
      i := i + 1;
    }
  }

  // ---------------------------------------------------------------------
  // The enumeration visits every triple exactly once.

  lemma ValueOfZZZ()
    ensures IsTriple(ZZZ) && Value(ZZZ) == COMBINATIONS - 1
  {
    ValueBounds(ZZZ);
    Pow26Three();
  }

  /** The i-th combination has value i - 1, cyclically. */
  lemma CombinationValue(i: nat)
    ensures Value(StepN(ZZZ, i)) == (i + COMBINATIONS - 1) % COMBINATIONS
  {
    ValueOfZZZ();
    StepNValue(ZZZ, i);
  }

  /** Successive combinations are one odometer step apart. */
  lemma SuccessiveCombinations(i: nat)
    ensures Indexes(Combination(i + 1)) == GoToNextRotorCombination(Indexes(Combination(i)))
  {
    LettersIndexesRoundTrip(StepN(ZZZ, i), []);
    LettersIndexesRoundTrip(StepN(ZZZ, i + 1), []);
  }

  lemma CombinationsAreDistinct(i: nat, j: nat)
    requires i < j < COMBINATIONS
    ensures Combination(i) != Combination(j)
  {
    CombinationValue(i);
    CombinationValue(j);
    LettersIndexesRoundTrip(StepN(ZZZ, i), []);
    LettersIndexesRoundTrip(StepN(ZZZ, j), []);
  }

  /** Every triple of letters is the combination at the index after its value. */
  lemma EveryTripleIsACombination(s: seq<char>)
    requires |s| == NB_ROTORS_REQUIRED && forall k :: 0 <= k < |s| ==> IsLetter(s[k])
    ensures 0 <= (Value(Indexes(s)) + 1) % COMBINATIONS < COMBINATIONS
    ensures Combination((Value(Indexes(s)) + 1) % COMBINATIONS) == s
  {
    var t := Indexes(s);
    ValueBounds(t);
    Pow26Three();
    var i := (Value(t) + 1) % COMBINATIONS;
    CombinationValue(i);
    ModUnique(Value(t) + 1, COMBINATIONS, (Value(t) + 1) / COMBINATIONS, i);
    ModUnique(i + COMBINATIONS - 1, COMBINATIONS, (i + COMBINATIONS - 1) / COMBINATIONS, (i + COMBINATIONS - 1) % COMBINATIONS);
    assert Value(StepN(ZZZ, i)) == Value(t);
    ValueInjective(StepN(ZZZ, i), t);
    LettersIndexesRoundTrip([], s);
  }

  /** The generator starts with ZZZ, AAA, BAA and ends with YZZ. */
  lemma FirstAndLastCombinations()
    ensures Combination(0) == "zzz" && Combination(1) == "aaa" && Combination(2) == "baa"
    ensures Combination(COMBINATIONS - 1) == "yzz"
  {
    assert StepN(ZZZ, 1) == [0, 0, 0];
    assert StepN(ZZZ, 2) == [1, 0, 0];
    var yzz := [LETTER_INDEX_Z - 1, LETTER_INDEX_Z, LETTER_INDEX_Z];
    assert Value(yzz[2..]) == LETTER_INDEX_Z;
    assert Value(yzz[1..]) == LETTER_INDEX_Z + 26 * LETTER_INDEX_Z;
    assert IsTriple(yzz) && Value(yzz) == COMBINATIONS - 2;
    CombinationValue(COMBINATIONS - 1);
    ValueInjective(StepN(ZZZ, COMBINATIONS - 1), yzz);
  }
}
