/** The reflector: an absolute table that sends every contact to another one
    (libs/enigma/enigma-machine/src/lib/reflector.service.ts). */
module Reflector {
  import opened Results
  import opened Alphabet

  /** "Wide B", the default reflector, and "Wide C". */
  const REFLECTOR_1: string := "yruhqsldpxngokmiebfzcwvjat"
  const REFLECTOR_2: string := "fvpjiaoyedrzxwgctkuqsbnmhl"

  datatype ReflectorService = ReflectorService(reflectorConfig: seq<int>)

  /** `mapLetterIndexInAlphabetToDifferentOne`: the index of each letter,
      position by position. */
  function MapLetterIndexInAlphabetToDifferentOne(alphabet: seq<char>): (table: seq<int>)
    requires forall k :: 0 <= k < |alphabet| ==> IsLetter(alphabet[k])
    ensures |table| == |alphabet|
    ensures forall i :: 0 <= i < |table| ==> 0 <= table[i] < ALPHABET_SIZE && ALPHABET[table[i]] == alphabet[i]
  {
    LettersAreAtTheirIndex();
    seq(|alphabet|, i requires 0 <= i < |alphabet| => LetterIndex(alphabet[i]))
  }

  predicate HasFixedPoint(table: seq<int>) {
    exists i :: 0 <= i < |table| && table[i] == i
  }

  /** What the constructor guarantees: at least 26 entries, each an index
      of the alphabet, none mapping to itself. */
  predicate Valid(r: ReflectorService) {
    |r.reflectorConfig| >= ALPHABET_SIZE &&
    (forall i :: 0 <= i < |r.reflectorConfig| ==> 0 <= r.reflectorConfig[i] < ALPHABET_SIZE) &&
    !HasFixedPoint(r.reflectorConfig)
  }

  /** Contacts are swapped in pairs, as in the physical reflector. */
  predicate Involutive(r: ReflectorService)
    requires Valid(r)
  {
    forall i :: 0 <= i < ALPHABET_SIZE ==> r.reflectorConfig[r.reflectorConfig[i]] == i
  }

  /** The constructor (`setReflectorConfig`): the alphabet is checked first,
      then the absence of fixed points. */
  function NewReflectorService(reflectorConfig: string): (r: Result<ReflectorService>)
    ensures !IsStringCompleteUnorderedAlphabet(reflectorConfig) ==> r == Err(InvalidAlphabet)
    ensures IsStringCompleteUnorderedAlphabet(reflectorConfig) ==>
      (r.Ok? <==> forall i :: 0 <= i < |reflectorConfig| ==> LetterIndex(reflectorConfig[i]) != i)
    ensures IsStringCompleteUnorderedAlphabet(reflectorConfig) && r.Err? ==> r.error == ReflectorMapIndexToSameIndex
    ensures r.Ok? ==> Valid(r.value) && |r.value.reflectorConfig| == |reflectorConfig|
    ensures r.Ok? ==> forall i :: 0 <= i < |reflectorConfig| ==> r.value.reflectorConfig[i] == LetterIndex(reflectorConfig[i])
  {
    if !IsStringCompleteUnorderedAlphabet(reflectorConfig) then Err(InvalidAlphabet)
    else
      CompleteAlphabetLetters(reflectorConfig);
      AlphabetCharSetSize();
      CompleteAlphabetIsSetEquality(reflectorConfig);
      CharSetAtMostLength(reflectorConfig);
      var table := MapLetterIndexInAlphabetToDifferentOne(reflectorConfig);
      if HasFixedPoint(table) then Err(ReflectorMapIndexToSameIndex)
      else Ok(ReflectorService(table))
  }

  /** `goThroughFromRelativeIndex`: a plain lookup; outside the table the
      source gets `undefined`, here `None`. */
  function GoThroughFromRelativeIndex(r: ReflectorService, index: int): (out: Option<int>)
    ensures out.Some? <==> 0 <= index < |r.reflectorConfig|
    ensures out.Some? ==> out.value == r.reflectorConfig[index]
    ensures Valid(r) && out.Some? ==> 0 <= out.value < ALPHABET_SIZE && out.value != index
  {
    if 0 <= index < |r.reflectorConfig| then Some(r.reflectorConfig[index]) else None
  }

  /** On a constructed reflector every contact 0..25 is sent to a different
      contact 0..25, namely the index of the configured letter. */
  lemma ReflectsToOtherContact(config: string, i: int)
    requires NewReflectorService(config).Ok? && 0 <= i < ALPHABET_SIZE
    ensures GoThroughFromRelativeIndex(NewReflectorService(config).value, i).Some?
    ensures GoThroughFromRelativeIndex(NewReflectorService(config).value, i).value == LetterIndex(config[i])
    ensures LetterIndex(config[i]) != i && 0 <= LetterIndex(config[i]) < ALPHABET_SIZE
  {
  }

  /** "No letter at its own index" from position i on, evaluable on literals. */
  predicate FixedPointFreeFrom(config: string, i: nat)
    decreases |config| - i
  {
    i >= |config| || (LetterIndex(config[i]) != i && FixedPointFreeFrom(config, i + 1))
  }

  lemma {:induction false} FixedPointFreeFromHolds(config: string, i: nat)
    requires FixedPointFreeFrom(config, i)
    ensures forall k :: i <= k < |config| ==> LetterIndex(config[k]) != k
    decreases |config| - i
  {
    if i < |config| {
      FixedPointFreeFromHolds(config, i + 1);
    }
  }

  /** A 26-letter configuration that is its own inverse wiring and has no
      letter at its own index gives an involutive reflector. */
  lemma SelfInverseConfigIsInvolutive(config: string)
    requires IsInverseWiring(config, config) && FixedPointFreeFrom(config, 0)
    ensures NewReflectorService(config).Ok? && Involutive(NewReflectorService(config).value)
  {
    InverseWiringMakesPermutation(config, config);
    FixedPointFreeFromHolds(config, 0);
    var table := NewReflectorService(config).value.reflectorConfig;
    forall i | 0 <= i < ALPHABET_SIZE
      ensures table[table[i]] == i
    {
      assert InverseWiringAt(config, config, i);
    }
  }
}
