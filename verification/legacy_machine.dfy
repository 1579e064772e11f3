/** The machine of the first Enigma engine: three letter-positioned rotors,
    a reflector table keyed by letter, and a current triple of letters
    (libs/enigma-machine/src/lib/enigma-machine.service.ts). */
module LegacyMachine {
  import opened Results
  import opened Alphabet
  import opened LegacyRotor
  import opened LegacyRotorService
  import Rotor
  import RotorService
  import Reflector
  import Machine

  /** `config.rotors` is the triple the machine was built with;
      `currentStateRotors` is the triple it steps. */
  datatype LegacyEnigmaMachine = LegacyEnigmaMachine(
    rotors: seq<LegacyEnigmaRotor>,
    reflector: map<char, int>,
    config: seq<char>,
    currentStateRotors: seq<char>)

  /** `isAlphabetValid(Object.keys(reflector))`: the keys are the 26 letters. */
  predicate ReflectorKeysAreAlphabet(reflector: map<char, int>) {
    |reflector.Keys| == ALPHABET_SIZE && forall c :: IsLetter(c) ==> c in reflector
  }

  /** Every letter of the reflector is sent to a letter index. */
  predicate ReflectorValuesAreIndexes(reflector: map<char, int>) {
    forall c :: c in reflector && IsLetter(c) ==> 0 <= reflector[c] < ALPHABET_SIZE
  }

  predicate IsLetterTriple(s: seq<char>) {
    |s| == Machine.NB_ROTORS_REQUIRED && AllLetters(s)
  }

  /** What every machine built by the constructor keeps satisfying. */
  predicate Valid(m: LegacyEnigmaMachine) {
    |m.rotors| == Machine.NB_ROTORS_REQUIRED &&
    (forall k :: 0 <= k < |m.rotors| ==> LegacyRotorService.Valid(m.rotors[k])) &&
    ReflectorKeysAreAlphabet(m.reflector) && ReflectorValuesAreIndexes(m.reflector) &&
    IsLetterTriple(m.config) && IsLetterTriple(m.currentStateRotors)
  }

  /** The rotors' tables, the reflector and the configuration agree. */
  predicate SameSetup(m: LegacyEnigmaMachine, m': LegacyEnigmaMachine) {
    |m.rotors| == |m'.rotors| &&
    (forall k :: 0 <= k < |m.rotors| ==> m'.rotors[k].alphabetMapping == m.rotors[k].alphabetMapping) &&
    m'.reflector == m.reflector && m'.config == m.config
  }

  /** The letters the rotors sit at. */
  function RotorPositions(rotors: seq<LegacyEnigmaRotor>): (p: seq<char>)
    ensures |p| == |rotors| && forall k :: 0 <= k < |rotors| ==> p[k] == rotors[k].currentRingPosition
  {
    seq(|rotors|, k requires 0 <= k < |rotors| => rotors[k].currentRingPosition)
  }

  /** The constructor: three rotors (`EnigmaMachineRequires3Rotors`), then a
      reflector keyed by the 26 letters (`ReflectorRequiresValidAlphabet`);
      the rotors' positions become both the configuration and the current
      triple. */
  function NewLegacyEnigmaMachine(rotors: seq<LegacyEnigmaRotor>, reflector: map<char, int>): (r: Result<LegacyEnigmaMachine>)
    requires forall k :: 0 <= k < |rotors| ==> LegacyRotorService.Valid(rotors[k])
    requires ReflectorValuesAreIndexes(reflector)
    ensures r.Ok? <==> |rotors| == Machine.NB_ROTORS_REQUIRED && ReflectorKeysAreAlphabet(reflector)
    ensures |rotors| != Machine.NB_ROTORS_REQUIRED ==> r == Err(EnigmaMachineRequires3Rotors)
    ensures |rotors| == Machine.NB_ROTORS_REQUIRED && !ReflectorKeysAreAlphabet(reflector) ==>
      r == Err(ReflectorRequiresValidAlphabet)
    ensures r.Ok? ==> Valid(r.value) && r.value.rotors == rotors && r.value.reflector == reflector
    ensures r.Ok? ==> r.value.config == RotorPositions(rotors) && r.value.currentStateRotors == RotorPositions(rotors)
  {
    if |rotors| != Machine.NB_ROTORS_REQUIRED then Err(EnigmaMachineRequires3Rotors)
    else if !ReflectorKeysAreAlphabet(reflector) then Err(ReflectorRequiresValidAlphabet)
    else
      var positions := RotorPositions(rotors);
      Ok(LegacyEnigmaMachine(rotors, reflector, positions, positions))
  }

  /** The private `goToNextRotorCombination`: the current triple moves one
      step, while the rotors are set to the triple from BEFORE the step. */
  function GoToNextRotorCombination(m: LegacyEnigmaMachine): (m': LegacyEnigmaMachine)
    requires Valid(m)
    ensures Valid(m') && SameSetup(m, m')
    ensures LetterIndexes(m'.currentStateRotors) == Rotor.GoToNextRotorCombination(LetterIndexes(m.currentStateRotors))
    ensures RotorPositions(m'.rotors) == m.currentStateRotors
  {
    var state := m.currentStateRotors;
    var newStateRotors := LegacyRotor.GoToNextRotorCombination(state);
    StepIsTheDigitStep(state);
    var rotors := seq(Machine.NB_ROTORS_REQUIRED, k requires 0 <= k < Machine.NB_ROTORS_REQUIRED =>
      SetCurrentRingPosition(m.rotors[k], state[k]));
    m.(currentStateRotors := newStateRotors, rotors := rotors)
  }

  /** The `flow` of `encryptLetter`: rotors 0-1-2 left to right, the
      reflector looked up by the letter at the relative index, rotors 2-1-0
      right to left, then the letter at the final index. */
  function EncodeLetter(m: LegacyEnigmaMachine, letter: char): (out: char)
    requires Valid(m) && IsLetter(letter)
    ensures IsLetter(out)
  {
    var a := LeftToRight(m.rotors[Machine.INDEX_ROTOR_0], LetterIndex(letter));
    var b := LeftToRight(m.rotors[Machine.INDEX_ROTOR_1], a);
    var c := LeftToRight(m.rotors[Machine.INDEX_ROTOR_2], b);
    var d := m.reflector[LetterAt(c)];
    var e := RightToLeft(m.rotors[Machine.INDEX_ROTOR_2], d);
    var f := RightToLeft(m.rotors[Machine.INDEX_ROTOR_1], e);
    var g := RightToLeft(m.rotors[Machine.INDEX_ROTOR_0], f);
    LetterAt(g)
  }

  /** `encryptLetter`: `InvalidLetter` for anything but a letter, with the
      machine untouched; else step, then encode. */
  function EncryptLetter(m: LegacyEnigmaMachine, letter: char): (r: (LegacyEnigmaMachine, Result<char>))
    requires Valid(m)
    ensures Valid(r.0) && SameSetup(m, r.0)
    ensures r.1.Ok? <==> IsLetter(letter)
    ensures r.1.Err? ==> r.1.error == InvalidLetter && r.0 == m
    ensures r.1.Ok? ==> r.0 == GoToNextRotorCombination(m) && IsLetter(r.1.value)
    ensures r.1.Ok? ==> RotorPositions(r.0.rotors) == m.currentStateRotors
  {
    if !IsValidAlphabetLetter([letter]) then (m, Err(InvalidLetter))
    else
      var m' := GoToNextRotorCombination(m);
      (m', Ok(EncodeLetter(m', letter)))
  }

  /** `encryptMessage`: character by character, a space stays a space and
      anything else goes through `encryptLetter`. Unlike the current engine
      there is no lower-casing and no reset: the machine carries on from
      where the previous message left it. */
  function EncryptMessage(m: LegacyEnigmaMachine, message: string): (r: (LegacyEnigmaMachine, Result<string>))
    requires Valid(m)
    ensures Valid(r.0) && SameSetup(m, r.0)
    ensures r.1.Ok? <==> Machine.IsEncryptable(message)
    ensures r.1.Err? ==> r.1.error == InvalidLetter
    ensures r.1.Ok? ==> Machine.KeepsSpaces(message, r.1.value)
    decreases |message|
  {
    if |message| == 0 then (m, Ok([]))
    else
      var (m1, head) :=
        if message[0] == Machine.SPACE then (m, Ok(Machine.SPACE)) else EncryptLetter(m, message[0]);
      Machine.EncryptableCons(message);
      if head.Err? then (m1, Err(head.error))
      else
        var (m2, tail) := EncryptMessage(m1, message[1..]);
        if tail.Err? then (m2, Err(tail.error))
        else
          Machine.KeepsSpacesCons(message, head.value, tail.value);
          (m2, Ok([head.value] + tail.value))
  }

  // ---------------------------------------------------------------------
  // What a message does to the machine.

  /** After a message of letters and spaces the current triple is k steps
      further, k the number of keys pressed. */
  lemma {:induction false} EncryptMessageFinalState(m: LegacyEnigmaMachine, message: string)
    requires Valid(m) && Machine.IsEncryptable(message)
    ensures LetterIndexes(EncryptMessage(m, message).0.currentStateRotors)
         == Rotor.StepN(LetterIndexes(m.currentStateRotors), Machine.KeyPresses(message))
    decreases |message|
  {
    if |message| > 0 {
      Machine.EncryptableCons(message);
      var t := LetterIndexes(m.currentStateRotors);
      if message[0] == Machine.SPACE {
        EncryptMessageFinalState(m, message[1..]);
      } else {
        var m1 := GoToNextRotorCombination(m);
        EncryptMessageFinalState(m1, message[1..]);
        Rotor.StepNAfterStep(t, Machine.KeyPresses(message[1..]));
      }
    }
  }

  /** The machine after the first character of a message. */
  function AfterHead(m: LegacyEnigmaMachine, s: string): (m1: LegacyEnigmaMachine)
    requires Valid(m) && |s| > 0
    ensures Valid(m1) && SameSetup(m, m1)
  {
    if s[0] == Machine.SPACE then m else GoToNextRotorCombination(m)
  }

  /** The message read from its head: the head's output, then the tail from
      the machine after the head. */
  lemma EncryptMessageCons(m: LegacyEnigmaMachine, s: string)
    requires Valid(m) && |s| > 0 && (s[0] == Machine.SPACE || IsLetter(s[0]))
    ensures EncryptMessage(m, s).0 == EncryptMessage(AfterHead(m, s), s[1..]).0
    ensures EncryptMessage(m, s).1
         == (var tail := EncryptMessage(AfterHead(m, s), s[1..]).1;
             var head := if s[0] == Machine.SPACE then Machine.SPACE else EncodeLetter(AfterHead(m, s), s[0]);
             if tail.Ok? then Ok([head] + tail.value) else tail)
  {
  }

  /** No reset: a message split in two leaves the machine where the second
      part, encrypted after the first, leaves it. */
  lemma {:induction false} EncryptMessageContinues(m: LegacyEnigmaMachine, a: string, b: string)
    requires Valid(m) && Machine.IsEncryptable(a)
    ensures EncryptMessage(m, a + b).0 == EncryptMessage(EncryptMessage(m, a).0, b).0
    decreases |a|
  {
    if |a| > 0 {
      Machine.EncryptableCons(a);
      var ab := a + b;
      assert ab[0] == a[0] && ab[1..] == a[1..] + b;
      EncryptMessageCons(m, ab);
      EncryptMessageCons(m, a);
      var m1 := AfterHead(m, a);
      EncryptMessageContinues(m1, a[1..], b);
    } else {
      assert a + b == b;
    }
  }

  /** ... and the text of the whole is the text of the first part followed
      by the text of the second. */
  lemma {:induction false} EncryptMessageConcatenates(m: LegacyEnigmaMachine, a: string, b: string)
    requires Valid(m) && Machine.IsEncryptable(a) && Machine.IsEncryptable(b)
    ensures EncryptMessage(m, a + b).1 == Ok(EncryptMessage(m, a).1.value + EncryptMessage(EncryptMessage(m, a).0, b).1.value)
    decreases |a|
  {
    if |a| > 0 {
      Machine.EncryptableCons(a);
      var ab := a + b;
      assert ab[0] == a[0] && ab[1..] == a[1..] + b;
      var m1 := AfterHead(m, a);
      EncryptMessageConcatenates(m1, a[1..], b);
      EncryptMessageCons(m, ab);
      EncryptMessageCons(m, a);
      var restA := EncryptMessage(m1, a[1..]).1.value;
      var tailB := EncryptMessage(EncryptMessage(m1, a[1..]).0, b).1.value;
      var head := if a[0] == Machine.SPACE then Machine.SPACE else EncodeLetter(m1, a[0]);
      assert EncryptMessage(m1, a[1..] + b).1 == Ok(restA + tailB);
      assert EncryptMessage(m, ab).1 == Ok([head] + (restA + tailB));
      assert EncryptMessage(m, a).1 == Ok([head] + restA);
      ConsAssociates(head, restA, tailB);
      assert EncryptMessage(m, a).0 == EncryptMessage(m1, a[1..]).0;
      assert EncryptMessage(EncryptMessage(m, a).0, b).1.value == tailB;
    } else {
      assert a + b == b;
      assert EncryptMessage(m, a) == (m, Ok([]));
      var t := EncryptMessage(m, b).1.value;
      assert [] + t == t;
    }
  }

  lemma ConsAssociates(h: char, x: string, y: string)
    ensures [h] + (x + y) == ([h] + x) + y
  {
  }

  // ---------------------------------------------------------------------
  // The legacy engine against the current one.

  /** A legacy and a current machine built from the same three wirings and
      the same reflector wiring; positions are not part of it. */
  predicate SameWirings(l: LegacyEnigmaMachine, m: Machine.EnigmaMachine, wirings: seq<string>, reflectorWiring: string) {
    Valid(l) && Machine.Valid(m) && |wirings| == Machine.NB_ROTORS_REQUIRED &&
    (forall k :: 0 <= k < Machine.NB_ROTORS_REQUIRED ==>
      IsPermutation(wirings[k]) && AllLetters(wirings[k]) &&
      MapScrambledAlphabetToRotorIndexOutput(wirings[k]).Ok? &&
      l.rotors[k].alphabetMapping == MapScrambledAlphabetToRotorIndexOutput(wirings[k]).value &&
      m.rotors[k].rotor == Rotor.CreateBiMapFromAlphabet(wirings[k])) &&
    Reflector.NewReflectorService(reflectorWiring).Ok? &&
    m.reflector == Reflector.NewReflectorService(reflectorWiring).value &&
    (forall i :: 0 <= i < ALPHABET_SIZE ==> l.reflector[LetterAt(i)] == LetterIndex(reflectorWiring[i]))
  }

  /** Both machines keep their wirings and reflectors while they run. */
  lemma SameWiringsKept(l: LegacyEnigmaMachine, m: Machine.EnigmaMachine, l': LegacyEnigmaMachine, m': Machine.EnigmaMachine,
                        wirings: seq<string>, reflectorWiring: string)
    requires SameWirings(l, m, wirings, reflectorWiring)
    requires Valid(l') && SameSetup(l, l') && Machine.Valid(m') && Machine.SameSetup(m, m')
    ensures SameWirings(l', m', wirings, reflectorWiring)
  {
  }

  /** Rotor k of both machines is the same rotor at the same position when
      the legacy rotors sit at the letters of the current triple. */
  lemma SameRotorAt(l: LegacyEnigmaMachine, m: Machine.EnigmaMachine, wirings: seq<string>, reflectorWiring: string, k: int)
    requires SameWirings(l, m, wirings, reflectorWiring)
    requires LetterIndexes(RotorPositions(l.rotors)) == m.currentStateRotors
    requires 0 <= k < Machine.NB_ROTORS_REQUIRED
    ensures SameRotor(l.rotors[k], m.rotors[k], wirings[k])
  {
    assert LetterIndexes(RotorPositions(l.rotors))[k] == LetterIndex(l.rotors[k].currentRingPosition);
  }

  /** Looking the reflector up by letter gives what the current reflector
      gives for the letter's index. */
  lemma ReflectorAgrees(l: LegacyEnigmaMachine, m: Machine.EnigmaMachine, wirings: seq<string>, reflectorWiring: string, i: int)
    requires SameWirings(l, m, wirings, reflectorWiring) && 0 <= i < ALPHABET_SIZE
    ensures l.reflector[LetterAt(i)] == Machine.Reflect(m, i)
  {
  }

  /** With the rotors at the same positions, both machines encode every
      letter alike. */
  lemma EncodeAgrees(l: LegacyEnigmaMachine, m: Machine.EnigmaMachine, wirings: seq<string>, reflectorWiring: string, letter: char)
    requires SameWirings(l, m, wirings, reflectorWiring)
    requires LetterIndexes(RotorPositions(l.rotors)) == m.currentStateRotors
    requires IsLetter(letter)
    ensures EncodeLetter(l, letter) == Machine.EncodeLetterThroughMachine(m, letter)
  {
    SameRotorAt(l, m, wirings, reflectorWiring, 0);
    SameRotorAt(l, m, wirings, reflectorWiring, 1);
    SameRotorAt(l, m, wirings, reflectorWiring, 2);
    var x := LetterIndex(letter);
    PassesAgreeWithCurrentRotor(l.rotors[0], m.rotors[0], wirings[0], x);
    var a := LeftToRight(l.rotors[0], x);
    PassesAgreeWithCurrentRotor(l.rotors[1], m.rotors[1], wirings[1], a);
    var b := LeftToRight(l.rotors[1], a);
    PassesAgreeWithCurrentRotor(l.rotors[2], m.rotors[2], wirings[2], b);
    var c := LeftToRight(l.rotors[2], b);
    assert c == Machine.Forward(m, x);
    ReflectorAgrees(l, m, wirings, reflectorWiring, c);
    var d := l.reflector[LetterAt(c)];
    PassesAgreeWithCurrentRotor(l.rotors[2], m.rotors[2], wirings[2], d);
    var e := RightToLeft(l.rotors[2], d);
    PassesAgreeWithCurrentRotor(l.rotors[1], m.rotors[1], wirings[1], e);
    var f := RightToLeft(l.rotors[1], e);
    PassesAgreeWithCurrentRotor(l.rotors[0], m.rotors[0], wirings[0], f);
  }

  /** The legacy machine encodes with its rotors at the triple from before
      its step: it is in step with a current machine whose triple is one
      step behind its own. */
  predicate InStep(l: LegacyEnigmaMachine, m: Machine.EnigmaMachine, wirings: seq<string>, reflectorWiring: string) {
    SameWirings(l, m, wirings, reflectorWiring) &&
    LetterIndexes(l.currentStateRotors) == Rotor.GoToNextRotorCombination(m.currentStateRotors)
  }

  /** One character: the same output or the same error, and the machines
      stay in step. */
  lemma EncryptLetterAgrees(l: LegacyEnigmaMachine, m: Machine.EnigmaMachine, wirings: seq<string>, reflectorWiring: string, letter: char)
    requires InStep(l, m, wirings, reflectorWiring)
    ensures EncryptLetter(l, letter).1 == Machine.EncryptLetter(m, letter).1
    ensures InStep(EncryptLetter(l, letter).0, Machine.EncryptLetter(m, letter).0, wirings, reflectorWiring)
  {
    if IsLetter(letter) {
      var l' := GoToNextRotorCombination(l);
      var m' := Machine.Step(m);
      SameWiringsKept(l, m, l', m', wirings, reflectorWiring);
      EncodeAgrees(l', m', wirings, reflectorWiring, letter);
    }
  }

  /** A space passes through; anything else goes through `encryptLetter`. */
  function CharStep(l: LegacyEnigmaMachine, c: char): (r: (LegacyEnigmaMachine, Result<char>))
    requires Valid(l)
    ensures Valid(r.0) && SameSetup(l, r.0)
  {
    if c == Machine.SPACE then (l, Ok(Machine.SPACE)) else EncryptLetter(l, c)
  }

  function CurrentCharStep(m: Machine.EnigmaMachine, c: char): (r: (Machine.EnigmaMachine, Result<char>))
    requires Machine.Valid(m)
    ensures Machine.Valid(r.0) && Machine.SameSetup(m, r.0)
  {
    if c == Machine.SPACE then (m, Ok(Machine.SPACE)) else Machine.EncryptLetter(m, c)
  }

  /** The first error, else the head before the tail. */
  function Combine(head: Result<char>, tail: Result<string>): Result<string> {
    if head.Err? then Err(head.error) else if tail.Err? then Err(tail.error) else Ok([head.value] + tail.value)
  }

  lemma LegacyUnfold(l: LegacyEnigmaMachine, s: string)
    requires Valid(l) && |s| > 0
    ensures var (l1, h) := CharStep(l, s[0]);
      EncryptMessage(l, s) == (if h.Err? then (l1, Err(h.error))
                               else (EncryptMessage(l1, s[1..]).0, Combine(h, EncryptMessage(l1, s[1..]).1)))
  {
  }

  lemma CurrentUnfold(m: Machine.EnigmaMachine, s: string)
    requires Machine.Valid(m) && |s| > 0
    ensures var (m1, h) := CurrentCharStep(m, s[0]);
      Machine.EncryptChars(m, s) == (if h.Err? then (m1, Err(h.error))
                                     else (Machine.EncryptChars(m1, s[1..]).0, Combine(h, Machine.EncryptChars(m1, s[1..]).1)))
  {
  }

  /** A whole message: the legacy machine gives what the current engine's
      character loop gives from a triple one step behind, errors included,
      and both end in step. */
  lemma {:induction false} EncryptMessageAgrees(l: LegacyEnigmaMachine, m: Machine.EnigmaMachine, wirings: seq<string>, reflectorWiring: string, s: string)
    requires InStep(l, m, wirings, reflectorWiring)
    ensures EncryptMessage(l, s).1 == Machine.EncryptChars(m, s).1
    ensures InStep(EncryptMessage(l, s).0, Machine.EncryptChars(m, s).0, wirings, reflectorWiring)
    decreases |s|
  {
    if |s| > 0 {
      LegacyUnfold(l, s);
      CurrentUnfold(m, s);
      if s[0] != Machine.SPACE {
        EncryptLetterAgrees(l, m, wirings, reflectorWiring, s[0]);
      }
      var l1 := CharStep(l, s[0]).0;
      var m1 := CurrentCharStep(m, s[0]).0;
      EncryptMessageAgrees(l1, m1, wirings, reflectorWiring, s[1..]);
    }
  }

  /** The current engine's `encryptMessage` resets and lower-cases first; on
      a message of letters and spaces, from an initial triple one step
      behind the legacy machine's current triple, both give the same text. */
  lemma LegacyEncryptsLikeCurrent(l: LegacyEnigmaMachine, m: Machine.EnigmaMachine, wirings: seq<string>, reflectorWiring: string, s: string)
    requires SameWirings(l, m, wirings, reflectorWiring) && Machine.IsEncryptable(s)
    requires LetterIndexes(l.currentStateRotors) == Rotor.GoToNextRotorCombination(m.initialStateRotors)
    ensures EncryptMessage(l, s).1 == Machine.EncryptMessage(m, s).1
  {
    var m0 := Machine.ResetCurrentStateRotorsToInitialState(m);
    SameWiringsKept(l, m, l, m0, wirings, reflectorWiring);
    assert Machine.LowerCase(s) == s;
    EncryptMessageAgrees(l, m0, wirings, reflectorWiring, s);
  }

  // ---------------------------------------------------------------------
  // Reciprocity of the legacy machine.

  /** The rotors' two tables undo each other. */
  predicate RotorsAreInvertible(l: LegacyEnigmaMachine)
    requires Valid(l)
  {
    forall k :: 0 <= k < Machine.NB_ROTORS_REQUIRED ==> AreInverseTables(l.rotors[k].alphabetMapping)
  }

  /** The reflector swaps letters in pairs. */
  predicate ReflectorIsInvolutive(l: LegacyEnigmaMachine)
    requires Valid(l)
  {
    forall c :: IsLetter(c) ==> l.reflector[LetterAt(l.reflector[c])] == LetterIndex(c)
  }

  lemma SameSetupKeepsReciprocal(l: LegacyEnigmaMachine, l': LegacyEnigmaMachine)
    requires Valid(l) && Valid(l') && SameSetup(l, l')
    requires RotorsAreInvertible(l) && ReflectorIsInvolutive(l)
    ensures RotorsAreInvertible(l') && ReflectorIsInvolutive(l')
  {
  }

  /** At a fixed position, encoding the output gives the letter back. */
  lemma EncodeLetterIsReciprocal(l: LegacyEnigmaMachine, letter: char)
    requires Valid(l) && RotorsAreInvertible(l) && ReflectorIsInvolutive(l) && IsLetter(letter)
    ensures EncodeLetter(l, EncodeLetter(l, letter)) == letter
  {
    var r0, r1, r2 := l.rotors[0], l.rotors[1], l.rotors[2];
    var x := LetterIndex(letter);
    var a := LeftToRight(r0, x);
    var b := LeftToRight(r1, a);
    var c := LeftToRight(r2, b);
    var d := l.reflector[LetterAt(c)];
    var e := RightToLeft(r2, d);
    var f := RightToLeft(r1, e);
    var g := RightToLeft(r0, f);
    RoundTrip(r0, f);
    RoundTrip(r1, e);
    RoundTrip(r2, d);
    assert l.reflector[LetterAt(d)] == c;
    RoundTrip(r2, b);
    RoundTrip(r1, a);
    RoundTrip(r0, x);
  }

  /** Reciprocity of the legacy machine: the ciphertext, typed into a
      machine in the same state as the one that produced it, gives the
      message back and leaves the same state. */
  lemma {:induction false} EncryptMessageIsReciprocal(l: LegacyEnigmaMachine, s: string)
    requires Valid(l) && RotorsAreInvertible(l) && ReflectorIsInvolutive(l) && Machine.IsEncryptable(s)
    ensures EncryptMessage(l, EncryptMessage(l, s).1.value) == (EncryptMessage(l, s).0, Ok(s))
    decreases |s|
  {
    if |s| > 0 {
      Machine.EncryptableCons(s);
      var c := EncryptMessage(l, s).1.value;
      LegacyUnfold(l, s);
      var l1 := CharStep(l, s[0]).0;
      assert c[1..] == EncryptMessage(l1, s[1..]).1.value;
      LegacyUnfold(l, c);
      SameSetupKeepsReciprocal(l, l1);
      if s[0] != Machine.SPACE {
        EncodeLetterIsReciprocal(l1, s[0]);
      }
      EncryptMessageIsReciprocal(l1, s[1..]);
      ConsSplits(c);
      ConsSplits(s);
    }
  }

  lemma ConsSplits(s: string)
    requires |s| > 0
    ensures [s[0]] + s[1..] == s
  {
  }
}
