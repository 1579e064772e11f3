/** The machine: three rotors and a reflector, an initial and a current
    triple of ring positions (libs/enigma/enigma-machine/src/lib/enigma-machine.service.ts).
    The reactive state of the source is collapsed into one record: every
    change of the current triple is pushed into the rotors at once, as the
    source's synchronous subscription does. */
module Machine {
  import opened Results
  import opened Alphabet
  import opened Rotor
  import opened RotorService
  import opened Reflector

  const NB_ROTORS_REQUIRED: int := 3
  const INDEX_ROTOR_0: int := 0
  const INDEX_ROTOR_1: int := 1
  const INDEX_ROTOR_2: int := 2

  const SPACE: char := ' '
  /** The one character outside 'A'..'Z' whose lower-case form is a letter
      of the alphabet: U+212A KELVIN SIGN lower-cases to 'k'. */
  const KELVIN_SIGN: char := '\U{212A}'

  datatype EnigmaMachine = EnigmaMachine(
    rotors: seq<EnigmaRotor>,
    reflector: ReflectorService,
    initialStateRotors: seq<int>,
    currentStateRotors: seq<int>)

  /** Rotor k sits at position state[k]. */
  predicate RotorsMirror(rotors: seq<EnigmaRotor>, state: seq<int>) {
    |rotors| == |state| && forall k :: 0 <= k < |rotors| ==> rotors[k].currentRingPosition == state[k]
  }

  /** What every reachable machine satisfies: three working rotors that sit
      at the current triple, a working reflector, two triples of digits. */
  predicate Valid(m: EnigmaMachine) {
    |m.rotors| == NB_ROTORS_REQUIRED &&
    (forall k :: 0 <= k < |m.rotors| ==> RotorService.Valid(m.rotors[k])) &&
    Reflector.Valid(m.reflector) &&
    IsTriple(m.initialStateRotors) && IsTriple(m.currentStateRotors) &&
    RotorsMirror(m.rotors, m.currentStateRotors)
  }

  /** Everything but the current triple and the rotor positions agrees:
      same wirings, same reflector, same initial triple. */
  predicate SameSetup(m: EnigmaMachine, m': EnigmaMachine) {
    |m.rotors| == |m'.rotors| &&
    (forall k :: 0 <= k < |m.rotors| ==> m'.rotors[k].rotor == m.rotors[k].rotor) &&
    m'.reflector == m.reflector && m'.initialStateRotors == m.initialStateRotors
  }

  /** The constructor: exactly three rotors, whose positions become both the
      initial and the current triple. */
  function NewEnigmaMachine(rotors: seq<EnigmaRotor>, reflector: ReflectorService): (r: Result<EnigmaMachine>)
    requires forall k :: 0 <= k < |rotors| ==> RotorService.Valid(rotors[k])
    requires Reflector.Valid(reflector)
    ensures r.Ok? <==> |rotors| == NB_ROTORS_REQUIRED
    ensures r.Err? ==> r.error == EnigmaMachineRequires3Rotors
    ensures r.Ok? ==> Valid(r.value) && r.value.rotors == rotors && r.value.reflector == reflector
    ensures r.Ok? ==> r.value.currentStateRotors == r.value.initialStateRotors
    ensures r.Ok? ==> RotorsMirror(rotors, r.value.initialStateRotors)
  {
    if |rotors| != NB_ROTORS_REQUIRED then Err(EnigmaMachineRequires3Rotors)
    else
      var initialStateRotors := seq(NB_ROTORS_REQUIRED, k requires 0 <= k < NB_ROTORS_REQUIRED => GetCurrentRingPosition(rotors[k]));
      Ok(EnigmaMachine(rotors, reflector, initialStateRotors, initialStateRotors))
  }

  /** A new current triple, pushed into the rotors. */
  function WithCurrentState(m: EnigmaMachine, state: seq<int>): (m': EnigmaMachine)
    requires Valid(m) && IsTriple(state)
    ensures Valid(m') && SameSetup(m, m')
    ensures m'.currentStateRotors == state
  {
    var rotors := seq(NB_ROTORS_REQUIRED, k requires 0 <= k < NB_ROTORS_REQUIRED =>
      SetCurrentRingPosition(m.rotors[k], state[k]).value);
    m.(rotors := rotors, currentStateRotors := state)
  }

  /** Pushing a triple only depends on the setup, not on the triple before. */
  lemma WithCurrentStateOfSameSetup(m: EnigmaMachine, m': EnigmaMachine, state: seq<int>)
    requires Valid(m) && Valid(m') && SameSetup(m, m') && IsTriple(state)
    ensures WithCurrentState(m', state) == WithCurrentState(m, state)
  {
  }

  /** `resetCurrentStateRotorsToInitialState`. */
  function ResetCurrentStateRotorsToInitialState(m: EnigmaMachine): (m': EnigmaMachine)
    requires Valid(m)
    ensures Valid(m') && SameSetup(m, m')
    ensures m'.currentStateRotors == m.initialStateRotors
  {
    WithCurrentState(m, m.initialStateRotors)
  }

  /** `goToNextRotorCombination`: one step of the odometer. */
  function Step(m: EnigmaMachine): (m': EnigmaMachine)
    requires Valid(m)
    ensures Valid(m') && SameSetup(m, m')
    ensures m'.currentStateRotors == StepN(m.currentStateRotors, 1)
  {
    WithCurrentState(m, GoToNextRotorCombination(m.currentStateRotors))
  }

  /** The rotor passes on the way to the reflector: rotor 0, 1 then 2. */
  function Forward(m: EnigmaMachine, x: int): (y: int)
    requires Valid(m) && 0 <= x < ALPHABET_SIZE
    ensures 0 <= y < ALPHABET_SIZE
  {
    var a := GoThroughRotorLeftToRight(m.rotors[INDEX_ROTOR_0], x);
    var b := GoThroughRotorLeftToRight(m.rotors[INDEX_ROTOR_1], a);
    GoThroughRotorLeftToRight(m.rotors[INDEX_ROTOR_2], b)
  }

  /** The rotor passes on the way back: rotor 2, 1 then 0. */
  function Backward(m: EnigmaMachine, y: int): (x: int)
    requires Valid(m) && 0 <= y < ALPHABET_SIZE
    ensures 0 <= x < ALPHABET_SIZE
  {
    var a := GoThroughRotorRightToLeft(m.rotors[INDEX_ROTOR_2], y);
    var b := GoThroughRotorRightToLeft(m.rotors[INDEX_ROTOR_1], a);
    GoThroughRotorRightToLeft(m.rotors[INDEX_ROTOR_0], b)
  }

  /** The reflector seen from the signal: a contact 0..25 of a working
      reflector is always in its table. */
  function Reflect(m: EnigmaMachine, x: int): (y: int)
    requires Valid(m) && 0 <= x < ALPHABET_SIZE
    ensures 0 <= y < ALPHABET_SIZE && y != x
    ensures GoThroughFromRelativeIndex(m.reflector, x) == Some(y)
  {
    GoThroughFromRelativeIndex(m.reflector, x).value
  }

  /** `encodeLetterThroughMachine`: letter index, rotors 0-1-2, reflector,
      rotors 2-1-0, back to a letter. The second `ensures` only unfolds the
      two letter/index conversions so that callers can reason on indexes;
      what the encoding guarantees is stated by `NoLetterEncodesToItself`
      and `EncodingIsReciprocal`. */
  function EncodeLetterThroughMachine(m: EnigmaMachine, letter: char): (out: char)
    requires Valid(m) && IsLetter(letter)
    ensures IsLetter(out)
    ensures out == LetterAt(Backward(m, Reflect(m, Forward(m, LetterIndex(letter)))))
  {
    var index := GetLetterIndexInAlphabet(letter).value;
    var relative := Backward(m, Reflect(m, Forward(m, index)));
    GetLetterFromIndexInAlphabet(relative).value
  }

  /** The rotors' tables describe mutually inverse wirings, as they do for
      every rotor built from a 26-letter wiring. */
  predicate RotorsAreInvertible(m: EnigmaMachine)
    requires Valid(m)
  {
    forall k :: 0 <= k < NB_ROTORS_REQUIRED ==> Invertible(m.rotors[k].rotor)
  }

  /** The way back undoes the way there, in both orders. */
  lemma BackwardUndoesForward(m: EnigmaMachine, x: int)
    requires Valid(m) && RotorsAreInvertible(m) && 0 <= x < ALPHABET_SIZE
    ensures Backward(m, Forward(m, x)) == x
    ensures Forward(m, Backward(m, x)) == x
  {
    var a := GoThroughRotorLeftToRight(m.rotors[INDEX_ROTOR_0], x);
    var b := GoThroughRotorLeftToRight(m.rotors[INDEX_ROTOR_1], a);
    RoundTrip(m.rotors[INDEX_ROTOR_2], b);
    RoundTrip(m.rotors[INDEX_ROTOR_1], a);
    RoundTrip(m.rotors[INDEX_ROTOR_0], x);
    var c := GoThroughRotorRightToLeft(m.rotors[INDEX_ROTOR_2], x);
    var d := GoThroughRotorRightToLeft(m.rotors[INDEX_ROTOR_1], c);
    RoundTrip(m.rotors[INDEX_ROTOR_2], x);
    RoundTrip(m.rotors[INDEX_ROTOR_1], c);
    RoundTrip(m.rotors[INDEX_ROTOR_0], d);
  }

  /** No letter is ever encoded to itself: the way back is injective and
      the reflector has no fixed point. */
  lemma NoLetterEncodesToItself(m: EnigmaMachine, letter: char)
    requires Valid(m) && RotorsAreInvertible(m) && IsLetter(letter)
    ensures EncodeLetterThroughMachine(m, letter) != letter
  {
    var x := LetterIndex(letter);
    var f := Forward(m, x);
    BackwardUndoesForward(m, x);
    BackwardUndoesForward(m, Reflect(m, f));
    BackwardUndoesForward(m, f);
  }

  /** With an involutive reflector, encoding is its own inverse at any
      fixed rotor position. */
  lemma EncodingIsReciprocal(m: EnigmaMachine, letter: char)
    requires Valid(m) && RotorsAreInvertible(m) && Involutive(m.reflector) && IsLetter(letter)
    ensures EncodeLetterThroughMachine(m, EncodeLetterThroughMachine(m, letter)) == letter
  {
    var x := LetterIndex(letter);
    var f := Forward(m, x);
    var r := Reflect(m, f);
    var y := Backward(m, r);
    BackwardUndoesForward(m, r);
    assert Reflect(m, r) == f;
    BackwardUndoesForward(m, x);
  }

  // ---------------------------------------------------------------------
  // Messages.

  /** `toLowerCase` on one character, as far as it decides the outcome:
      'A'..'Z' and the Kelvin sign become letters of the alphabet; no other
      character becomes a letter or a space. */
  function ToLowerCase(c: char): (l: char)
    ensures IsLetter(l) <==> IsLetter(c) || 'A' <= c <= 'Z' || c == KELVIN_SIGN
    ensures l == SPACE <==> c == SPACE
    ensures IsLetter(c) ==> l == c
  {
    if 'A' <= c <= 'Z' then (c as int + ('a' as int - 'A' as int)) as char
    else if c == KELVIN_SIGN then 'k'
    else c
  }

  function LowerCase(s: string): (l: string)
    ensures |l| == |s| && forall i :: 0 <= i < |s| ==> l[i] == ToLowerCase(s[i])
  {
    seq(|s|, i requires 0 <= i < |s| => ToLowerCase(s[i]))
  }

  /** Strings the machine takes without `InvalidLetter`: letters and spaces. */
  predicate IsEncryptable(s: string) {
    forall i :: 0 <= i < |s| ==> s[i] == SPACE || IsLetter(s[i])
  }

  /** The shape of an encrypted text: same length, spaces exactly where the
      input has them, a letter of the alphabet everywhere else. */
  predicate KeepsSpaces(s: string, out: string) {
    |out| == |s| &&
    forall i :: 0 <= i < |s| ==> (out[i] == SPACE <==> s[i] == SPACE) && (s[i] != SPACE ==> IsLetter(out[i]))
  }

  lemma KeepsSpacesCons(s: string, d: char, out: string)
    requires |s| > 0 && KeepsSpaces(s[1..], out)
    requires (d == SPACE <==> s[0] == SPACE) && (s[0] != SPACE ==> IsLetter(d))
    ensures KeepsSpaces(s, [d] + out)
  {
    assert forall i :: 1 <= i < |s| ==> s[i] == s[1..][i - 1] && ([d] + out)[i] == out[i - 1];
  }

  lemma EncryptableCons(s: string)
    requires |s| > 0
    ensures IsEncryptable(s) <==> IsEncryptable(s[1..]) && (s[0] == SPACE || IsLetter(s[0]))
  {
    assert forall i :: 1 <= i < |s| ==> s[i] == s[1..][i - 1];
  }

  /** Number of keys pressed: every character but the spaces. */
  function KeyPresses(s: string): (n: nat)
    ensures n <= |s|
  {
    if |s| == 0 then 0 else (if s[0] == SPACE then 0 else 1) + KeyPresses(s[1..])
  }

  /** `encryptLetter`: check the letter, step, then encode. */
  function EncryptLetter(m: EnigmaMachine, letter: char): (r: (EnigmaMachine, Result<char>))
    requires Valid(m)
    ensures Valid(r.0) && SameSetup(m, r.0)
    ensures r.1.Ok? <==> IsValidAlphabetLetter([letter])
    ensures r.1.Err? ==> r.1.error == InvalidLetter && r.0 == m
    ensures r.1.Ok? ==> r.0 == Step(m) && r.1.value == EncodeLetterThroughMachine(Step(m), letter)
  {
    if !IsValidAlphabetLetter([letter]) then (m, Err(InvalidLetter))
    else
      var m' := Step(m);
      (m', Ok(EncodeLetterThroughMachine(m', letter)))
  }

  /** The `map` over the characters of the message: spaces pass through,
      everything else goes through `encryptLetter`. The first invalid
      character aborts the whole message; the steps taken before it stay. */
  function EncryptChars(m: EnigmaMachine, s: string): (r: (EnigmaMachine, Result<string>))
    requires Valid(m)
    ensures Valid(r.0) && SameSetup(m, r.0)
    ensures r.1.Ok? <==> IsEncryptable(s)
    ensures r.1.Err? ==> r.1.error == InvalidLetter
    ensures r.1.Ok? ==> KeepsSpaces(s, r.1.value)
    decreases |s|
  {
    if |s| == 0 then (m, Ok([]))
    else
      var (m1, head) :=
        if s[0] == SPACE then (m, Ok(SPACE)) else EncryptLetter(m, s[0]);
      EncryptableCons(s);
      if head.Err? then (m1, Err(head.error))
      else
        var (m2, tail) := EncryptChars(m1, s[1..]);
        if tail.Err? then (m2, Err(tail.error))
        else
          KeepsSpacesCons(s, head.value, tail.value);
          (m2, Ok([head.value] + tail.value))
  }

  /** `encryptMessage`: reset, lower-case, then encrypt character by
      character. */
  function EncryptMessage(m: EnigmaMachine, message: string): (r: (EnigmaMachine, Result<string>))
    requires Valid(m)
    ensures Valid(r.0) && SameSetup(m, r.0)
    ensures r.1.Ok? <==> IsEncryptable(LowerCase(message))
    ensures r.1.Err? ==> r.1.error == InvalidLetter
    ensures r.1.Ok? ==> KeepsSpaces(message, r.1.value)
  {
    EncryptChars(ResetCurrentStateRotorsToInitialState(m), LowerCase(message))
  }

  /** `setInitialRotorConfig`: each letter becomes its index; an invalid
      letter raises `InvalidLetter`. Only the initial triple changes. */
  function SetInitialRotorConfig(m: EnigmaMachine, initialStateRotors: seq<char>): (r: Result<EnigmaMachine>)
    requires Valid(m) && |initialStateRotors| == NB_ROTORS_REQUIRED
    ensures r.Ok? <==> forall k :: 0 <= k < NB_ROTORS_REQUIRED ==> IsLetter(initialStateRotors[k])
    ensures r.Err? ==> r.error == InvalidLetter
    ensures r.Ok? ==> Valid(r.value)
    ensures r.Ok? ==> r.value.rotors == m.rotors && r.value.reflector == m.reflector
    ensures r.Ok? ==> r.value.currentStateRotors == m.currentStateRotors
    ensures r.Ok? ==> forall k :: 0 <= k < NB_ROTORS_REQUIRED ==>
      r.value.initialStateRotors[k] == LetterIndex(initialStateRotors[k])
  {
    var r0 :- GetLetterIndexInAlphabet(initialStateRotors[INDEX_ROTOR_0]);
    var r1 :- GetLetterIndexInAlphabet(initialStateRotors[INDEX_ROTOR_1]);
    var r2 :- GetLetterIndexInAlphabet(initialStateRotors[INDEX_ROTOR_2]);
    Ok(m.(initialStateRotors := [r0, r1, r2]))
  }

  // ---------------------------------------------------------------------
  // What a message does to the machine and what it produces.

  /** Pushing the triple the rotors already sit at changes nothing. */
  lemma WithOwnState(m: EnigmaMachine)
    requires Valid(m)
    ensures WithCurrentState(m, m.currentStateRotors) == m
  {
    var m' := WithCurrentState(m, m.currentStateRotors);
    assert m'.rotors == m.rotors by {
      forall k | 0 <= k < NB_ROTORS_REQUIRED ensures m'.rotors[k] == m.rotors[k] {
        assert m'.rotors[k].rotor == m.rotors[k].rotor;
      }
    }
  }

  /** One step is the first of the steps counted from the triple. */
  lemma StepIsWithNextState(m: EnigmaMachine)
    requires Valid(m)
    ensures Step(m) == WithCurrentState(m, StepN(m.currentStateRotors, 1))
  {
  }

  lemma KeyPressesOfPrefix(s: string, i: int)
    requires 0 <= i < |s|
    ensures s[..i + 1][1..] == s[1..][..i]
    ensures KeyPresses(s[..i + 1]) == (if s[0] == SPACE then 0 else 1) + KeyPresses(s[1..][..i])
  {
    assert s[..i + 1][1..] == s[1..][..i];
  }

  /** After a message of letters and spaces the machine is where k steps
      from its triple lead, k the number of keys pressed; nothing else has
      changed. */
  lemma {:induction false} EncryptCharsFinalState(m: EnigmaMachine, s: string)
    requires Valid(m) && IsEncryptable(s)
    ensures EncryptChars(m, s).0 == WithCurrentState(m, StepN(m.currentStateRotors, KeyPresses(s)))
    decreases |s|
  {
    if |s| == 0 {
      WithOwnState(m);
    } else {
      EncryptableCons(s);
      EncryptCharsFinalState(AfterHead(m, s), s[1..]);
      EncryptCharsAfterHead(m, s);
      StepsFromHead(m, s);
    }
  }

  /** A valid message goes on from the machine after its head. */
  lemma EncryptCharsAfterHead(m: EnigmaMachine, s: string)
    requires Valid(m) && IsEncryptable(s) && |s| > 0
    ensures IsEncryptable(s[1..])
    ensures EncryptChars(m, s).0 == EncryptChars(AfterHead(m, s), s[1..]).0
  {
    EncryptableCons(s);
  }

  /** Counting the tail's keys from the machine after the head is counting
      all the keys from the machine before it. */
  lemma StepsFromHead(m: EnigmaMachine, s: string)
    requires Valid(m) && |s| > 0
    ensures WithCurrentState(AfterHead(m, s), StepN(AfterHead(m, s).currentStateRotors, KeyPresses(s[1..])))
         == WithCurrentState(m, StepN(m.currentStateRotors, KeyPresses(s)))
  {
    if s[0] != SPACE {
      assert KeyPresses(s) == KeyPresses(s[1..]) + 1;
      StepsFromKey(m, KeyPresses(s[1..]));
    }
  }

  lemma StepsFromKey(m: EnigmaMachine, k: nat)
    requires Valid(m)
    ensures WithCurrentState(Step(m), StepN(Step(m).currentStateRotors, k))
         == WithCurrentState(m, StepN(m.currentStateRotors, k + 1))
  {
    StepNAfterStep(m.currentStateRotors, k);
    WithCurrentStateOfSameSetup(m, Step(m), StepN(m.currentStateRotors, k + 1));
  }

  /** The machine after the first character of s. */
  function AfterHead(m: EnigmaMachine, s: string): (m1: EnigmaMachine)
    requires Valid(m) && |s| > 0
    ensures Valid(m1) && SameSetup(m, m1)
  {
    if s[0] == SPACE then m else Step(m)
  }

  /** Where the keys pressed in s[..i + 1] lead, counted from the machine
      after the head. */
  lemma StepsAfterHead(m: EnigmaMachine, s: string, i: int)
    requires Valid(m) && 0 < i < |s|
    ensures StepN(AfterHead(m, s).currentStateRotors, KeyPresses(s[1..][..i]))
         == StepN(m.currentStateRotors, KeyPresses(s[..i + 1]))
  {
    KeyPressesOfPrefix(s, i);
    if s[0] != SPACE {
      StepNAfterStep(m.currentStateRotors, KeyPresses(s[1..][..i]));
    }
  }

  /** The position-wise reference: a space stays a space; any other
      character is encoded by the machine moved on by the keys pressed up to
      and including it. */
  function CipherReference(m: EnigmaMachine, s: string): (out: string)
    requires Valid(m) && IsEncryptable(s)
    ensures |out| == |s|
  {
    seq(|s|, i requires 0 <= i < |s| =>
      if s[i] == SPACE then SPACE
      else EncodeLetterThroughMachine(WithCurrentState(m, StepN(m.currentStateRotors, KeyPresses(s[..i + 1]))), s[i]))
  }

  /** The reference read from the head: the head's character, then the
      reference of the tail from the machine after the head. */
  lemma CipherReferenceCons(m: EnigmaMachine, s: string)
    requires Valid(m) && IsEncryptable(s) && |s| > 0
    ensures IsEncryptable(s[1..])
    ensures CipherReference(m, s)
         == [if s[0] == SPACE then SPACE else EncodeLetterThroughMachine(Step(m), s[0])]
            + CipherReference(AfterHead(m, s), s[1..])
  {
    EncryptableCons(s);
    var whole := CipherReference(m, s);
    var rest := CipherReference(AfterHead(m, s), s[1..]);
    var head := if s[0] == SPACE then SPACE else EncodeLetterThroughMachine(Step(m), s[0]);
    forall i | 0 <= i < |s|
      ensures whole[i] == ([head] + rest)[i]
    {
      if i == 0 {
        CipherReferenceHead(m, s);
      } else {
        CipherReferenceTail(m, s, i);
      }
    }
  }

  lemma CipherReferenceHead(m: EnigmaMachine, s: string)
    requires Valid(m) && IsEncryptable(s) && |s| > 0
    ensures CipherReference(m, s)[0] == if s[0] == SPACE then SPACE else EncodeLetterThroughMachine(Step(m), s[0])
  {
    KeyPressesOfPrefix(s, 0);
    assert s[1..][..0] == [];
    StepIsWithNextState(m);
  }

  lemma CipherReferenceTail(m: EnigmaMachine, s: string, i: int)
    requires Valid(m) && IsEncryptable(s) && 0 < i < |s|
    ensures IsEncryptable(s[1..])
    ensures CipherReference(m, s)[i] == CipherReference(AfterHead(m, s), s[1..])[i - 1]
  {
    EncryptableCons(s);
    var m1 := AfterHead(m, s);
    assert s[1..][i - 1] == s[i];
    assert s[1..][..i - 1 + 1] == s[1..][..i];
    if s[i] != SPACE {
      StepsAfterHead(m, s, i);
      WithCurrentStateOfSameSetup(m, m1, StepN(m.currentStateRotors, KeyPresses(s[..i + 1])));
    }
  }

  /** `encryptMessage`'s character loop computes the position-wise
      reference. */
  lemma {:induction false} EncryptCharsIsReference(m: EnigmaMachine, s: string)
    requires Valid(m) && IsEncryptable(s)
    ensures EncryptChars(m, s).1 == Ok(CipherReference(m, s))
    decreases |s|
  {
    if |s| > 0 {
      CipherReferenceCons(m, s);
      EncryptCharsIsReference(AfterHead(m, s), s[1..]);
    }
  }

  /** Spaces are not keys, and lower-casing keeps them where they are. */
  lemma {:induction false} KeyPressesOfLowerCase(s: string)
    ensures KeyPresses(LowerCase(s)) == KeyPresses(s)
    decreases |s|
  {
    if |s| > 0 {
      assert LowerCase(s)[1..] == LowerCase(s[1..]);
      KeyPressesOfLowerCase(s[1..]);
    }
  }

  /** After `encryptMessage` the current triple is k steps past the initial
      one, k the number of non-space characters, and the rotors sit there. */
  lemma EncryptMessageFinalState(m: EnigmaMachine, message: string)
    requires Valid(m) && IsEncryptable(LowerCase(message))
    ensures EncryptMessage(m, message).0
         == WithCurrentState(m, StepN(m.initialStateRotors, KeyPresses(message)))
    ensures EncryptMessage(m, message).0.currentStateRotors == StepN(m.initialStateRotors, KeyPresses(message))
  {
    var m0 := ResetCurrentStateRotorsToInitialState(m);
    EncryptCharsFinalState(m0, LowerCase(message));
    KeyPressesOfLowerCase(message);
    WithCurrentStateOfSameSetup(m, m0, StepN(m.initialStateRotors, KeyPresses(message)));
  }

  /** `encryptMessage` is the position-wise reference applied to the
      lower-cased message from the machine reset to its initial triple. */
  lemma EncryptMessageIsReference(m: EnigmaMachine, message: string)
    requires Valid(m) && IsEncryptable(LowerCase(message))
    ensures EncryptMessage(m, message).1
         == Ok(CipherReference(ResetCurrentStateRotorsToInitialState(m), LowerCase(message)))
  {
    EncryptCharsIsReference(ResetCurrentStateRotorsToInitialState(m), LowerCase(message));
  }

  /** Because it starts with a reset, `encryptMessage` called again on the
      machine it leaves behind gives the same text and the same machine. */
  lemma EncryptMessageIsRepeatable(m: EnigmaMachine, message: string)
    requires Valid(m)
    ensures EncryptMessage(EncryptMessage(m, message).0, message) == EncryptMessage(m, message)
  {
    var m1 := EncryptMessage(m, message).0;
    WithCurrentStateOfSameSetup(m, m1, m.initialStateRotors);
  }

  /** Invertible tables are a matter of the setup. */
  lemma SameSetupKeepsInvertible(m: EnigmaMachine, m': EnigmaMachine)
    requires Valid(m) && Valid(m') && SameSetup(m, m') && RotorsAreInvertible(m)
    ensures RotorsAreInvertible(m')
  {
    assert forall k :: 0 <= k < NB_ROTORS_REQUIRED ==> m'.rotors[k].rotor == m.rotors[k].rotor;
  }

  /** With an involutive reflector, encrypting the output from the same
      machine state gives the input back, and leaves the same state. */
  lemma {:induction false} EncryptCharsIsReciprocal(m: EnigmaMachine, s: string)
    requires Valid(m) && RotorsAreInvertible(m) && Involutive(m.reflector) && IsEncryptable(s)
    ensures EncryptChars(m, EncryptChars(m, s).1.value) == (EncryptChars(m, s).0, Ok(s))
    decreases |s|
  {
    if |s| > 0 {
      EncryptableCons(s);
      var c := EncryptChars(m, s).1.value;
      assert c[1..] == EncryptChars(if s[0] == SPACE then m else Step(m), s[1..]).1.value;
      if s[0] == SPACE {
        EncryptCharsIsReciprocal(m, s[1..]);
      } else {
        var m1 := Step(m);
        SameSetupKeepsInvertible(m, m1);
        EncodingIsReciprocal(m1, s[0]);
        NoLetterEncodesToItself(m1, s[0]);
        EncryptCharsIsReciprocal(m1, s[1..]);
      }
      assert [c[0]] + c[1..] == c;
      assert [s[0]] + s[1..] == s;
    }
  }

  /** The output of `encryptMessage` is letters and spaces only, so
      lower-casing leaves it as it is. */
  lemma LowerCaseOfOutput(message: string, out: string)
    requires KeepsSpaces(message, out)
    ensures LowerCase(out) == out && IsEncryptable(out)
  {
  }

  /** Reciprocity of the whole machine: with an involutive reflector,
      `encryptMessage` on the ciphertext, from the machine it leaves behind,
      gives back the lower-cased message. */
  lemma EncryptMessageIsReciprocal(m: EnigmaMachine, message: string)
    requires Valid(m) && RotorsAreInvertible(m) && Involutive(m.reflector)
    requires IsEncryptable(LowerCase(message))
    ensures var (m1, cipher) := EncryptMessage(m, message);
      cipher.Ok? && EncryptMessage(m1, cipher.value) == (m1, Ok(LowerCase(message)))
  {
    var m0 := ResetCurrentStateRotorsToInitialState(m);
    var (m1, cipher) := EncryptMessage(m, message);
    LowerCaseOfOutput(message, cipher.value);
    SameSetupKeepsInvertible(m, m0);
    EncryptCharsIsReciprocal(m0, LowerCase(message));
    WithCurrentStateOfSameSetup(m, m1, m.initialStateRotors);
  }
}
