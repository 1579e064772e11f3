/** The form validator of the application's message and rotor inputs
    (apps/enigma/src/app/common/validators.ts). */
module Validators {
  import opened Results
  import opened Alphabet
  import opened Machine

  /** The error object `{ invalid: true }`; a valid value yields `None`
      (the source's `null`). */
  datatype ValidationError = Invalid

  /** A control's value is falsy when absent or empty. */
  predicate IsFalsy(value: Option<string>) {
    value.None? || value.value == []
  }

  /** The per-character test of the `every`. */
  predicate IsAcceptedChar(acceptSpace: bool, letter: char) {
    (acceptSpace && letter == SPACE) || IsValidAlphabetLetter([letter])
  }

  /** `containsOnlyAlphabetLetters({ acceptSpace })(control)`. */
  function ContainsOnlyAlphabetLetters(acceptSpace: bool, value: Option<string>): (r: Option<ValidationError>)
    ensures IsFalsy(value) ==> r.None?
    ensures !IsFalsy(value) ==>
      (r.None? <==> forall i :: 0 <= i < |value.value| ==>
        IsLetter(ToLowerCase(value.value[i])) || (acceptSpace && value.value[i] == SPACE))
  {
    if IsFalsy(value) then None
    else
      var lowered := LowerCase(value.value);
      var validMessage := forall i :: 0 <= i < |lowered| ==> IsAcceptedChar(acceptSpace, lowered[i]);
      if !validMessage then Some(Invalid) else None
  }

  /** With spaces accepted, the validator accepts exactly the messages the
      machine encrypts without `InvalidLetter`. */
  lemma AcceptsWhatTheMachineEncrypts(m: EnigmaMachine, message: string)
    requires Machine.Valid(m)
    ensures ContainsOnlyAlphabetLetters(true, Some(message)).None? <==> EncryptMessage(m, message).1.Ok?
  {
    if message != [] {
      var lowered := LowerCase(message);
      assert (forall i :: 0 <= i < |lowered| ==> IsAcceptedChar(true, lowered[i])) <==> IsEncryptable(lowered);
    }
  }

  /** Without `acceptSpace`, a value with a space is invalid; upper-case
      letters are accepted either way. */
  lemma SpacesAndUpperCase(acceptSpace: bool, value: string, i: int)
    ensures 0 <= i < |value| && value[i] == SPACE ==>
      ContainsOnlyAlphabetLetters(false, Some(value)) == Some(Invalid)
    ensures (forall k :: 0 <= k < |value| ==> 'A' <= value[k] <= 'Z') ==>
      ContainsOnlyAlphabetLetters(acceptSpace, Some(value)).None?
  {
    if 0 <= i < |value| && value[i] == SPACE {
      assert !IsLetter(ToLowerCase(value[i]));
    }
  }
}
