/** The letter arithmetic of the first Enigma engine
    (libs/enigma-utility/src/lib/alphabet.ts). Its `isValidAlphabetLetter`
    (the same plain-object lookup), `isAlphabetValid` (the same
    complete-alphabet check) and `stringToAlphabet` are those of the
    current engine and are shared through the `Alphabet` module. Its `getLetterIndexInAlphabet` is
    `charCodeAt(0) - 97` without any validation, which is
    `Alphabet.LetterIndex`, not the current engine's checked
    `GetLetterIndexInAlphabet`. */
module LegacyAlphabet {
  import opened Alphabet

  /** `getNextLetter`: the following letter, 'z' wrapping to 'a'. */
  function GetNextLetter(letter: char): (next: char)
    requires IsLetter(letter)
    ensures IsLetter(next)
    ensures LetterIndex(next) == (LetterIndex(letter) + 1) % ALPHABET_SIZE
  {
    if letter == 'z' then 'a' else (letter as int + 1) as char
  }

  /** `getLetterPlusXAlphabetLoop`: `toAdd` calls of `getNextLetter`. The
      recursion only ends for a non-negative count. */
  function GetLetterPlusXAlphabetLoop(letter: char, toAdd: nat): (r: char)
    requires IsLetter(letter)
    ensures IsLetter(r)
    ensures LetterIndex(r) == (LetterIndex(letter) + toAdd) % ALPHABET_SIZE
    decreases toAdd
  {
    if toAdd == 0 then letter
    else
      var next := GetNextLetter(letter);
      var r := GetLetterPlusXAlphabetLoop(next, toAdd - 1);
      ShiftOfShift(LetterIndex(letter), toAdd - 1);
      r
  }

  lemma ShiftOfShift(a: int, b: int)
    ensures ((a + 1) % ALPHABET_SIZE + b) % ALPHABET_SIZE == (a + b + 1) % ALPHABET_SIZE
  {
  }

  /** Letters are the same when their indexes are. */
  lemma SameIndexSameLetter(c: char, d: char)
    requires IsLetter(c) && IsLetter(d) && LetterIndex(c) == LetterIndex(d)
    ensures c == d
  {
  }

  /** Adding a count is a rotation of the alphabet: after 26 the letter is
      back, and the result is the letter at the shifted index. */
  lemma PlusXIsRotation(letter: char, toAdd: nat)
    requires IsLetter(letter)
    ensures GetLetterPlusXAlphabetLoop(letter, toAdd) == LetterAt((LetterIndex(letter) + toAdd) % ALPHABET_SIZE)
    ensures GetLetterPlusXAlphabetLoop(letter, toAdd + ALPHABET_SIZE) == GetLetterPlusXAlphabetLoop(letter, toAdd)
  {
    var r := GetLetterPlusXAlphabetLoop(letter, toAdd);
    SameIndexSameLetter(r, LetterAt((LetterIndex(letter) + toAdd) % ALPHABET_SIZE));
    SameIndexSameLetter(GetLetterPlusXAlphabetLoop(letter, toAdd + ALPHABET_SIZE), r);
  }

  lemma PlusXExamples()
    ensures GetNextLetter('a') == 'b' && GetNextLetter('y') == 'z' && GetNextLetter('z') == 'a'
    ensures GetLetterPlusXAlphabetLoop('a', 1) == 'b'
    ensures GetLetterPlusXAlphabetLoop('a', 3) == 'd'
    ensures GetLetterPlusXAlphabetLoop('z', 1) == 'a'
    ensures GetLetterPlusXAlphabetLoop('x', 5) == 'c'
  {
    PlusXIsRotation('a', 3);
    PlusXIsRotation('x', 5);
  }
}
