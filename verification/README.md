# Enigma, timers, Time's-Up and microwave cores in Dafny

This project models the pure logic of the `my-dev.to` monorepo in Dafny. Each part is written as functions over immutable data, with proofs of what the code promises.

- **Enigma simulator**, in its current form (`libs/enigma/*`):
  - the alphabet helpers;
  - the rotor wiring table (`createBiMapFromAlphabet`);
  - the odometer-like rotor stepping;
  - the rotor and reflector services;
  - the machine (encode, encrypt a letter, encrypt a message, reset to the initial state);
  - the brute-force "bombe", which enumerates all 17 576 start positions;
  - the English-detection decryption step;
  - the pure helpers of the RxJS version (`enigma.utils.ts`).
- **Enigma form validator** of the app.
- **Older Enigma libraries** (`libs/enigma-machine`, `libs/enigma-utility`). These are letter-keyed tables stepped one letter at a time. The legacy machine hands its rotors the positions from before each step, and its `encryptMessage` neither resets to the initial state nor lower-cases. The proofs show that a legacy machine whose positions are one step ahead of a current machine's initial state encrypts every message of lower-case letters and spaces as the current `encryptMessage` does. Started from the same positions, the two libraries give different ciphertexts.
- **`arrayDiff` / `arrToMap`**, the object helpers, and **`chunk`**.
- **Timers**: the reducer over `ids` / `entities`, the list the service shows, and the elapsed-time selector.
- **Time's-Up**: the game reducer.
- **Microwave**: the timestamped reducer, `computeTimeDoneMs`, and the state the view derives from them.
- **UUID**: the version 4 validator. Its regular expression is the layout of section 3 of RFC 4122, with the version of section 4.1.3 and the variant of section 4.1.1.

Modelling choices:

- **Exceptions** become `Result` values (`results.dfy`). `null`, `undefined` and NaN become `Option`.
- **Mutable services** become records. An operation that changes a service returns the new record next to its result.
- **JavaScript numbers** become unbounded integers. `%` is used only on non-negative operands, where JavaScript and Dafny agree. `EnigmaUtils.JsRemainder` models the truncating remainder for the negative case.
- **Main properties proved:**
  - Every shipped rotor wiring is a permutation, and every shipped reflector is an involution without fixed points.
  - A rotor pass and its reverse pass undo each other.
  - No letter encrypts to itself.
  - Encrypting a ciphertext from the same state gives back the plaintext.
  - Stepping is a successor function in base 26 with orbit 17 576. The bombe lists each start position exactly once.
  - Two encryptions of one message from the same configuration agree.
  - A legacy machine one step ahead of a current machine's initial state encrypts every message of lower-case letters and spaces as the current `encryptMessage` does. The legacy `encryptMessage` does not reset or lower-case.
  - `arrayDiff` splits the first array by presence, in order, and lists the new entries in first-occurrence order.
  - `chunk` followed by flattening gives back the input.
  - The reducers change only what they say they change.
  - The UUID validator accepts exactly the version 4 layout, in either case.

## Model

| member | source | states |
|---|---|---|
| Alphabet.AlphabetIsTheLowerCaseLetters | libs/enigma/enigma-utility/src/lib/alphabet.ts:62-73 | `ALPHABET` is the 26 lower-case letters in increasing order, each at its letter index, and a character is in it exactly when it is a letter |
| Alphabet.LettersAreAtTheirIndex | libs/enigma/enigma-utility/src/lib/alphabet.ts:30-73 | every letter `c` sits in `ALPHABET` at position `charCode(c) - 97`, the `LetterIndex` enum value |
| Alphabet.LetterAt | libs/enigma/enigma-utility/src/lib/alphabet.ts:71-73 | the letter at index `i` is a letter whose index is `i` |
| Alphabet.ValidAlphabetLetterIsOneOfTwentySix | libs/enigma/enigma-utility/src/lib/alphabet.ts:62-91 | the intended check holds exactly for the one-character strings made of an entry of `ALPHABET`; the plain-object lookup as written also accepts the names inherited from `Object.prototype`, and nothing else |
| Alphabet.ValidLettersMapAcceptsInheritedKeys | libs/enigma/enigma-utility/src/lib/alphabet.ts:62-67 | as written, `isValidAlphabetLetter("constructor")` and `isValidAlphabetLetter("__proto__")` are truthy, and `getLetterIndexInAlphabet` gives them the indexes 2 and -2 instead of throwing `InvalidLetter` |
| Alphabet.ValidLettersMapAgreesOnCharacters | libs/enigma/enigma-utility/src/lib/alphabet.ts:89-91 | on a single character the lookup as written accepts exactly the letters, so the intended check can stand in for it wherever one character is tested |
| Alphabet.GetLetterIndexAgreesOnCharacters | libs/enigma/enigma-utility/src/lib/alphabet.ts:113-119 | on a single character `getLetterIndexInAlphabet` as written gives the same index or `InvalidLetter` as the checked letter version |
| Alphabet.GetLetterIndexInAlphabet | libs/enigma/enigma-utility/src/lib/alphabet.ts:113-119 | a letter gets its position in `ALPHABET`; anything else is rejected with `InvalidLetter` |
| Alphabet.GetLetterFromIndexInAlphabet | libs/enigma/enigma-utility/src/lib/alphabet.ts:121-129 | succeeds exactly for indexes 0..25 and returns `ALPHABET[index]`; other indexes give `InvalidLetter` |
| Alphabet.GetLetterFromIndexAcceptsWrappedIndex | libs/enigma/enigma-utility/src/lib/alphabet.ts:121-129 | as written, the 16-bit wrap of `String.fromCharCode` makes index 65536 and -65536 yield 'a' instead of an error |
| Alphabet.GetLetterFromIndexVersionsAgree | libs/enigma/enigma-utility/src/lib/alphabet.ts:121-129 | on the indexes 0..25 the function as written and the corrected one agree |
| Alphabet.IndexLetterRoundTrip | libs/enigma/enigma-utility/src/lib/alphabet.ts:113-129 | index to letter to index and letter to index to letter are identities on their domains |
| Alphabet.CompleteAlphabetIsSetEquality | libs/enigma/enigma-utility/src/lib/alphabet.ts:99-109 | `isStringCompleteUnorderedAlphabet` holds exactly when the string's set of characters is the set of the 26 letters |
| Alphabet.CompleteAlphabetLetters | libs/enigma/enigma-utility/src/lib/alphabet.ts:99-109 | an accepted string holds only letters, and every letter appears in it |
| Alphabet.PermutationIsInjective | libs/enigma/enigma-utility/src/lib/alphabet.ts:99-109 | an accepted string of length 26 has no repeated letter |
| Alphabet.DistinctLettersAreComplete | libs/enigma/enigma-utility/src/lib/alphabet.ts:99-109 | 26 distinct letters are always accepted (converse of the above) |
| Alphabet.InverseWiringMakesPermutation | libs/enigma/enigma-utility/src/lib/alphabet.ts:99-109 | a wiring that has an inverse wiring is a complete alphabet of length 26 |
| Alphabet.StringToAlphabet | libs/enigma/enigma-utility/src/lib/alphabet.ts:79-87 | returns the string unchanged exactly when its character set is the alphabet's, `InvalidAlphabet` otherwise |
| Alphabet.DuplicatesAreNotRejected | libs/enigma/enigma-utility/src/lib/alphabet.ts:99-109 | a 27-character string that repeats a letter still passes the check, since only the set is compared |
| Alphabet.IncorrectAlphabetIsRejected | libs/enigma/enigma-utility/src/lib/alphabet.ts:99-109 | "incorrect alphabet" and "hello" are rejected |
| Rotor.ModuloWithPositiveOrNegativeIsShiftedModulo | libs/enigma/enigma-machine/src/lib/rotor.ts:31 | for offsets in -25..25, `moduloWithPositiveOrNegative(26, d)` is congruent to `d` mod 26 and lies in 1..26; 0 maps to 26 |
| Rotor.BiMapOfPrefix | libs/enigma/enigma-machine/src/lib/rotor.ts:51-62 | after folding the first n letters, `leftToRight` has exactly the keys 0..n-1 holding the shifted offset `letter - index`, and every letter seen so far has a `rightToLeft` entry in 1..26 |
| Rotor.RightToLeftFromLastOccurrence | libs/enigma/enigma-machine/src/lib/rotor.ts:51-62 | the `rightToLeft` entry of a letter is the offset written by the letter's last occurrence (later writes overwrite earlier ones) |
| Rotor.LastWriteWins | libs/enigma/enigma-machine/src/lib/rotor.ts:51-62 | in the `rightToLeft` writes of the `reduce`, a letter's entry is present and equals the offset written at its last position |
| Rotor.BiMapOfPermutationIsTotal | libs/enigma/enigma-machine/src/lib/rotor.ts:51-62 | for a 26-letter permutation both tables have exactly the keys 0..25 |
| Rotor.LeftToRightOfPermutation | libs/enigma/enigma-machine/src/lib/rotor.ts:51-55 | for a permutation, `leftToRight[i]` lies in 1..26 and is congruent to `w[i] - i` mod 26 |
| Rotor.RightToLeftOfPermutation | libs/enigma/enigma-machine/src/lib/rotor.ts:51-62 | for a permutation, `rightToLeft[w[i]]` is congruent to `i - w[i]`, and the two offsets cancel mod 26 |
| Rotor.FirstRotorOffsets | libs/enigma/enigma-machine/src/lib/rotor.ts:33-50 | offsets of rotor 1 ("ekmflgdqvzntowyhxuspaibrcj") match the comment: +4, +9, +10 at 0..2, +23 at 6, +10 at 25, and +26 at 18, where the letter stays in place |
| Rotor.GetNextNumberBase26 | libs/enigma/enigma-machine/src/lib/rotor.ts:69-81 | the successor keeps the number of digits |
| Rotor.GoToNextRotorCombination | libs/enigma/enigma-machine/src/lib/rotor.ts:88-94 | stepping a triple of digits gives a triple of digits |
| Rotor.DigitsStayDigits | libs/enigma/enigma-machine/src/lib/rotor.ts:69-81 | digits 0..25 stay digits after a step |
| Rotor.NextNumberIsSuccessor | libs/enigma/enigma-machine/src/lib/rotor.ts:64-81 | read as a little-endian base-26 number, the step adds one modulo 26^n |
| Rotor.CarryRule | libs/enigma/enigma-machine/src/lib/rotor.ts:69-81 | the leading run of 'z' becomes 'a', the first other digit goes up by one, the rest is unchanged |
| Rotor.AllZWrapsToAllA | libs/enigma/enigma-machine/src/lib/rotor.ts:69-72 | all 'z' steps to all 'a' |
| Rotor.StepExamples | libs/enigma/enigma-machine/src/lib/rotor.ts:64-94 | AAA→BAA, ZAA→ABA, ZZA→AAB, ZZZ→AAA, as the comments show |
| Rotor.StepNValue | libs/enigma/enigma-machine/src/lib/rotor.ts:88-94 | k steps add k to the position's value modulo 17 576 |
| Rotor.OrbitLength | libs/enigma/enigma-machine/src/lib/rotor.ts:88-94 | k steps return to the start exactly when k is a multiple of 17 576 |
| Rotor.Previous | libs/enigma/enigma-machine/src/lib/rotor.ts:88-94 | every position has a predecessor that steps to it |
| Rotor.StepIsBijective | libs/enigma/enigma-machine/src/lib/rotor.ts:88-94 | the step is injective and surjective on triples |
| RotorService.CompleteAlphabetGivesTotalTable | libs/enigma/enigma-machine/src/lib/enigma-rotor.service.ts:25-31 | an accepted configuration yields tables defined, non-negative, on all 26 indexes |
| RotorService.NewEnigmaRotor | libs/enigma/enigma-machine/src/lib/enigma-rotor.service.ts:21-34 | succeeds exactly for a complete alphabet and a ring position 0..25; the alphabet is checked first (`InvalidAlphabet`, then `InvalidRingPosition`) |
| RotorService.NewEnigmaRotorAtA | libs/enigma/enigma-machine/src/lib/enigma-rotor.service.ts:21-34 | with the default position, only the alphabet can fail, and the rotor starts at 'a' |
| RotorService.SetCurrentRingPosition | libs/enigma/enigma-machine/src/lib/enigma-rotor.service.ts:36-46 | accepts exactly the positions 0..25, keeps the wiring, and is read back by `getCurrentRingPosition` |
| RotorService.GoThroughRotor | libs/enigma/enigma-machine/src/lib/enigma-rotor.service.ts:48-57 | a pass from either side lands on a contact 0..25 |
| RotorService.GoThroughRotorLeftToRight | libs/enigma/enigma-machine/src/lib/enigma-rotor.service.ts:59-61 | the left-to-right pass lands on a contact 0..25 |
| RotorService.GoThroughRotorRightToLeft | libs/enigma/enigma-machine/src/lib/enigma-rotor.service.ts:63-65 | the right-to-left pass lands on a contact 0..25 |
| RotorService.LeftToRightIsRelativeWiring | libs/enigma/enigma-machine/src/lib/enigma-rotor.service.ts:48-61 | the left-to-right pass is the wiring read at `position + input`, made relative to the position again |
| RotorService.RightToLeftIsRelativeUnwiring | libs/enigma/enigma-machine/src/lib/enigma-rotor.service.ts:48-65 | the right-to-left pass is the inverse wiring read the same way |
| RotorService.LeftToRightOfWiring | libs/enigma/enigma-machine/src/lib/enigma-rotor.service.ts:48-61 | for a permutation `w` at position p, input x leaves at `(w[(p+x)%26] - p) % 26` |
| RotorService.PermutationIsInvertible | libs/enigma/enigma-machine/src/lib/rotor.ts:51-62 | the table of a permutation wires i to `w[i]`, and its `rightToLeft` half is the inverse |
| RotorService.WiredOfPermutation | libs/enigma/enigma-machine/src/lib/rotor.ts:51-62 | the wired contact of i is `w[i]`, and unwiring it gives back i |
| RotorService.InverseWiringUnwires | libs/enigma/enigma-machine/src/lib/rotor.ts:51-62 | given an explicit inverse wiring `inv`, the `rightToLeft` table maps j to `inv[j]` |
| RotorService.RoundTrip | libs/enigma/enigma-machine/src/lib/enigma-rotor.service.ts:48-65 | for an invertible table, the right-to-left pass undoes the left-to-right pass and vice versa, at every position |
| RotorService.WiringRoundTrip | libs/enigma/enigma-machine/src/lib/enigma-rotor.service.ts:21-65 | any rotor built from a permutation at any position has passes that undo each other |
| RotorService.SetPositionKeepsTable | libs/enigma/enigma-machine/src/lib/enigma-rotor.service.ts:18-42 | moving the ring keeps the table, and with it invertibility |
| RotorService.IncorrectWiringIsRejected | libs/enigma/enigma-machine/src/lib/enigma-rotor.service.ts:25-29 | "incorrect alphabet" is rejected with `InvalidAlphabet` whatever the position |
| Reflector.MapLetterIndexInAlphabetToDifferentOne | libs/enigma/enigma-machine/src/lib/reflector.service.ts:55-61 | entry i is the index of the i-th letter: a contact 0..25 whose letter is that letter |
| Reflector.NewReflectorService | libs/enigma/enigma-machine/src/lib/reflector.service.ts:29-53 | rejects an incomplete alphabet with `InvalidAlphabet`; otherwise succeeds exactly when no letter sits at its own index, else `ReflectorMapIndexToSameIndex`; on success the table holds the letters' indexes |
| Reflector.GoThroughFromRelativeIndex | libs/enigma/enigma-machine/src/lib/reflector.service.ts:63-65 | defined exactly on the table's indexes, where it reads the table; a valid reflector sends every index elsewhere |
| Reflector.ReflectsToOtherContact | libs/enigma/enigma-machine/src/lib/reflector.service.ts:44-65 | an accepted reflector sends every contact i to the index of its i-th letter, never i itself |
| Reflector.SelfInverseConfigIsInvolutive | libs/enigma/enigma-machine/src/lib/reflector.service.ts:33-53 | a fixed-point-free configuration that is its own inverse wiring is accepted and reflects as an involution |
| ShippedWirings.ShippedReflectorsAreInvolutions | libs/enigma/enigma-machine/src/lib/reflector.service.ts:22-25 | `REFLECTOR_1` and `REFLECTOR_2` are accepted and each reflects as an involution |
| ShippedWirings.Reflector1IsPermutation | libs/enigma/enigma-machine/src/lib/reflector.service.ts:22-23 | `REFLECTOR_1` is its own inverse wiring, hence a permutation |
| ShippedWirings.Reflector2IsPermutation | libs/enigma/enigma-machine/src/lib/reflector.service.ts:24-25 | `REFLECTOR_2` is its own inverse wiring, hence a permutation |
| ShippedWirings.Rotor1IsPermutation | libs/enigma/enigma-machine/src/lib/enigma-rotor.service.ts:14 | `ROTOR_1` has an explicit inverse wiring, hence is a permutation |
| ShippedWirings.Rotor2IsPermutation | libs/enigma/enigma-machine/src/lib/enigma-rotor.service.ts:15 | `ROTOR_2` has an explicit inverse wiring, hence is a permutation |
| ShippedWirings.Rotor3IsPermutation | libs/enigma/enigma-machine/src/lib/enigma-rotor.service.ts:16 | `ROTOR_3` (the same string as `REFLECTOR_2`) is its own inverse, hence a permutation |
| ShippedWirings.ShiftedReflector | libs/enigma/enigma-machine/src/lib/reflector.service.spec.ts:14-25 | the shifted alphabet is accepted and reflects 0→25, 1→0, 25→24 |
| ShippedWirings.SelfMappingReflectorIsRejected | libs/enigma/enigma-machine/src/lib/reflector.service.spec.ts:9-12 | "zbacdef…" keeps 'b' at index 1 and is rejected with `ReflectorMapIndexToSameIndex` |
| ShippedWirings.IncorrectReflectorIsRejected | libs/enigma/enigma-machine/src/lib/reflector.service.spec.ts:5-7 | "incorrect alphabet" is rejected with `InvalidAlphabet` |
| Machine.NewEnigmaMachine | libs/enigma/enigma-machine/src/lib/enigma-machine.service.ts:70-92 | succeeds exactly with three rotors (else `EnigmaMachineRequires3Rotors`); initial and current state are the rotors' ring positions |
| Machine.WithCurrentState | libs/enigma/enigma-machine/src/lib/enigma-machine.service.ts:112-121 | the rotors follow the given state, and nothing else of the setup changes |
| Machine.ResetCurrentStateRotorsToInitialState | libs/enigma/enigma-machine/src/lib/enigma-machine.service.ts:163-172 | the current state becomes the initial state; the setup is unchanged |
| Machine.Step | libs/enigma/enigma-machine/src/lib/enigma-machine.service.ts:174-181 | the current state advances by exactly one step; the setup is unchanged |
| Machine.Reflect | libs/enigma/enigma-machine/src/lib/enigma-machine.service.ts:201-206 | the reflector sends every contact to a different contact |
| Machine.EncodeLetterThroughMachine | libs/enigma/enigma-machine/src/lib/enigma-machine.service.ts:50-68 | a letter goes forward through the three rotors, is reflected, comes back, and leaves as a letter |
| Machine.BackwardUndoesForward | libs/enigma/enigma-machine/src/lib/enigma-machine.service.ts:50-68 | with invertible rotors the way back undoes the way in |
| Machine.NoLetterEncodesToItself | libs/enigma/enigma-machine/src/lib/enigma-machine.service.ts:50-68 | no letter is ever encrypted to itself |
| Machine.EncodingIsReciprocal | libs/enigma/enigma-machine/src/lib/enigma-machine.service.ts:50-68 | with an involutive reflector, encoding the output in the same state gives back the input |
| Machine.ToLowerCase | libs/enigma/enigma-machine/src/lib/enigma-machine.service.ts:139-141 | lower-casing yields a letter exactly for letters, A..Z and the Kelvin sign; it keeps spaces and letters |
| Machine.LowerCase | libs/enigma/enigma-machine/src/lib/enigma-machine.service.ts:139-141 | lower-casing a string works character by character |
| Machine.EncryptLetter | libs/enigma/enigma-machine/src/lib/enigma-machine.service.ts:151-161 | a non-letter gives `InvalidLetter` and leaves the machine untouched; a letter first steps the rotors, then is encoded in the new state |
| Machine.EncryptChars | libs/enigma/enigma-machine/src/lib/enigma-machine.service.ts:139-148 | succeeds exactly when every character is a space or a letter; spaces stay where they were, letters become letters |
| Machine.EncryptMessage | libs/enigma/enigma-machine/src/lib/enigma-machine.service.ts:136-149 | the lower-cased message is encrypted after resetting to the initial state; it fails exactly on a character that does not lower-case to a letter or space |
| Machine.SetInitialRotorConfig | libs/enigma/enigma-machine/src/lib/enigma-machine.service.ts:208-217 | accepts exactly three letters and stores their indexes as the initial state; the wiring and current state stay |
| Machine.EncryptCharsFinalState | libs/enigma/enigma-machine/src/lib/enigma-machine.service.ts:139-181 | after a message the rotors have stepped once per letter, never for a space |
| Machine.EncryptMessageFinalState | libs/enigma/enigma-machine/src/lib/enigma-machine.service.ts:136-181 | after a message the state is the initial state stepped once per letter of the message |
| Machine.CipherReference | libs/enigma/enigma-machine/src/lib/enigma-machine.service.ts:136-161 | the reference cipher: character i is a space or the letter encoded in the state stepped by the letters up to and including i |
| Machine.EncryptCharsIsReference | libs/enigma/enigma-machine/src/lib/enigma-machine.service.ts:139-161 | the letter-by-letter encryption equals the reference cipher |
| Machine.EncryptMessageIsReference | libs/enigma/enigma-machine/src/lib/enigma-machine.service.ts:136-161 | `encryptMessage` equals the reference cipher of the lower-cased message from the initial state |
| Machine.EncryptMessageIsRepeatable | libs/enigma/enigma-machine/src/lib/enigma-machine.service.ts:136-172 | because of the reset, encrypting the same message twice gives the same result and the same final machine |
| Machine.EncryptCharsIsReciprocal | libs/enigma/enigma-machine/src/lib/enigma-machine.service.ts:139-161 | from the same state, encrypting a ciphertext gives back the plaintext and ends in the same state |
| Machine.EncryptMessageIsReciprocal | libs/enigma/enigma-machine/src/lib/enigma-machine.service.ts:136-172 | encrypting the ciphertext of a message decrypts it to the lower-cased message |
| Machine.KeyPressesOfLowerCase | libs/enigma/enigma-machine/src/lib/enigma-machine.service.ts:139-141 | lower-casing does not change the number of key presses |
| Bombe.LettersIndexesRoundTrip | libs/enigma/enigma-bombe/src/lib/enigma-bombe.service.ts:26 | mapping a position's indexes to letters and back is the identity, both ways |
| Bombe.Combination | libs/enigma/enigma-bombe/src/lib/enigma-bombe.service.ts:22-36 | the i-th yielded combination is three letters |
| Bombe.GetPossibleCombinations | libs/enigma/enigma-bombe/src/lib/enigma-bombe.service.ts:22-36 | the do-while yields exactly 17 576 combinations, the i-th being ZZZ stepped i times |
| Bombe.GetPossibleCombinationsWithEncryptedMessage | libs/enigma/enigma-bombe/src/lib/enigma-bombe.service.ts:12-20 | each combination is paired with the encrypted message, in order |
| Bombe.CombinationValue | libs/enigma/enigma-bombe/src/lib/enigma-bombe.service.ts:23-30 | the i-th combination has base-26 value `i - 1` modulo 17 576 |
| Bombe.SuccessiveCombinations | libs/enigma/enigma-bombe/src/lib/enigma-bombe.service.ts:28-30 | each combination is the step of the one before |
| Bombe.CombinationsAreDistinct | libs/enigma/enigma-bombe/src/lib/enigma-bombe.service.ts:22-36 | no combination is yielded twice |
| Bombe.EveryTripleIsACombination | libs/enigma/enigma-bombe/src/lib/enigma-bombe.service.ts:22-36 | every three-letter start position is yielded, and the lemma names when |
| Bombe.FirstAndLastCombinations | libs/enigma/enigma-bombe/src/lib/enigma-bombe.service.ts:23-35 | the enumeration starts ZZZ, AAA, BAA and ends with YZZ, just before ZZZ would come again |
| Decrypt.Split | libs/enigma/enigma-bombe/src/lib/enigma-decrypt.service.ts:22 | `split(' ')` gives at least one piece, and no piece holds a space |
| Decrypt.JoinOfSplit | libs/enigma/enigma-bombe/src/lib/enigma-decrypt.service.ts:22 | joining the pieces with the separator gives back the string |
| Decrypt.SplitOfJoin | libs/enigma/enigma-bombe/src/lib/enigma-decrypt.service.ts:22 | splitting a join of separator-free pieces gives back the pieces |
| Decrypt.CountFoundWords | libs/enigma/enigma-bombe/src/lib/enigma-decrypt.service.ts:25-30 | at most one counted word per element |
| Decrypt.CountOfPrefixIsAtMost | libs/enigma/enigma-bombe/src/lib/enigma-decrypt.service.ts:25-35 | the count over a prefix never exceeds the count over the whole, so stopping early is sound |
| Decrypt.OnlyLongWordsCount | libs/enigma/enigma-bombe/src/lib/enigma-decrypt.service.ts:9-28 | words of three letters or fewer in the dictionary never count |
| Decrypt.GetMessageIfEnglish | libs/enigma/enigma-bombe/src/lib/enigma-decrypt.service.ts:21-38 | returns the message exactly when at least 3 elements are words of more than 3 characters in the dictionary, `null` otherwise |
| Decrypt.DecryptMessageFor1Combination | libs/enigma/enigma-bombe/src/lib/enigma-decrypt.service.ts:15-19 | sets the initial position, decrypts, and returns the plaintext exactly when it looks English; invalid letters surface as `InvalidLetter` |
| EnigmaUtils.GetLetterIndexInAlphabet | libs/enigma/enigma-machine/src/lib/rxjs/internal/enigma.utils.ts:6-8 | a letter's code minus 97, in 0..25 exactly for letters |
| EnigmaUtils.GetLetterFromIndexInAlphabet | libs/enigma/enigma-machine/src/lib/rxjs/internal/enigma.utils.ts:10-11 | the 16-bit code unit `index + 97`, which is the letter for indexes 0..25 |
| EnigmaUtils.LetterIndexConversionsAreInverse | libs/enigma/enigma-machine/src/lib/rxjs/internal/enigma.utils.ts:6-11 | the two conversions are inverse on letters and indexes; indexes 65 536 apart give the same code unit |
| EnigmaUtils.JsRemainder | libs/enigma/enigma-machine/src/lib/rxjs/internal/enigma.utils.ts:181-183 | JavaScript's `% 26`: congruent to the operand, with its sign |
| EnigmaUtils.CreateBiMapFromAlphabetAgrees | libs/enigma/enigma-machine/src/lib/rxjs/internal/enigma.utils.ts:13-29 | with a 26-letter base, the RxJS table is the rotor service's table |
| EnigmaUtils.GetNextRotorCombination | libs/enigma/enigma-machine/src/lib/rxjs/internal/enigma.utils.ts:55-61 | a missing combination gives [0, 0, 0]; otherwise the length is kept |
| EnigmaUtils.GetNextRotorCombinationIsTheStep | libs/enigma/enigma-machine/src/lib/rxjs/internal/enigma.utils.ts:31-61 | on triples it is the rotor step: the value goes up by one modulo 17 576, with the commented examples |
| EnigmaUtils.GoThroughRotorOrReflector | libs/enigma/enigma-machine/src/lib/rxjs/internal/enigma.utils.ts:176-184 | defined exactly when the table has the entry, and a contact 0..25 for non-negative inputs |
| EnigmaUtils.RotorPassesAgree | libs/enigma/enigma-machine/src/lib/rxjs/internal/enigma.utils.ts:176-184 | on a rotor both passes equal the rotor service's passes |
| EnigmaUtils.ReflectorPassIsLookup | libs/enigma/enigma-machine/src/lib/rxjs/internal/enigma.utils.ts:125 | reflecting through the table at position 0 returns the index of the reflector's i-th letter |
| EnigmaUtils.ReflectorPassesAgree | libs/enigma/enigma-machine/src/lib/rxjs/internal/enigma.utils.ts:125 | on an accepted reflector the RxJS pass equals the reflector service's |
| EnigmaUtils.PositionsOf | libs/enigma/enigma-machine/src/lib/rxjs/internal/enigma.utils.ts:194-200 | the `reduce` succeeds exactly when every rotor id is configured, and otherwise throws a `TypeError` (reading `charCodeAt` of `undefined`) |
| EnigmaUtils.PositionsOfEntries | libs/enigma/enigma-machine/src/lib/rxjs/internal/enigma.utils.ts:194-200 | a successful `reduce` has exactly the rotors' ids as keys, each holding the index of its configured letter |
| EnigmaUtils.GetInitialState | libs/enigma/enigma-machine/src/lib/rxjs/internal/enigma.utils.ts:186-209 | fails with a `TypeError` exactly when a rotor id has no configured letter; otherwise keeps rotors and reflector and gives each rotor id its letter's index (0..25 for letters) |
| Validators.ContainsOnlyAlphabetLetters | apps/enigma/src/app/common/validators.ts:4-26 | an empty or missing value is valid; otherwise valid exactly when every character lower-cases to a letter or is an accepted space |
| Validators.AcceptsWhatTheMachineEncrypts | apps/enigma/src/app/common/validators.ts:13-19 | with spaces accepted, the validator accepts exactly the messages `encryptMessage` encrypts without error |
| Validators.SpacesAndUpperCase | apps/enigma/src/app/common/validators.ts:14-19 | a space is refused when spaces are not accepted; upper-case letters are always accepted |
| LegacyAlphabet.GetNextLetter | libs/enigma-utility/src/lib/alphabet.ts:46-57 | the next letter, 'z' wrapping to 'a' |
| LegacyAlphabet.GetLetterPlusXAlphabetLoop | libs/enigma-utility/src/lib/alphabet.ts:59-71 | adding x letters moves the index by x modulo 26 |
| LegacyAlphabet.PlusXIsRotation | libs/enigma-utility/src/lib/alphabet.ts:59-71 | the result is the letter at `(index + x) % 26`, so adding 26 more changes nothing |
| LegacyAlphabet.PlusXExamples | libs/enigma-utility/src/lib/alphabet.ts:59-71 | a+1 = b, a+3 = d, z+1 = a, as the comments show |
| LegacyRotor.MapScrambledAlphabetToRotorIndexOutput | libs/enigma-machine/src/lib/rotor.ts:37-54 | accepts exactly a complete alphabet (else `InvalidAlphabet`); letter i of the alphabet maps to the index of the i-th scrambled letter |
| LegacyRotor.MapOfPermutation | libs/enigma-machine/src/lib/rotor.ts:37-54 | for a permutation the two tables are total and inverse to each other |
| LegacyRotor.GoToNextRotorCombination | libs/enigma-machine/src/lib/rotor.ts:56-72 | stepping letters keeps the length and gives letters |
| LegacyRotor.StepIsTheDigitStep | libs/enigma-machine/src/lib/rotor.ts:56-72 | on letter indexes the letter step is the current base-26 step |
| LegacyRotor.StepIsSuccessor | libs/enigma-machine/src/lib/rotor.ts:56-72 | the letter step adds one to the base-26 value modulo 26^n |
| LegacyRotor.StepExamples | libs/enigma-machine/src/lib/rotor.spec.ts:48-80 | aaa→baa, zaa→aba, zza→aab, zzz→aaa |
| LegacyRotor.RelativeDistance | libs/enigma-machine/src/lib/rotor.ts:74-91 | the distance from the ring position to the output index, taken modulo 26 into 0..25 |
| LegacyRotor.RelativeDistanceIsInverseOfPlusX | libs/enigma-machine/src/lib/rotor.ts:74-91 | moving from the ring position by the distance lands on the output index |
| LegacyRotor.RelativeDistanceExamples | libs/enigma-machine/src/lib/rotor.ts:74-91 | equal gives 0, forward gives the difference, backward wraps (g to 4 is 24) |
| LegacyRotorService.NewLegacyEnigmaRotor | libs/enigma-machine/src/lib/enigma-rotor.service.ts:20-32 | succeeds exactly for a complete alphabet and a letter position, checking the alphabet first |
| LegacyRotorService.SetCurrentRingPosition | libs/enigma-machine/src/lib/enigma-rotor.service.ts:34-40 | keeps the tables and sets the position unchecked; the rotor stays valid exactly when the position is a letter |
| LegacyRotorService.LeftToRight | libs/enigma-machine/src/lib/enigma-rotor.service.ts:42-60 | the left-to-right pass lands on a contact 0..25 |
| LegacyRotorService.RightToLeft | libs/enigma-machine/src/lib/enigma-rotor.service.ts:62-80 | the right-to-left pass lands on a contact 0..25 |
| LegacyRotorService.RoundTrip | libs/enigma-machine/src/lib/enigma-rotor.service.ts:42-80 | with inverse tables the two passes undo each other |
| LegacyRotorService.ConstructorsAgree | libs/enigma-machine/src/lib/enigma-rotor.service.ts:20-26 | a legacy rotor and a current rotor built from the same permutation and position describe the same rotor |
| LegacyRotorService.PassesAgreeWithCurrentRotor | libs/enigma-machine/src/lib/enigma-rotor.service.ts:42-80 | the legacy passes equal the current rotor's passes for every input |
| LegacyMachine.NewLegacyEnigmaMachine | libs/enigma-machine/src/lib/enigma-machine.service.ts:39-75 | requires exactly three rotors, then a reflector keyed by the whole alphabet; config and current state are the rotors' positions |
| LegacyMachine.GoToNextRotorCombination | libs/enigma-machine/src/lib/enigma-machine.service.ts:117-135 | the state steps once, while the rotors receive the state from before the step |
| LegacyMachine.EncodeLetter | libs/enigma-machine/src/lib/enigma-machine.service.ts:98-114 | the encoded letter is a letter |
| LegacyMachine.EncryptLetter | libs/enigma-machine/src/lib/enigma-machine.service.ts:89-115 | a non-letter gives `InvalidLetter` with nothing changed; a letter steps the state, then encodes on the previous positions |
| LegacyMachine.EncryptMessage | libs/enigma-machine/src/lib/enigma-machine.service.ts:77-87 | succeeds exactly when every character is a space or a letter; spaces are kept, letters become letters |
| LegacyMachine.EncryptMessageFinalState | libs/enigma-machine/src/lib/enigma-machine.service.ts:77-135 | the state steps once per letter, never for a space, and is not reset between messages |
| LegacyMachine.EncryptMessageConcatenates | libs/enigma-machine/src/lib/enigma-machine.service.ts:77-87 | encrypting a + b is encrypting a, then b from where a left the machine |
| LegacyMachine.EncodeAgrees | libs/enigma-machine/src/lib/enigma-machine.service.ts:89-164 | with the same wirings and positions, the legacy encoding equals the current machine's |
| LegacyMachine.EncryptLetterAgrees | libs/enigma-machine/src/lib/enigma-machine.service.ts:89-135 | a legacy machine one step ahead of a current machine encrypts each letter alike and stays one step ahead |
| LegacyMachine.EncryptMessageAgrees | libs/enigma-machine/src/lib/enigma-machine.service.ts:77-135 | the same holds for whole messages |
| LegacyMachine.LegacyEncryptsLikeCurrent | libs/enigma-machine/src/lib/enigma-machine.service.ts:77-164 | a legacy machine one step ahead of a current machine's initial state encrypts every message as `encryptMessage` does |
| LegacyMachine.EncodeLetterIsReciprocal | libs/enigma-machine/src/lib/enigma-machine.service.ts:89-164 | with inverse tables and an involutive reflector, encoding twice in the same state is the identity |
| LegacyMachine.EncryptMessageIsReciprocal | libs/enigma-machine/src/lib/enigma-machine.service.ts:77-135 | from the same state, encrypting the ciphertext gives back the plaintext |
| ArrayDiff.ArrToMapIsIdMap | libs/common/object-utility/src/lib/array-diff.ts:7-11 | `arrToMap` has one key per distinct id, holding the last element with that id, with keys in first-occurrence order (JavaScript `Map` insertion order) |
| ArrayDiff.KeysAreOccurringIds | libs/common/object-utility/src/lib/array-diff.ts:7-11 | a key is in the map exactly when some element has that id |
| ArrayDiff.KeySetOfArrToMap | libs/common/object-utility/src/lib/array-diff.ts:7-11 | the map's key set is the set of ids |
| ArrayDiff.MapSet | libs/common/object-utility/src/lib/array-diff.ts:9 | `Map.set` replaces an existing key in place and appends a new one |
| ArrayDiff.ArrayDiffSplitsArr1 | libs/common/object-utility/src/lib/array-diff.ts:18-34 | `unchanged` and `deleted` split `arr1` by whether the id occurs in `arr2`, each keeping `arr1`'s order |
| ArrayDiff.AddedComeFromArr2 | libs/common/object-utility/src/lib/array-diff.ts:36-42 | every added element is the last element of `arr2` with its id, and that id is not in `arr1` |
| ArrayDiff.AddedCoverArr2 | libs/common/object-utility/src/lib/array-diff.ts:36-42 | every id of `arr2` missing from `arr1` contributes its last element to `added` |
| ArrayDiff.AddedInFirstOccurrenceOrder | libs/common/object-utility/src/lib/array-diff.ts:36-42 | `added` follows the ids' first occurrence in `arr2` |
| ArrayDiff.ArrayDiffExample | libs/common/object-utility/src/lib/array-diff.ts:13-45 | a concrete diff with a repeated id: the last value wins, in first-occurrence position |
| Chunks.ChunkShape | libs/common/object-utility/src/lib/object.ts:3-11 | `chunk` gives `ceil(n/2)` chunks, chunk j being the slice `[2j, 2j+2)` |
| Chunks.ChunkSizes | libs/common/object-utility/src/lib/object.ts:3-11 | all chunks have two elements except a last single one, exactly when the length is odd |
| Chunks.ChunkFlattens | libs/common/object-utility/src/lib/object.ts:3-11 | concatenating the chunks gives back the array |
| Chunks.ChunkExamples | libs/common/object-utility/src/lib/object.ts:1-2 | the two examples of the comment, and the empty array |
| Timers.OppositeStatus | libs/timers/src/lib/data/timers.selectors.ts:3-4 | the opposite status differs from the status |
| Timers.OppositeIsInvolutive | libs/timers/src/lib/data/timers.selectors.ts:3-4 | taking the opposite twice gives back the status |
| Timers.ReduceFollowsTimeline | libs/timers/src/lib/data/timers.selectors.ts:11-32 | after n updates the fold holds the n-th boundary, the status then, and the time spent started before it |
| Timers.StatusByParity | libs/timers/src/lib/data/timers.selectors.ts:8-9 | the status after n updates is the starting status when n is even, its opposite when odd |
| Timers.Resolve | libs/timers/src/lib/data/timers.selectors.ts:6-39 | the current status computed by parity equals the fold's last status, and the elapsed time is the time spent started |
| Timers.GetTimersWithSumTimes | libs/timers/src/lib/data/timers.selectors.ts:6-39 | every timer is resolved in place, in order |
| Timers.NoUpdatesNoTime | libs/timers/src/lib/data/timers.selectors.ts:6-39 | without updates no time has elapsed and the status is the starting one |
| Timers.SumTimesExample | libs/timers/src/lib/data/timers.selectors.ts:6-39 | started at 0 and toggled at 10, 20 and 35: 25 ms started, now stopped |
| Timers.AddStoresFreshTimer | libs/timers/src/lib/data/timers.service.ts:27-39 | ADD puts the id first and stores the timer with no updates; other timers are untouched |
| Timers.RemoveDropsTimer | libs/timers/src/lib/data/timers.service.ts:41-49 | REMOVE drops the id from the list and the entity, keeping the other ids in order |
| Timers.ToggleAppendsUpdate | libs/timers/src/lib/data/timers.service.ts:50-63 | TOGGLE appends the time to that timer's updates only |
| Timers.ReducerKeepsConsistent | libs/timers/src/lib/data/timers.service.ts:25-67 | ids and entities keep naming the same timers, each keyed by its own id |
| Timers.InitialIsConsistent | libs/timers/src/lib/data/timers.service.ts:20-23 | the initial state is consistent |
| Timers.TimersListFollowsIds | libs/timers/src/lib/data/timers.service.ts:79-82 | the listed timers follow `ids`, and every stored timer is listed |
| Timers.AddedTimerListedFirst | libs/timers/src/lib/data/timers.service.ts:27-39 | a newly added timer is listed first |
| Lists.WithoutMembers | libs/time-s-up/src/lib/core/time-s-up.reducer.ts:49 | the filter keeps exactly the other elements |
| Lists.WithoutConcat | libs/time-s-up/src/lib/core/time-s-up.reducer.ts:49 | the filter distributes over concatenation, so order is kept |
| Lists.WithoutAbsent | libs/time-s-up/src/lib/core/time-s-up.reducer.ts:49 | the filter changes the list exactly when the element is in it |
| TimeIsUp.SetAdminOnlySetsAdmin | libs/time-s-up/src/lib/core/time-s-up.reducer.ts:20-25 | SET_ADMIN replaces the admin and nothing else |
| TimeIsUp.AddPlayerAppends | libs/time-s-up/src/lib/core/time-s-up.reducer.ts:27-32 | ADD_PLAYER appends the player and changes nothing else |
| TimeIsUp.RemovePlayerFilters | libs/time-s-up/src/lib/core/time-s-up.reducer.ts:34-35 | REMOVE_PLAYER keeps exactly the players with another id, in order |
| TimeIsUp.RemoveUnknownPlayerChangesNothing | libs/time-s-up/src/lib/core/time-s-up.reducer.ts:40-42 | when no player has the id the game is unchanged, even if a team lists the id |
| TimeIsUp.RemovePlayerLeavesTeams | libs/time-s-up/src/lib/core/time-s-up.reducer.ts:43-57 | otherwise the id leaves every team, and the teams keep their names, order and other members |
| TimeIsUp.ConfigSettingsNeverChange | libs/time-s-up/src/lib/core/time-s-up.reducer.ts:15-66 | no action changes the team size or the words to find |
| TimeIsUp.SetWordsToFindIsIgnored | libs/time-s-up/src/lib/core/time-s-up.reducer.ts:61-65 | an action outside the three cases returns the state unchanged |
| TimeIsUp.RemovePlayerExample | libs/time-s-up/src/lib/core/time-s-up.reducer.ts:34-59 | removing one of two players empties them from their team and leaves the other team as it was |
| Microwave.ComputeTimeDoneMsSumsPairs | libs/microwave/src/lib/microwave.ts:17-18 | an even list sums `off - on` over its pairs; an odd list gives NaN, and only then |
| Microwave.ComputeTimeDoneMsExamples | libs/microwave/src/lib/microwave.ts:17-18 | [] gives 0, [1000, 4000, 6000, 6500] gives 3500, [1000, 4000, 6000] gives NaN |
| Microwave.StartAndStopRecordTime | libs/microwave/src/lib/microwave.ts:66-77 | START and STOP set the status and append the timestamp; the planned time stays |
| Microwave.ResetForgets | libs/microwave/src/lib/microwave.ts:78-79 | RESET returns the initial state: 10 s planned, nothing recorded |
| Microwave.AddTimeAdds | libs/microwave/src/lib/microwave.ts:80-85 | ADD_TIME_MS adds to the planned time alone; two additions compose into one |
| Microwave.SensibleActionsAlternate | libs/microwave/src/lib/microwave.ts:64-91 | when START comes only while not started and STOP only while started, the times alternate on, off, ... |
| Microwave.ViewShows | libs/microwave/src/lib/microwave.ts:95-129 | the view shows the reset state, or the planned time with the pairs summed (closing the last one at `now` while started, until the planned time is reached) |
| Microwave.DoubleStartShowsNaN | libs/microwave/src/lib/microwave.ts:64-129 | START, START, STOP leaves an unpaired time, and the stopped view shows NaN |
| Uuid.PatternAt | libs/core/src/lib/browser/uuid/uuid.validators.ts:3 | the 36 positions of the expression: dashes at 8, 13, 18, 23, version at 14, variant at 19, hex elsewhere |
| Uuid.IsUuidV4IsLayout | libs/core/src/lib/browser/uuid/uuid.validators.ts:3-5 | the expression matches exactly the five hex groups 8-4-4-4-12 with version '4' and variant 8, 9, a or b |
| Uuid.CaseDoesNotMatter | libs/core/src/lib/browser/uuid/uuid.validators.ts:3-5 | the `i` flag: a string matches exactly when its lower-case form does |
| Uuid.ValidatorAcceptsLayout | libs/core/src/lib/browser/uuid/uuid.validators.ts:7-16 | the validator returns `null` exactly for a present value with the version 4 layout |
| Uuid.AcceptsLowerCaseExample | libs/core/src/lib/browser/uuid/uuid.validators.ts:3-5 | a lower-case version 4 identifier is accepted |
| Uuid.AcceptsUpperCaseExample | libs/core/src/lib/browser/uuid/uuid.validators.ts:3-5 | the same identifier in upper case is accepted |
| Uuid.RejectsExamples | libs/core/src/lib/browser/uuid/uuid.validators.ts:3-16 | version 1, variant 'c', one digit short, the empty string and a missing value are all refused |

## Left out

- I/O and frameworks are not modelled: Angular, RxJS plumbing (`BehaviorSubject`, `scan`, `switchMap`, `shareReplay`), the web-worker fan-out of the bombe, and the 3D views. The `Subject` streams become a reducer applied one action at a time.
- `getTimersWithTimeElapsed` and the microwave's STARTED stream are ticking clocks. Time is a parameter instead: `Microwave.View` gives the value of one tick at time `now`.
- `createTimeIsUpGame` wires the reducer to a stream and is not modelled.
- Numbers are unbounded integers, not IEEE doubles. NaN is `None`. Rounding and very large timestamps are not modelled.
- Timers.ToggleAppendsUpdate: requires the timer to exist. On an unknown id the source spreads `undefined` and then fails on `currentTimer.statusUpdatesAt`; that failure is not modelled.
- The `WORDS` dictionary of the decrypt service is a parameter (`words`). The file holding it is not part of this model.
- Validators.ContainsOnlyAlphabetLetters: `toLowerCase` is modelled for ASCII and the Kelvin sign only. Other characters whose lower case is a letter are not modelled.
- Machine.ToLowerCase: lower-cases ASCII and the Kelvin sign only, one character to one character. JavaScript's `toLowerCase` also maps other characters, and some to more than one code unit: 'İ' (U+0130) becomes 'i' followed by U+0307. On such input the source encrypts the 'i', stepping the rotors once more, before it throws `InvalidLetter` on U+0307; the model throws `InvalidLetter` at once.
- Alphabet.GetLetterIndexInAlphabet: rotor positions and message characters are modelled as single characters. A multi-character name inherited from `Object.prototype`, which the source's check lets through (see Findings), is modelled by `Alphabet.GetLetterIndexOfStringAsWritten` only, not as an input of `Machine.SetInitialRotorConfig` or of the rotor constructors.
- ArrayDiff.ArrToMap: a JavaScript `Map` compares keys with SameValueZero, so object ids are equal only when they are the same reference. The model compares ids of any type `K` with Dafny's value equality, which agrees with SameValueZero on strings and integers but not on distinct objects with equal contents.
- Uuid.ValidatorAcceptsLayout: `RegExp.test` coerces non-string values to strings. The control value is modelled as a string or nothing.
- `computeEnigmaNextCombination` and the rest of the RxJS reducer (`enigma.utils.ts` lines 63-175) are not modelled: only the pure helpers it calls are.
- LegacyMachine.NewLegacyEnigmaMachine: requires the reflector's values to be indexes 0..25. The source checks only the keys, and the `REFLECTOR` token it injects is not part of this model.
- LegacyAlphabet.GetLetterPlusXAlphabetLoop: `toAdd` is a natural number. On a negative or fractional value the source recurses without end.
- Rotor.GoToNextRotorCombination: the `!rotors` branch for a missing triple is not modelled, because the parameter's type admits only triples. The RxJS copy of the branch is modelled by `EnigmaUtils.GetNextRotorCombination`.
- EnigmaUtils.GetNextRotorCombination: the `!rotors` branch is modelled as a missing value. An empty array is truthy in JavaScript and takes the other branch, which is also modelled.
- The microwave's own test file expects the planned time to start at 0, so that START without added time shows the reset state. `microwave.ts` starts at 10 000 ms, and the model follows `microwave.ts`.
- The machines' test ciphertexts are not restated: 'hello' gives 'bldxb' in the older library and 'coxsd' in the current one. The model proves the general properties instead (reciprocity, no fixed letter, agreement of the two libraries when the legacy machine is one step ahead). The two expected ciphertexts differ because both suites start from the same positions, and the legacy machine encodes each letter one step behind the current one. Evaluating a whole encryption on the concrete wirings is out of reach of the verifier's cheap evaluation.

## Findings

| source | as written | input that shows it | evidently intended | confidence | as-written member | corrected member |
|---|---|---|---|---|---|---|
| libs/enigma/enigma-utility/src/lib/alphabet.ts:121-129 | the range check looks at `String.fromCharCode(index + 97)`, and that call wraps its argument modulo 65536 | index 65536 (or -65536) yields 'a' instead of `InvalidLetter` | only indexes 0..25 are accepted | not executed | Alphabet.GetLetterFromIndexAcceptsWrappedIndex | Alphabet.GetLetterFromIndexInAlphabet |
| libs/enigma/enigma-utility/src/lib/alphabet.ts:62-67 | the lookup table is built on a plain `{}`, so `validLettersMap[letter]` also finds the names inherited from `Object.prototype` | `isValidAlphabetLetter("constructor")` is truthy and `getLetterIndexInAlphabet("constructor")` returns 2 (`"__proto__"` gives -2) | only the 26 letters pass the check | high; not executed | Alphabet.ValidLettersMapAcceptsInheritedKeys | Alphabet.ValidAlphabetLetterIsOneOfTwentySix |
