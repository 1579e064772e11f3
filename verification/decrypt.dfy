/** Trying one rotor position on a ciphertext and keeping the result only if
    it looks like English (libs/enigma/enigma-bombe/src/lib/enigma-decrypt.service.ts).
    The dictionary is a parameter. */
module Decrypt {
  import opened Results
  import opened Alphabet
  import opened Machine

  /** Only words longer than this can count. */
  const WORD_MIN_LENGTH: int := 3

  /** Number of dictionary words that makes a text English. */
  const THRESHOLD_WORDS_FOUND: int := 3

  // ---------------------------------------------------------------------
  // `String.prototype.split` with a one-character separator.

  /** The pieces between the separators, empty pieces included: n separators
      give n + 1 pieces. */
  function Split(s: string, separator: char): (pieces: seq<string>)
    ensures |pieces| >= 1
    ensures forall i :: 0 <= i < |pieces| ==> separator !in pieces[i]
    decreases |s|
  {
    if |s| == 0 then [[]]
    else
      var rest := Split(s[1..], separator);
      if s[0] == separator then [[]] + rest
      else [[s[0]] + rest[0]] + rest[1..]
  }

  /** `pieces.join(separator)`. */
  function Join(pieces: seq<string>, separator: char): string
    requires |pieces| >= 1
  {
    if |pieces| == 1 then pieces[0] else pieces[0] + [separator] + Join(pieces[1..], separator)
  }

  /** Joining the pieces back gives the original text. */
  lemma {:induction false} JoinOfSplit(s: string, separator: char)
    ensures Join(Split(s, separator), separator) == s
    decreases |s|
  {
    if |s| > 0 {
      var rest := Split(s[1..], separator);
      JoinOfSplit(s[1..], separator);
      if s[0] == separator {
        assert ([[]] + rest)[1..] == rest;
      } else if |rest| > 1 {
        var pieces := [[s[0]] + rest[0]] + rest[1..];
        assert pieces[1..] == rest[1..];
        assert Join(rest, separator) == rest[0] + [separator] + Join(rest[1..], separator);
      }
    }
  }

  /** A text without the separator is one piece. */
  lemma {:induction false} SplitOfPiece(p: string, separator: char)
    requires separator !in p
    ensures Split(p, separator) == [p]
    decreases |p|
  {
    if |p| > 0 {
      assert separator !in p[1..];
      SplitOfPiece(p[1..], separator);
      assert [p[0]] + p[1..] == p;
    }
  }

  /** A piece followed by the separator splits off as the first piece. */
  lemma {:induction false} SplitOfPieceThenSeparator(p: string, separator: char, t: string)
    requires separator !in p
    ensures Split(p + [separator] + t, separator) == [p] + Split(t, separator)
    decreases |p|
  {
    var s := p + [separator] + t;
    if |p| == 0 {
      assert s == [separator] + t && s[1..] == t;
    } else {
      assert s[1..] == p[1..] + [separator] + t;
      assert separator !in p[1..];
      SplitOfPieceThenSeparator(p[1..], separator, t);
      assert [p[0]] + p[1..] == p;
    }
  }

  /** Splitting a join of separator-free pieces gives the pieces back. */
  lemma {:induction false} SplitOfJoin(pieces: seq<string>, separator: char)
    requires |pieces| >= 1 && forall i :: 0 <= i < |pieces| ==> separator !in pieces[i]
    ensures Split(Join(pieces, separator), separator) == pieces
    decreases |pieces|
  {
    if |pieces| == 1 {
      SplitOfPiece(pieces[0], separator);
    } else {
      SplitOfJoin(pieces[1..], separator);
      SplitOfPieceThenSeparator(pieces[0], separator, Join(pieces[1..], separator));
      assert [pieces[0]] + pieces[1..] == pieces;
    }
  }

  // ---------------------------------------------------------------------
  // `getMessageIfEnglish`.

  /** A word that counts: longer than WORD_MIN_LENGTH and in the dictionary. */
  predicate IsFoundWord(element: string, words: set<string>) {
    |element| > WORD_MIN_LENGTH && element in words
  }

  /** Number of counting words, over the whole list. */
  function CountFoundWords(elements: seq<string>, words: set<string>): (n: nat)
    ensures n <= |elements|
  {
    if |elements| == 0 then 0
    else
      var last := if IsFoundWord(elements[|elements| - 1], words) then 1 else 0;
      CountFoundWords(elements[..|elements| - 1], words) + last
  }

  /** A prefix never counts more words than the whole list. */
  lemma {:induction false} CountOfPrefixIsAtMost(elements: seq<string>, words: set<string>, i: int)
    requires 0 <= i <= |elements|
    ensures CountFoundWords(elements[..i], words) <= CountFoundWords(elements, words)
    decreases |elements|
  {
    if i < |elements| {
      var init := elements[..|elements| - 1];
      assert init[..i] == elements[..i];
      CountOfPrefixIsAtMost(init, words, i);
    } else {
      assert elements[..i] == elements;
    }
  }

  /** Short words, the empty pieces from repeated spaces among them, never
      count: only the dictionary's long words matter. */
  lemma {:induction false} OnlyLongWordsCount(elements: seq<string>, words: set<string>)
    ensures CountFoundWords(elements, words)
         == CountFoundWords(elements, set w | w in words && |w| > WORD_MIN_LENGTH)
  {
    if |elements| > 0 {
      OnlyLongWordsCount(elements[..|elements| - 1], words);
    }
  }

  /** The loop with its early return: the text is returned as soon as the
      counter reaches the threshold, which happens exactly when the whole
      text holds THRESHOLD_WORDS_FOUND counting words. */
  method GetMessageIfEnglish(decryptedMessage: string, words: set<string>) returns (r: Option<string>)
    ensures r.Some? <==> CountFoundWords(Split(decryptedMessage, SPACE), words) >= THRESHOLD_WORDS_FOUND
    ensures r.Some? ==> r.value == decryptedMessage
  {
    var decryptedMessageWords := Split(decryptedMessage, SPACE);
    var foundWordsCounter := 0;
    for index := 0 to |decryptedMessageWords|
      invariant foundWordsCounter == CountFoundWords(decryptedMessageWords[..index], words)
      invariant foundWordsCounter < THRESHOLD_WORDS_FOUND
    {
      var element := decryptedMessageWords[index];
      assert decryptedMessageWords[..index + 1][..index] == decryptedMessageWords[..index];
      if |element| > WORD_MIN_LENGTH && element in words {
        foundWordsCounter := foundWordsCounter + 1;
      }
      if foundWordsCounter >= THRESHOLD_WORDS_FOUND {
        CountOfPrefixIsAtMost(decryptedMessageWords, words, index + 1);
        return Some(decryptedMessage);
      }
    }
    assert decryptedMessageWords[..|decryptedMessageWords|] == decryptedMessageWords;
    return None;
  }

  /** `decryptMessageFor1Combination`: set the initial position, encrypt the
      ciphertext (which decrypts it), keep the text only if it is English.
      The machine keeps the tried position as its initial state. */
  method DecryptMessageFor1Combination(
    m: EnigmaMachine, initialRotorPosition: seq<char>, encryptedMessage: string, words: set<string>)
    returns (m': EnigmaMachine, r: Result<Option<string>>)
    requires Valid(m) && |initialRotorPosition| == NB_ROTORS_REQUIRED
    ensures Valid(m')
    ensures r.Err? ==> r.error == InvalidLetter
    ensures SetInitialRotorConfig(m, initialRotorPosition).Err? ==> r.Err? && m' == m
    ensures SetInitialRotorConfig(m, initialRotorPosition).Ok? ==>
      m' == EncryptMessage(SetInitialRotorConfig(m, initialRotorPosition).value, encryptedMessage).0 &&
      (r.Ok? <==> EncryptMessage(SetInitialRotorConfig(m, initialRotorPosition).value, encryptedMessage).1.Ok?)
    ensures r.Ok? && r.value.Some? ==>
      r.value.value == EncryptMessage(SetInitialRotorConfig(m, initialRotorPosition).value, encryptedMessage).1.value
    ensures r.Ok? ==>
      var decrypted := EncryptMessage(SetInitialRotorConfig(m, initialRotorPosition).value, encryptedMessage).1.value;
      (r.value.Some? <==> CountFoundWords(Split(decrypted, SPACE), words) >= THRESHOLD_WORDS_FOUND)
    ensures r.Ok? ==> forall k :: 0 <= k < NB_ROTORS_REQUIRED ==>
      m'.initialStateRotors[k] == LetterIndex(initialRotorPosition[k])
  {
    var configured := SetInitialRotorConfig(m, initialRotorPosition);
    if configured.Err? {
      return m, Err(configured.error);
    }
    var (after, decrypted) := EncryptMessage(configured.value, encryptedMessage);
    m' := after;
    if decrypted.Err? {
      return m', Err(decrypted.error);
    }
    var english := GetMessageIfEnglish(decrypted.value, words);
    r := Ok(english);
  }
}
