/** Rotor wiring tables and the odometer stepping of the rotor positions
    (libs/enigma/enigma-machine/src/lib/rotor.ts). */
module Rotor {
  import opened Alphabet

  const LETTER_INDEX_A: int := 0
  const LETTER_INDEX_Z: int := 25

  /** Number of rotor positions: 26 * 26 * 26. */
  const COMBINATIONS: int := 17576

  /** `moduloWithPositiveOrNegative`: keeps a positive offset, adds the base
      to any other; so an offset of 0 becomes `base`, not 0. */
  function ModuloWithPositiveOrNegative(base: int, number: int): int {
    if number > 0 then number else base + number
  }

  lemma ModuloWithPositiveOrNegativeIsShiftedModulo(d: int)
    requires -25 <= d <= 25
    ensures 1 <= ModuloWithPositiveOrNegative(ALPHABET_SIZE, d) <= 26
    ensures ModuloWithPositiveOrNegative(ALPHABET_SIZE, d) % 26 == d % 26
    ensures d == 0 ==> ModuloWithPositiveOrNegative(ALPHABET_SIZE, d) == 26
  {
  }

  /** Relative offsets for both signal directions, indexed like the JS
      (possibly sparse) arrays. */
  datatype BiMap = BiMap(leftToRight: map<int, int>, rightToLeft: map<int, int>)

  /** No later position of the prefix of length n holds the same letter as k. */
  predicate LastOccurrence(alphabet: seq<char>, n: int, k: int)
    requires 0 <= k < n <= |alphabet|
  {
    forall k' :: k < k' < n ==> alphabet[k'] != alphabet[k]
  }

  /** The `reduce` of `createBiMapFromAlphabet` after its first n steps:
      `leftToRight` gets one entry per position, `rightToLeft` one write per
      letter, later writes overwriting earlier ones. */
  function BiMapOfPrefix(alphabet: seq<char>, n: nat): (b: BiMap)
    requires n <= |alphabet|
    requires forall k :: 0 <= k < |alphabet| ==> IsLetter(alphabet[k])
    ensures forall i :: i in b.leftToRight <==> 0 <= i < n
    ensures forall i :: 0 <= i < n ==>
      b.leftToRight[i] == ModuloWithPositiveOrNegative(ALPHABET_SIZE, LetterIndex(alphabet[i]) - i)
    ensures forall k :: 0 <= k < n ==> LetterIndex(alphabet[k]) in b.rightToLeft
    ensures forall l :: l in b.rightToLeft ==> 0 <= l < ALPHABET_SIZE && b.rightToLeft[l] >= 1
  {
    if n == 0 then BiMap(map[], map[])
    else
      var acc := BiMapOfPrefix(alphabet, n - 1);
      var index := n - 1;
      var letterIndex := LetterIndex(alphabet[index]);
      BiMap(
        acc.leftToRight[index := ModuloWithPositiveOrNegative(ALPHABET_SIZE, letterIndex - index)],
        acc.rightToLeft[letterIndex := ModuloWithPositiveOrNegative(ALPHABET_SIZE, -(letterIndex - index))])
  }

  /** The entry of `rightToLeft` for a letter comes from its last occurrence. */
  lemma RightToLeftFromLastOccurrence(alphabet: seq<char>, n: nat, k: int)
    requires n <= |alphabet|
    requires forall k :: 0 <= k < |alphabet| ==> IsLetter(alphabet[k])
    requires 0 <= k < n && LastOccurrence(alphabet, n, k)
    ensures BiMapOfPrefix(alphabet, n).rightToLeft[LetterIndex(alphabet[k])]
         == ModuloWithPositiveOrNegative(ALPHABET_SIZE, k - LetterIndex(alphabet[k]))
  {
    RightToLeftOfPrefixAgrees(alphabet, n);
    LastWriteWins(alphabet, n, k);
  }

  /** The `rightToLeft` writes of the first n steps, on their own. */
  function RightToLeftOfPrefix(alphabet: seq<char>, n: nat): map<int, int>
    requires n <= |alphabet|
  {
    if n == 0 then map[]
    else
      var letterIndex := LetterIndex(alphabet[n - 1]);
      RightToLeftOfPrefix(alphabet, n - 1)[letterIndex := ModuloWithPositiveOrNegative(ALPHABET_SIZE, -(letterIndex - (n - 1)))]
  }

  lemma {:induction false} RightToLeftOfPrefixAgrees(alphabet: seq<char>, n: nat)
    requires n <= |alphabet|
    requires forall k :: 0 <= k < |alphabet| ==> IsLetter(alphabet[k])
    ensures BiMapOfPrefix(alphabet, n).rightToLeft == RightToLeftOfPrefix(alphabet, n)
  {
    if n > 0 {
      RightToLeftOfPrefixAgrees(alphabet, n - 1);
      RightToLeftStep(alphabet, n);
    }
  }

  lemma RightToLeftStep(alphabet: seq<char>, n: nat)
    requires 0 < n <= |alphabet|
    requires forall k :: 0 <= k < |alphabet| ==> IsLetter(alphabet[k])
    ensures var letterIndex := LetterIndex(alphabet[n - 1]);
      BiMapOfPrefix(alphabet, n).rightToLeft
      == BiMapOfPrefix(alphabet, n - 1).rightToLeft[letterIndex := ModuloWithPositiveOrNegative(ALPHABET_SIZE, -(letterIndex - (n - 1)))]
  {
  }

  /** Later writes overwrite earlier ones: the last occurrence of a letter
      decides its entry. */
  lemma {:induction false} LastWriteWins(alphabet: seq<char>, n: nat, k: int)
    requires 0 <= k < n <= |alphabet| && LastOccurrence(alphabet, n, k)
    ensures LetterIndex(alphabet[k]) in RightToLeftOfPrefix(alphabet, n)
    ensures RightToLeftOfPrefix(alphabet, n)[LetterIndex(alphabet[k])]
         == ModuloWithPositiveOrNegative(ALPHABET_SIZE, k - LetterIndex(alphabet[k]))
  {
    if k < n - 1 {
      assert LastOccurrence(alphabet, n - 1, k);
      LastWriteWins(alphabet, n - 1, k);
      assert alphabet[n - 1] != alphabet[k];
    }
  }

  /** `createBiMapFromAlphabet` over the letters of a wiring. */
  function CreateBiMapFromAlphabet(alphabet: seq<char>): BiMap
    requires forall k :: 0 <= k < |alphabet| ==> IsLetter(alphabet[k])
  {
    BiMapOfPrefix(alphabet, |alphabet|)
  }

  /** For a 26-letter permutation both tables are defined at every index 0..25. */
  lemma BiMapOfPermutationIsTotal(w: seq<char>)
    requires IsPermutation(w)
    ensures forall k :: 0 <= k < |w| ==> IsLetter(w[k])
    ensures forall i :: i in CreateBiMapFromAlphabet(w).leftToRight <==> 0 <= i < ALPHABET_SIZE
    ensures forall i :: i in CreateBiMapFromAlphabet(w).rightToLeft <==> 0 <= i < ALPHABET_SIZE
  {
    PermutationIsInjective(w);
    var b := CreateBiMapFromAlphabet(w);
    forall i | 0 <= i < ALPHABET_SIZE ensures i in b.rightToLeft {
      var c := (i + CHAR_CODE_LETTER_A) as char;
      PermutationPosition(w, c);
      assert LetterIndex(w[IndexOf(w, c)]) == i;
    }
  }

  /** `leftToRight[i]` is the offset, in 1..26, from i to the letter wired at i. */
  lemma LeftToRightOfPermutation(w: seq<char>, i: int)
    requires IsPermutation(w) && 0 <= i < ALPHABET_SIZE
    ensures forall k :: 0 <= k < |w| ==> IsLetter(w[k])
    ensures 1 <= CreateBiMapFromAlphabet(w).leftToRight[i] <= 26
    ensures CreateBiMapFromAlphabet(w).leftToRight[i] % 26 == (LetterIndex(w[i]) - i) % 26
  {
    PermutationIsInjective(w);
    ModuloWithPositiveOrNegativeIsShiftedModulo(LetterIndex(w[i]) - i);
  }

  /** The offsets for d and -d: each in 1..26, and they cancel modulo 26. */
  lemma OppositeOffsetsCancel(d: int)
    requires -25 <= d <= 25
    ensures 1 <= ModuloWithPositiveOrNegative(ALPHABET_SIZE, -d) <= 26
    ensures ModuloWithPositiveOrNegative(ALPHABET_SIZE, -d) % 26 == (-d) % 26
    ensures (ModuloWithPositiveOrNegative(ALPHABET_SIZE, d) + ModuloWithPositiveOrNegative(ALPHABET_SIZE, -d)) % 26 == 0
  {
    ModuloWithPositiveOrNegativeIsShiftedModulo(d);
    ModuloWithPositiveOrNegativeIsShiftedModulo(-d);
  }

  /** `rightToLeft` at the letter wired at i undoes `leftToRight[i]` modulo 26. */
  lemma RightToLeftOfPermutation(w: seq<char>, i: int)
    requires IsPermutation(w) && 0 <= i < ALPHABET_SIZE
    ensures forall k :: 0 <= k < |w| ==> IsLetter(w[k])
    ensures LetterIndex(w[i]) in CreateBiMapFromAlphabet(w).rightToLeft
    ensures 1 <= CreateBiMapFromAlphabet(w).rightToLeft[LetterIndex(w[i])] <= 26
    ensures CreateBiMapFromAlphabet(w).rightToLeft[LetterIndex(w[i])] % 26 == (i - LetterIndex(w[i])) % 26
    ensures (CreateBiMapFromAlphabet(w).leftToRight[i]
             + CreateBiMapFromAlphabet(w).rightToLeft[LetterIndex(w[i])]) % 26 == 0
  {
    PermutationIsInjective(w);
    var b := CreateBiMapFromAlphabet(w);
    var l := LetterIndex(w[i]);
    assert 0 <= l < ALPHABET_SIZE;
    assert LastOccurrence(w, |w|, i);
    RightToLeftFromLastOccurrence(w, |w|, i);
    assert b.rightToLeft[l] == ModuloWithPositiveOrNegative(ALPHABET_SIZE, -(l - i));
    assert b.leftToRight[i] == ModuloWithPositiveOrNegative(ALPHABET_SIZE, l - i);
    OppositeOffsetsCancel(l - i);
  }

  /** The documented table for the first historical rotor: +4, +9, +10, ...
      and +26 (not 0) at index 18, where 's' is wired to itself. */
  lemma FirstRotorOffsets(w: seq<char>)
    requires w == "ekmflgdqvzntowyhxuspaibrcj"
    ensures forall k :: 0 <= k < |w| ==> IsLetter(w[k])
    ensures CreateBiMapFromAlphabet(w).leftToRight[0] == 4
    ensures CreateBiMapFromAlphabet(w).leftToRight[1] == 9
    ensures CreateBiMapFromAlphabet(w).leftToRight[2] == 10
    ensures CreateBiMapFromAlphabet(w).leftToRight[6] == 23
    ensures CreateBiMapFromAlphabet(w).leftToRight[18] == 26
    ensures CreateBiMapFromAlphabet(w).leftToRight[25] == 10
  {
    assert w[0] == 'e' && w[1] == 'k' && w[2] == 'm' && w[6] == 'd' && w[18] == 's' && w[25] == 'j';
  }

  // ---------------------------------------------------------------------
  // Stepping: the positions are the digits of a little-endian base-26 counter.

  predicate IsDigits(numbers: seq<int>) {
    forall k :: 0 <= k < |numbers| ==> 0 <= numbers[k] <= LETTER_INDEX_Z
  }

  predicate AllZ(numbers: seq<int>) {
    forall k :: 0 <= k < |numbers| ==> numbers[k] == LETTER_INDEX_Z
  }

  /** `getNextNumberBase26` */
  function GetNextNumberBase26(numbers: seq<int>): (r: seq<int>)
    ensures |r| == |numbers|
  {
    if AllZ(numbers) then seq(|numbers|, _ => LETTER_INDEX_A)
    else if numbers[0] == LETTER_INDEX_Z then [LETTER_INDEX_A] + GetNextNumberBase26(numbers[1..])
    else [numbers[0] + 1] + numbers[1..]
  }

  /** `goToNextRotorCombination` on a triple of positions. */
  function GoToNextRotorCombination(rotors: seq<int>): (r: seq<int>)
    requires |rotors| == 3
    ensures |r| == 3
    ensures IsDigits(rotors) ==> IsDigits(r)
  {
    DigitsStayDigits(rotors);
    GetNextNumberBase26(rotors)
  }

  function Pow26(n: nat): (p: nat)
    ensures p >= 1
  {
    if n == 0 then 1 else 26 * Pow26(n - 1)
  }

  /** Little-endian value: rotor 0 is the least significant digit. */
  function Value(numbers: seq<int>): int {
    if numbers == [] then 0 else numbers[0] + 26 * Value(numbers[1..])
  }

  /** The digits of v modulo 26^n, least significant first. */
  function FromValue(v: int, n: nat): (r: seq<int>)
    ensures |r| == n && IsDigits(r)
    decreases n
  {
    if n == 0 then [] else [v % 26] + FromValue(v / 26, n - 1)
  }

  lemma {:induction false} ValueBounds(numbers: seq<int>)
    requires IsDigits(numbers)
    ensures 0 <= Value(numbers) < Pow26(|numbers|)
    ensures Value(numbers) == Pow26(|numbers|) - 1 <==> AllZ(numbers)
  {
    if numbers != [] {
      ValueBounds(numbers[1..]);
      if AllZ(numbers[1..]) && numbers[0] == LETTER_INDEX_Z {
        assert AllZ(numbers) by {
          forall k | 0 <= k < |numbers| ensures numbers[k] == LETTER_INDEX_Z {
            if k > 0 { assert numbers[k] == numbers[1..][k - 1]; }
          }
        }
      }
      if AllZ(numbers) {
        assert AllZ(numbers[1..]) by {
          forall k | 0 <= k < |numbers[1..]| ensures numbers[1..][k] == LETTER_INDEX_Z {
            assert numbers[1..][k] == numbers[k + 1];
          }
        }
      }
    }
  }

  lemma {:induction false} ValueOfZeros(n: nat)
    ensures Value(seq(n, _ => LETTER_INDEX_A)) == 0
  {
    if n > 0 {
      assert seq(n, _ => LETTER_INDEX_A)[1..] == seq(n - 1, _ => LETTER_INDEX_A);
      ValueOfZeros(n - 1);
    }
  }

  lemma {:induction false} DigitsStayDigits(numbers: seq<int>)
    ensures IsDigits(numbers) ==> IsDigits(GetNextNumberBase26(numbers))
  {
    if IsDigits(numbers) && !AllZ(numbers) && numbers[0] == LETTER_INDEX_Z {
      DigitsStayDigits(numbers[1..]);
    }
  }

  /** Stepping adds one to the counter modulo 26^n (n = number of rotors). */
  lemma {:induction false} NextNumberIsSuccessor(numbers: seq<int>)
    requires IsDigits(numbers)
    ensures IsDigits(GetNextNumberBase26(numbers))
    ensures Value(GetNextNumberBase26(numbers)) == (Value(numbers) + 1) % Pow26(|numbers|)
    decreases |numbers|, 1
  {
    DigitsStayDigits(numbers);
    ValueBounds(numbers);
    var m := Pow26(|numbers|);
    if AllZ(numbers) {
      ValueOfZeros(|numbers|);
      ModUnique(Value(numbers) + 1, m, 1, 0);
    } else if numbers[0] == LETTER_INDEX_Z {
      SuccessorWithCarry(numbers);
      ModUnique(Value(numbers) + 1, m, 0, Value(numbers) + 1);
    } else {
      var r := GetNextNumberBase26(numbers);
      assert r[1..] == numbers[1..];
      ModUnique(Value(numbers) + 1, m, 0, Value(numbers) + 1);
    }
  }

  /** The carry case: a leading Z becomes A and the rest is stepped, which
      cannot wrap since the rest is not all Zs. */
  lemma {:induction false} SuccessorWithCarry(numbers: seq<int>)
    requires IsDigits(numbers) && !AllZ(numbers) && numbers[0] == LETTER_INDEX_Z
    ensures Value(GetNextNumberBase26(numbers)) == Value(numbers) + 1
    decreases |numbers|, 0
  {
    var rest := numbers[1..];
    assert IsDigits(rest) by {
      forall k | 0 <= k < |rest| ensures 0 <= rest[k] <= LETTER_INDEX_Z {
        assert rest[k] == numbers[k + 1];
      }
    }
    NextNumberIsSuccessor(rest);
    ValueBounds(rest);
    ModUnique(Value(rest) + 1, Pow26(|rest|), 0, Value(rest) + 1);
    var r := GetNextNumberBase26(numbers);
    assert r[1..] == GetNextNumberBase26(rest);
  }

  /** The carry rule: leading Zs become A, the first other digit goes up by
      one, later digits are kept; all Zs wrap to all As. */
  lemma {:induction false} CarryRule(numbers: seq<int>, p: int)
    requires 0 <= p < |numbers| && numbers[p] != LETTER_INDEX_Z
    requires forall k :: 0 <= k < p ==> numbers[k] == LETTER_INDEX_Z
    ensures forall k :: 0 <= k < p ==> GetNextNumberBase26(numbers)[k] == LETTER_INDEX_A
    ensures GetNextNumberBase26(numbers)[p] == numbers[p] + 1
    ensures forall k :: p < k < |numbers| ==> GetNextNumberBase26(numbers)[k] == numbers[k]
  {
    if p > 0 {
      CarryRule(numbers[1..], p - 1);
      var r := GetNextNumberBase26(numbers);
      assert r[1..] == GetNextNumberBase26(numbers[1..]);
      forall k | 0 < k < |numbers| ensures r[k] == r[1..][k - 1] { }
    }
  }

  lemma AllZWrapsToAllA(numbers: seq<int>)
    requires AllZ(numbers)
    ensures forall k :: 0 <= k < |numbers| ==> GetNextNumberBase26(numbers)[k] == LETTER_INDEX_A
  {
  }

  /** The examples documented in the source and its tests. */
  lemma StepExamples()
    ensures GoToNextRotorCombination([0, 0, 0]) == [1, 0, 0]
    ensures GoToNextRotorCombination([25, 0, 0]) == [0, 1, 0]
    ensures GoToNextRotorCombination([25, 25, 0]) == [0, 0, 1]
    ensures GoToNextRotorCombination([25, 25, 25]) == [0, 0, 0]
  {
    assert [0, 0, 0][0] != LETTER_INDEX_Z && [25, 0, 0][1] != LETTER_INDEX_Z && [25, 25, 0][2] != LETTER_INDEX_Z;
    assert [0, 0][0] != LETTER_INDEX_Z && [25, 0][1] != LETTER_INDEX_Z && [0][0] != LETTER_INDEX_Z;
    assert AllZ([25, 25, 25]);
  }

  // ---------------------------------------------------------------------
  // The counter as a bijection with a single orbit of length 26^3.

  lemma {:induction false} FromValueValue(v: int, n: nat)
    requires v >= 0
    ensures Value(FromValue(v, n)) == v % Pow26(n)
  {
    if n > 0 {
      FromValueValue(v / 26, n - 1);
      var r := FromValue(v, n);
      assert r[1..] == FromValue(v / 26, n - 1);
      assert Value(r) == v % 26 + 26 * ((v / 26) % Pow26(n - 1));
      DivModNested(v, Pow26(n - 1));
    }
  }

  lemma DivModNested(v: int, q: int)
    requires v >= 0 && q >= 1
    ensures v % 26 + 26 * ((v / 26) % q) == v % (26 * q)
  {
    var a := v / 26;
    var b := v % 26;
    var c := a / q;
    var d := a % q;
    assert a == c * q + d;
    assert v == (26 * q) * c + (26 * d + b);
    assert 0 <= 26 * d + b < 26 * q;
    ModUnique(v, 26 * q, c, 26 * d + b);
  }

  lemma ModUnique(v: int, m: int, c: int, r: int)
    requires m >= 1 && v == m * c + r && 0 <= r < m
    ensures v % m == r && v / m == c
  {
    var d := c - v / m;
    assert m * d == v % m - r;
    if d >= 1 {
      MulAtLeast(m, d);
    } else if d <= -1 {
      MulAtLeast(m, -d);
    }
  }

  lemma {:induction false} MulAtLeast(m: int, d: int)
    requires m >= 1 && d >= 1
    ensures m * d >= m
  {
    if d > 1 {
      MulAtLeast(m, d - 1);
      assert m * d == m * (d - 1) + m;
    }
  }

  /** Adding one commutes with reduction modulo m. */
  lemma ModSuccessor(a: int, m: int)
    requires a >= 0 && m >= 1
    ensures ((a % m) + 1) % m == (a + 1) % m
  {
    var q := a / m;
    var r := a % m;
    if r + 1 < m {
      ModUnique(a + 1, m, q, r + 1);
      ModUnique(r + 1, m, 0, r + 1);
    } else {
      ModUnique(a + 1, m, q + 1, 0);
      ModUnique(r + 1, m, 1, 0);
    }
  }

  /** Two digit strings of the same length with the same value are equal. */
  lemma {:induction false} ValueInjective(a: seq<int>, b: seq<int>)
    requires |a| == |b| && IsDigits(a) && IsDigits(b) && Value(a) == Value(b)
    ensures a == b
  {
    if a != [] {
      assert a[0] == Value(a) % 26 by { ModUnique(Value(a), 26, Value(a[1..]), a[0]); }
      assert b[0] == Value(b) % 26 by { ModUnique(Value(b), 26, Value(b[1..]), b[0]); }
      ValueInjective(a[1..], b[1..]);
      assert a == [a[0]] + a[1..];
      assert b == [b[0]] + b[1..];
    }
  }

  predicate IsTriple(t: seq<int>) {
    |t| == 3 && IsDigits(t)
  }

  /** k steps of the odometer. */
  function StepN(t: seq<int>, k: nat): (r: seq<int>)
    requires IsTriple(t)
    ensures IsTriple(r)
  {
    if k == 0 then t else GoToNextRotorCombination(StepN(t, k - 1))
  }

  /** Stepping once and then k times is stepping k + 1 times. */
  lemma {:induction false} StepNAfterStep(t: seq<int>, k: nat)
    requires IsTriple(t)
    ensures StepN(GoToNextRotorCombination(t), k) == StepN(t, k + 1)
  {
    if k > 0 {
      StepNAfterStep(t, k - 1);
    }
  }

  lemma Pow26Three()
    ensures Pow26(3) == COMBINATIONS
  {
  }

  lemma {:induction false} StepNValue(t: seq<int>, k: nat)
    requires IsTriple(t)
    ensures Value(StepN(t, k)) == (Value(t) + k) % COMBINATIONS
  {
    ValueBounds(t);
    Pow26Three();
    if k == 0 {
      ModUnique(Value(t), COMBINATIONS, 0, Value(t));
    } else {
      var before := StepN(t, k - 1);
      StepNValue(t, k - 1);
      NextNumberIsSuccessor(before);
      assert StepN(t, k) == GetNextNumberBase26(before);
      assert Value(StepN(t, k)) == (Value(before) + 1) % COMBINATIONS;
      ModSuccessor(Value(t) + k - 1, COMBINATIONS);
    }
  }

  /** The orbit of every triple has length exactly 26^3: k steps come back to
      the start iff k is a multiple of 17576. */
  lemma OrbitLength(t: seq<int>, k: nat)
    requires IsTriple(t)
    ensures StepN(t, k) == t <==> k % COMBINATIONS == 0
  {
    StepNValue(t, k);
    ValueBounds(t);
    Pow26Three();
    var q := k / COMBINATIONS;
    var r := k % COMBINATIONS;
    ModUnique(Value(t), COMBINATIONS, 0, Value(t));
    if r == 0 {
      ModUnique(Value(t) + k, COMBINATIONS, q, Value(t));
      ValueInjective(StepN(t, k), t);
    } else if Value(t) + r < COMBINATIONS {
      ModUnique(Value(t) + k, COMBINATIONS, q, Value(t) + r);
    } else {
      ModUnique(Value(t) + k, COMBINATIONS, q + 1, Value(t) + r - COMBINATIONS);
    }
  }

  /** The digits of the value before t's, cyclically. */
  function PreviousValue(t: seq<int>): int
    requires IsTriple(t)
  {
    if Value(t) == 0 then COMBINATIONS - 1 else Value(t) - 1
  }

  lemma StepAfterPreviousValue(t: seq<int>)
    requires IsTriple(t)
    ensures IsTriple(FromValue(PreviousValue(t), 3))
    ensures GoToNextRotorCombination(FromValue(PreviousValue(t), 3)) == t
  {
    ValueBounds(t);
    Pow26Three();
    var v := PreviousValue(t);
    var p := FromValue(v, 3);
    FromValueValue(v, 3);
    ModUnique(v, COMBINATIONS, 0, v);
    NextNumberIsSuccessor(p);
    if Value(t) == 0 {
      ModUnique(v + 1, COMBINATIONS, 1, 0);
    } else {
      ModUnique(v + 1, COMBINATIONS, 0, v + 1);
    }
    ValueInjective(GoToNextRotorCombination(p), t);
  }

  /** The triple before t in stepping order. */
  function Previous(t: seq<int>): (p: seq<int>)
    requires IsTriple(t)
    ensures IsTriple(p)
    ensures GoToNextRotorCombination(p) == t
  {
    StepAfterPreviousValue(t);
    FromValue(PreviousValue(t), 3)
  }

  /** Stepping is a bijection on triples of digits. */
  lemma StepIsBijective(a: seq<int>, b: seq<int>)
    requires IsTriple(a) && IsTriple(b)
    ensures GoToNextRotorCombination(a) == GoToNextRotorCombination(b) ==> a == b
    ensures GoToNextRotorCombination(Previous(a)) == a
  {
    NextNumberIsSuccessor(a);
    NextNumberIsSuccessor(b);
    ValueBounds(a);
    ValueBounds(b);
    if GoToNextRotorCombination(a) == GoToNextRotorCombination(b) {
      ValueInjective(a, b);
    }
  }
}
