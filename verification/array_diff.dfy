/** `arrToMap` and `arrayDiff` (libs/common/object-utility/src/lib/array-diff.ts).
    A JavaScript `Map` is modelled as its entries in insertion order, which
    is the order `forEach` visits them in. */
module ArrayDiff {

  /** Index of the first element whose identifier is k, or -1. */
  function FirstWithId<T, K(==)>(arr: seq<T>, id: T -> K, k: K): (t: int)
    ensures -1 <= t < |arr|
    ensures t >= 0 ==> id(arr[t]) == k
    ensures forall u :: 0 <= u < |arr| && (t < 0 || u < t) ==> id(arr[u]) != k
    decreases |arr|
  {
    if |arr| == 0 then -1
    else
      var f := FirstWithId(arr[..|arr| - 1], id, k);
      if f >= 0 then f else if id(arr[|arr| - 1]) == k then |arr| - 1 else -1
  }

  /** Index of the last element whose identifier is k, or -1. */
  function LastWithId<T, K(==)>(arr: seq<T>, id: T -> K, k: K): (t: int)
    ensures -1 <= t < |arr|
    ensures t >= 0 ==> id(arr[t]) == k
    ensures forall u :: t < u < |arr| ==> id(arr[u]) != k
    decreases |arr|
  {
    if |arr| == 0 then -1
    else if id(arr[|arr| - 1]) == k then |arr| - 1
    else LastWithId(arr[..|arr| - 1], id, k)
  }

  /** Some element has identifier k. */
  predicate IdOccurs<T, K(==)>(arr: seq<T>, id: T -> K, k: K) {
    exists t :: 0 <= t < |arr| && id(arr[t]) == k
  }

  function Keys<K, T>(m: seq<(K, T)>): (ks: seq<K>)
    ensures |ks| == |m| && forall i :: 0 <= i < |m| ==> ks[i] == m[i].0
  {
    seq(|m|, i requires 0 <= i < |m| => m[i].0)
  }

  predicate DistinctKeys<K(==), T>(m: seq<(K, T)>) {
    forall i, j :: 0 <= i < j < |m| ==> m[i].0 != m[j].0
  }

  /** `Map.prototype.set`: an existing key keeps its place and gets the new
      value; a new key goes at the end. */
  function MapSet<K(==), T>(m: seq<(K, T)>, k: K, v: T): (r: seq<(K, T)>)
    ensures k in Keys(m) ==> |r| == |m| && forall i :: 0 <= i < |m| ==> r[i] == (if m[i].0 == k then (k, v) else m[i])
    ensures k !in Keys(m) ==> r == m + [(k, v)]
  {
    if |m| == 0 then [(k, v)]
    else if m[0].0 == k then [(k, v)] + MapSet(m[1..], k, v)[..|m| - 1]
    else [m[0]] + MapSet(m[1..], k, v)
  }

  /** `arrToMap`: the `reduce` that sets every element under its identifier. */
  function ArrToMap<T, K(==)>(arr: seq<T>, id: T -> K): (m: seq<(K, T)>)
    decreases |arr|
  {
    if |arr| == 0 then []
    else
      var last := arr[|arr| - 1];
      MapSet(ArrToMap(arr[..|arr| - 1], id), id(last), last)
  }

  /** Every entry is keyed by the identifier of its value. */
  predicate KeyedByIds<T, K(==)>(id: T -> K, m: seq<(K, T)>) {
    forall i :: 0 <= i < |m| ==> m[i].0 == id(m[i].1)
  }

  /** Every entry holds the LAST element with its identifier. */
  predicate HoldsLastElements<T(==), K(==)>(arr: seq<T>, id: T -> K, m: seq<(K, T)>) {
    forall i :: 0 <= i < |m| ==>
      LastWithId(arr, id, m[i].0) >= 0 && m[i].1 == arr[LastWithId(arr, id, m[i].0)]
  }

  /** Every identifier that occurs has an entry. */
  predicate CoversIds<T, K(==)>(arr: seq<T>, id: T -> K, m: seq<(K, T)>) {
    forall t :: 0 <= t < |arr| ==> id(arr[t]) in Keys(m)
  }

  /** The entries come in the order of their identifiers' FIRST occurrence. */
  predicate InFirstOccurrenceOrder<T, K(==)>(arr: seq<T>, id: T -> K, m: seq<(K, T)>) {
    forall i, j :: 0 <= i < j < |m| ==> FirstWithId(arr, id, m[i].0) < FirstWithId(arr, id, m[j].0)
  }

  /** What `arrToMap` builds: one entry per identifier that occurs, holding
      the last element with that identifier, in first-occurrence order. */
  predicate IsIdMap<T(==), K(==)>(arr: seq<T>, id: T -> K, m: seq<(K, T)>) {
    DistinctKeys(m) && KeyedByIds(id, m) && HoldsLastElements(arr, id, m) &&
    CoversIds(arr, id, m) && InFirstOccurrenceOrder(arr, id, m)
  }

  lemma {:induction false} ArrToMapIsIdMap<T, K>(arr: seq<T>, id: T -> K)
    ensures IsIdMap(arr, id, ArrToMap(arr, id))
    decreases |arr|
  {
    if |arr| > 0 {
      var n := |arr| - 1;
      var m0 := ArrToMap(arr[..n], id);
      ArrToMapIsIdMap(arr[..n], id);
      assert ArrToMap(arr, id) == MapSet(m0, id(arr[n]), arr[n]);
      SetKeepsIdMap(arr, id, m0);
    }
  }

  /** Setting the last element of arr on the map of its prefix gives the
      map of arr. */
  lemma SetKeepsIdMap<T, K>(arr: seq<T>, id: T -> K, m0: seq<(K, T)>)
    requires |arr| > 0 && IsIdMap(arr[..|arr| - 1], id, m0)
    ensures IsIdMap(arr, id, MapSet(m0, id(arr[|arr| - 1]), arr[|arr| - 1]))
  {
    var n := |arr| - 1;
    KeysStep(m0, id, arr[n]);
    CoversStep(arr, id, m0);
    LastStep(arr, id, m0);
    if id(arr[n]) in Keys(m0) {
      OrderStepExisting(arr, id, m0);
    } else {
      OrderStepNew(arr, id, m0);
    }
  }

  /** First and last occurrences in arr from those in its prefix. */
  lemma OccurrencesOfPrefix<T, K>(arr: seq<T>, id: T -> K, k: K)
    requires |arr| > 0
    ensures var n := |arr| - 1;
      LastWithId(arr, id, k) == (if id(arr[n]) == k then n else LastWithId(arr[..n], id, k)) &&
      FirstWithId(arr, id, k) ==
        (if FirstWithId(arr[..n], id, k) >= 0 then FirstWithId(arr[..n], id, k)
         else if id(arr[n]) == k then n else -1)
  {
  }

  /** An entry's identifier occurs, so it has a first occurrence. */
  lemma KeyHasOccurrence<T, K>(arr: seq<T>, id: T -> K, m: seq<(K, T)>, i: int)
    requires HoldsLastElements(arr, id, m) && 0 <= i < |m|
    ensures FirstWithId(arr, id, m[i].0) >= 0
  {
    var t := LastWithId(arr, id, m[i].0);
    assert id(arr[t]) == m[i].0;
  }

  lemma KeysStep<T, K>(m0: seq<(K, T)>, id: T -> K, x: T)
    requires DistinctKeys(m0) && KeyedByIds(id, m0)
    ensures DistinctKeys(MapSet(m0, id(x), x)) && KeyedByIds(id, MapSet(m0, id(x), x))
  {
  }

  lemma CoversStep<T, K>(arr: seq<T>, id: T -> K, m0: seq<(K, T)>)
    requires |arr| > 0 && CoversIds(arr[..|arr| - 1], id, m0)
    ensures CoversIds(arr, id, MapSet(m0, id(arr[|arr| - 1]), arr[|arr| - 1]))
  {
    var n := |arr| - 1;
    var m := MapSet(m0, id(arr[n]), arr[n]);
    forall t | 0 <= t < |arr|
      ensures id(arr[t]) in Keys(m)
    {
      if t < n {
        assert arr[t] == arr[..n][t];
        MapSetKeepsKeys(m0, id(arr[n]), arr[n], id(arr[t]));
      } else {
        MapSetKeepsKeys(m0, id(arr[n]), arr[n], id(arr[n]));
      }
    }
  }

  /** `set` keeps every key and adds its own. */
  lemma MapSetKeepsKeys<K, T>(m0: seq<(K, T)>, k: K, v: T, x: K)
    requires x in Keys(m0) || x == k
    ensures x in Keys(MapSet(m0, k, v))
  {
    var m := MapSet(m0, k, v);
    if k in Keys(m0) {
      var i :| 0 <= i < |m0| && Keys(m0)[i] == (if x in Keys(m0) then x else k);
      assert Keys(m)[i] == x;
    } else if x == k {
      assert Keys(m)[|m0|] == x;
    } else {
      var i :| 0 <= i < |m0| && Keys(m0)[i] == x;
      assert Keys(m)[i] == x;
    }
  }

  lemma LastStep<T, K>(arr: seq<T>, id: T -> K, m0: seq<(K, T)>)
    requires |arr| > 0 && HoldsLastElements(arr[..|arr| - 1], id, m0)
    ensures HoldsLastElements(arr, id, MapSet(m0, id(arr[|arr| - 1]), arr[|arr| - 1]))
  {
    var n := |arr| - 1;
    var m := MapSet(m0, id(arr[n]), arr[n]);
    forall i | 0 <= i < |m|
      ensures LastWithId(arr, id, m[i].0) >= 0 && m[i].1 == arr[LastWithId(arr, id, m[i].0)]
    {
      OccurrencesOfPrefix(arr, id, m[i].0);
    }
  }

  lemma OrderStepExisting<T, K>(arr: seq<T>, id: T -> K, m0: seq<(K, T)>)
    requires |arr| > 0
    requires HoldsLastElements(arr[..|arr| - 1], id, m0) && InFirstOccurrenceOrder(arr[..|arr| - 1], id, m0)
    requires id(arr[|arr| - 1]) in Keys(m0)
    ensures InFirstOccurrenceOrder(arr, id, MapSet(m0, id(arr[|arr| - 1]), arr[|arr| - 1]))
  {
    var n := |arr| - 1;
    var m := MapSet(m0, id(arr[n]), arr[n]);
    forall i | 0 <= i < |m|
      ensures FirstWithId(arr, id, m[i].0) == FirstWithId(arr[..n], id, m0[i].0)
    {
      KeyHasOccurrence(arr[..n], id, m0, i);
      OccurrencesOfPrefix(arr, id, m[i].0);
    }
  }

  /** An identifier without an entry first occurs at the end. */
  lemma NewKeyFirstOccurs<T, K>(arr: seq<T>, id: T -> K, m0: seq<(K, T)>)
    requires |arr| > 0 && CoversIds(arr[..|arr| - 1], id, m0) && id(arr[|arr| - 1]) !in Keys(m0)
    ensures FirstWithId(arr, id, id(arr[|arr| - 1])) == |arr| - 1
  {
    var n := |arr| - 1;
    var k := id(arr[n]);
    forall t | 0 <= t < n
      ensures id(arr[..n][t]) != k
    {
    }
    OccurrencesOfPrefix(arr, id, k);
  }

  lemma OrderStepNew<T, K>(arr: seq<T>, id: T -> K, m0: seq<(K, T)>)
    requires |arr| > 0
    requires CoversIds(arr[..|arr| - 1], id, m0) && HoldsLastElements(arr[..|arr| - 1], id, m0)
    requires InFirstOccurrenceOrder(arr[..|arr| - 1], id, m0)
    requires id(arr[|arr| - 1]) !in Keys(m0)
    ensures InFirstOccurrenceOrder(arr, id, MapSet(m0, id(arr[|arr| - 1]), arr[|arr| - 1]))
  {
    var n := |arr| - 1;
    var m := MapSet(m0, id(arr[n]), arr[n]);
    NewKeyFirstOccurs(arr, id, m0);
    forall i, j | 0 <= i < j < |m|
      ensures FirstWithId(arr, id, m[i].0) < FirstWithId(arr, id, m[j].0)
    {
      OldKeyFirstOccurs(arr, id, m0, i);
      if j < |m0| {
        OldKeyFirstOccurs(arr, id, m0, j);
      }
    }
  }

  /** An entry of the prefix's map first occurs where it did in the prefix. */
  lemma OldKeyFirstOccurs<T, K>(arr: seq<T>, id: T -> K, m0: seq<(K, T)>, i: int)
    requires |arr| > 0 && HoldsLastElements(arr[..|arr| - 1], id, m0) && 0 <= i < |m0|
    ensures 0 <= FirstWithId(arr, id, m0[i].0) == FirstWithId(arr[..|arr| - 1], id, m0[i].0) < |arr| - 1
  {
    KeyHasOccurrence(arr[..|arr| - 1], id, m0, i);
    OccurrencesOfPrefix(arr, id, m0[i].0);
  }

  /** The identifiers of the map are exactly those that occur. */
  lemma KeysAreOccurringIds<T, K>(arr: seq<T>, id: T -> K, k: K)
    ensures k in Keys(ArrToMap(arr, id)) <==> IdOccurs(arr, id, k)
  {
    var m := ArrToMap(arr, id);
    ArrToMapIsIdMap(arr, id);
    if k in Keys(m) {
      var i :| 0 <= i < |m| && m[i].0 == k;
      assert id(arr[LastWithId(arr, id, k)]) == k;
    }
  }

  // ---------------------------------------------------------------------
  // `arrayDiff`.

  /** `unchanged` is a keyword here, hence `unchangedItems`. */
  datatype ArrayDiffResult<T> = ArrayDiffResult(unchangedItems: seq<T>, added: seq<T>, deleted: seq<T>)

  function Values<K, T>(m: seq<(K, T)>): (vs: seq<T>)
    ensures |vs| == |m| && forall i :: 0 <= i < |m| ==> vs[i] == m[i].1
  {
    seq(|m|, i requires 0 <= i < |m| => m[i].1)
  }

  /** The keys `Map.prototype.has` answers yes for. */
  function KeySet<K, T>(m: seq<(K, T)>): (ks: set<K>)
  {
    set i | 0 <= i < |m| :: m[i].0
  }

  /** The identifiers of arr; for arr1 this is `itemHandled` once the
      `reduce` is over. */
  function Ids<T, K>(arr: seq<T>, id: T -> K): (ids: set<K>)
  {
    set t | 0 <= t < |arr| :: id(arr[t])
  }

  lemma IdsOccur<T, K>(arr: seq<T>, id: T -> K, k: K)
    ensures k in Ids(arr, id) <==> IdOccurs(arr, id, k)
  {
    if IdOccurs(arr, id, k) {
      var t :| 0 <= t < |arr| && id(arr[t]) == k;
      assert id(arr[t]) in Ids(arr, id);
    }
  }

  /** `arr2ToMap.has(k)` holds exactly for the identifiers of arr2. */
  lemma {:induction false} KeySetOfArrToMap<T, K>(arr: seq<T>, id: T -> K)
    ensures KeySet(ArrToMap(arr, id)) == Ids(arr, id)
  {
    var m := ArrToMap(arr, id);
    ArrToMapIsIdMap(arr, id);
    forall k | k in KeySet(m)
      ensures k in Ids(arr, id)
    {
      var i :| 0 <= i < |m| && m[i].0 == k;
      assert id(arr[LastWithId(arr, id, k)]) == k;
    }
    forall k | k in Ids(arr, id)
      ensures k in KeySet(m)
    {
      var t :| 0 <= t < |arr| && id(arr[t]) == k;
      var i :| 0 <= i < |m| && Keys(m)[i] == k;
      assert m[i].0 == k;
    }
  }

  /** The `reduce` over arr1: an element whose identifier is among the keys
      is pushed onto `unchanged`, any other onto `deleted`. */
  function Split<T, K>(arr1: seq<T>, id: T -> K, keys: set<K>): (r: (seq<T>, seq<T>))
    decreases |arr1|
  {
    if |arr1| == 0 then ([], [])
    else
      var (kept, deleted) := Split(arr1[..|arr1| - 1], id, keys);
      var v1 := arr1[|arr1| - 1];
      if id(v1) in keys then (kept + [v1], deleted) else (kept, deleted + [v1])
  }

  /** The `forEach` over the second map: every value whose identifier was
      not handled is pushed onto `added`. */
  function AddedFrom<T, K>(m: seq<(K, T)>, id: T -> K, handled: set<K>): (added: seq<T>)
    decreases |m|
  {
    if |m| == 0 then []
    else
      var v2 := m[|m| - 1].1;
      AddedFrom(m[..|m| - 1], id, handled) + (if id(v2) !in handled then [v2] else [])
  }

  /** `arrayDiff(arr1, arr2, selectUniqIdentifier)`. */
  function ArrayDiff<T, K(==)>(arr1: seq<T>, arr2: seq<T>, id: T -> K): (r: ArrayDiffResult<T>)
  {
    var arr2ToMap := ArrToMap(arr2, id);
    var (kept, deleted) := Split(arr1, id, KeySet(arr2ToMap));
    ArrayDiffResult(kept, AddedFrom(arr2ToMap, id, Ids(arr1, id)), deleted)
  }

  /** Number of elements whose identifier is among the keys. */
  function CountPresent<T, K>(arr: seq<T>, id: T -> K, keys: set<K>): (c: nat)
    ensures c <= |arr|
    decreases |arr|
  {
    if |arr| == 0 then 0
    else CountPresent(arr[..|arr| - 1], id, keys) + (if id(arr[|arr| - 1]) in keys then 1 else 0)
  }

  /** Element t of arr is the c-th of `kept` or the (t - c)-th of
      `deleted`, c the number of earlier elements that went to `kept`:
      reading both lists back in arr's order interleaves them into arr. */
  predicate Interleaves<T(==), K>(arr: seq<T>, id: T -> K, keys: set<K>, kept: seq<T>, deleted: seq<T>) {
    |kept| == CountPresent(arr, id, keys) && |kept| + |deleted| == |arr| &&
    forall t :: 0 <= t < |arr| ==>
      var c := CountPresent(arr[..t], id, keys);
      if id(arr[t]) in keys then c < |kept| && kept[c] == arr[t]
      else 0 <= t - c < |deleted| && deleted[t - c] == arr[t]
  }

  /** Every element went to the list its identifier calls for. */
  predicate SortedByPresence<T, K>(id: T -> K, keys: set<K>, kept: seq<T>, deleted: seq<T>) {
    (forall i :: 0 <= i < |kept| ==> id(kept[i]) in keys) &&
    (forall i :: 0 <= i < |deleted| ==> id(deleted[i]) !in keys)
  }

  lemma {:induction false} SplitInterleaves<T, K>(arr1: seq<T>, id: T -> K, keys: set<K>)
    ensures Interleaves(arr1, id, keys, Split(arr1, id, keys).0, Split(arr1, id, keys).1)
    ensures SortedByPresence(id, keys, Split(arr1, id, keys).0, Split(arr1, id, keys).1)
    decreases |arr1|
  {
    if |arr1| > 0 {
      var n := |arr1| - 1;
      var (kept, deleted) := Split(arr1[..n], id, keys);
      SplitInterleaves(arr1[..n], id, keys);
      SplitStep(arr1, id, keys, kept, deleted);
    }
  }

  /** Pushing the last element keeps the earlier ones where they were. */
  lemma SplitStep<T, K>(arr1: seq<T>, id: T -> K, keys: set<K>, kept: seq<T>, deleted: seq<T>)
    requires |arr1| > 0
    requires Interleaves(arr1[..|arr1| - 1], id, keys, kept, deleted)
    ensures var v1 := arr1[|arr1| - 1];
      Interleaves(arr1, id, keys,
                  if id(v1) in keys then kept + [v1] else kept,
                  if id(v1) in keys then deleted else deleted + [v1])
  {
    var n := |arr1| - 1;
    var v1 := arr1[n];
    var kept' := if id(v1) in keys then kept + [v1] else kept;
    var deleted' := if id(v1) in keys then deleted else deleted + [v1];
    forall t | 0 <= t < |arr1|
      ensures var c := CountPresent(arr1[..t], id, keys);
        if id(arr1[t]) in keys then c < |kept'| && kept'[c] == arr1[t]
        else 0 <= t - c < |deleted'| && deleted'[t - c] == arr1[t]
    {
      if t < n {
        SplitStepAt(arr1, id, keys, kept, deleted, t);
      } else {
        assert arr1[..t] == arr1[..n];
      }
    }
  }

  /** An element before the last keeps its slot once the last is pushed. */
  lemma SplitStepAt<T, K>(arr1: seq<T>, id: T -> K, keys: set<K>, kept: seq<T>, deleted: seq<T>, t: int)
    requires 0 <= t < |arr1| - 1
    requires Interleaves(arr1[..|arr1| - 1], id, keys, kept, deleted)
    ensures var c := CountPresent(arr1[..t], id, keys);
      if id(arr1[t]) in keys then c < |kept| && (kept + [arr1[|arr1| - 1]])[c] == arr1[t] && kept[c] == arr1[t]
      else 0 <= t - c < |deleted| && (deleted + [arr1[|arr1| - 1]])[t - c] == arr1[t] && deleted[t - c] == arr1[t]
  {
    var prefix := arr1[..|arr1| - 1];
    assert arr1[..t] == prefix[..t] && arr1[t] == prefix[t];
  }

  /** The indexes, in increasing order, of the elements whose identifier is
      (present) or is not (!present) among the keys. */
  function Positions<T, K>(arr: seq<T>, id: T -> K, keys: set<K>, present: bool): (pos: seq<int>)
    decreases |arr|
  {
    if |arr| == 0 then []
    else
      var n := |arr| - 1;
      Positions(arr[..n], id, keys, present) + (if (id(arr[n]) in keys) == present then [n] else [])
  }

  /** sub is arr read at the strictly increasing indexes pos: a subsequence
      of arr, in arr's order. */
  predicate Picks<T(==)>(arr: seq<T>, sub: seq<T>, pos: seq<int>) {
    |pos| == |sub| &&
    (forall i :: 0 <= i < |pos| ==> 0 <= pos[i] < |arr| && sub[i] == arr[pos[i]]) &&
    (forall i, j :: 0 <= i < j < |pos| ==> pos[i] < pos[j])
  }

  lemma {:induction false} SplitPicks<T, K>(arr1: seq<T>, id: T -> K, keys: set<K>)
    ensures Picks(arr1, Split(arr1, id, keys).0, Positions(arr1, id, keys, true))
    ensures Picks(arr1, Split(arr1, id, keys).1, Positions(arr1, id, keys, false))
    decreases |arr1|
  {
    if |arr1| > 0 {
      var n := |arr1| - 1;
      SplitPicks(arr1[..n], id, keys);
      PicksStep(arr1, Split(arr1[..n], id, keys).0, Positions(arr1[..n], id, keys, true));
      PicksStep(arr1, Split(arr1[..n], id, keys).1, Positions(arr1[..n], id, keys, false));
    }
  }

  /** A subsequence of a prefix is one of the whole, and stays one when the
      last element is appended. */
  lemma PicksStep<T>(arr: seq<T>, sub: seq<T>, pos: seq<int>)
    requires |arr| > 0 && Picks(arr[..|arr| - 1], sub, pos)
    ensures Picks(arr, sub, pos)
    ensures Picks(arr, sub + [arr[|arr| - 1]], pos + [|arr| - 1])
  {
    var n := |arr| - 1;
    forall i | 0 <= i < |pos|
      ensures sub[i] == arr[pos[i]]
    {
      assert arr[..n][pos[i]] == arr[pos[i]];
    }
  }

  /** The `forEach` over the map pushes exactly what a `reduce` like the
      first one pushes onto `deleted` when run over the map's values with
      the handled identifiers as keys. */
  lemma {:induction false} AddedIsSplit<T, K>(m: seq<(K, T)>, id: T -> K, handled: set<K>)
    ensures AddedFrom(m, id, handled) == Split(Values(m), id, handled).1
    decreases |m|
  {
    if |m| > 0 {
      var n := |m| - 1;
      AddedIsSplit(m[..n], id, handled);
      assert Values(m)[..n] == Values(m[..n]);
    }
  }

  /** `unchanged` and `deleted` split arr1 by whether an element's
      identifier occurs in arr2, each keeping arr1's order, and together
      they hold every element of arr1. */
  lemma ArrayDiffSplitsArr1<T, K>(arr1: seq<T>, arr2: seq<T>, id: T -> K)
    ensures var r := ArrayDiff(arr1, arr2, id);
      Interleaves(arr1, id, Ids(arr2, id), r.unchangedItems, r.deleted) &&
      SortedByPresence(id, Ids(arr2, id), r.unchangedItems, r.deleted) &&
      Picks(arr1, r.unchangedItems, Positions(arr1, id, Ids(arr2, id), true)) &&
      Picks(arr1, r.deleted, Positions(arr1, id, Ids(arr2, id), false))
  {
    KeySetOfArrToMap(arr2, id);
    SplitInterleaves(arr1, id, Ids(arr2, id));
    SplitPicks(arr1, id, Ids(arr2, id));
  }

  /** Every added element has an identifier absent from arr1, and is the
      last element of arr2 with that identifier. */
  lemma AddedComeFromArr2<T, K>(arr1: seq<T>, arr2: seq<T>, id: T -> K)
    ensures var added := ArrayDiff(arr1, arr2, id).added;
      forall i :: 0 <= i < |added| ==>
        id(added[i]) !in Ids(arr1, id) &&
        0 <= LastWithId(arr2, id, id(added[i])) && added[i] == arr2[LastWithId(arr2, id, id(added[i]))]
  {
    var m := ArrToMap(arr2, id);
    var handled := Ids(arr1, id);
    var pos := Positions(Values(m), id, handled, false);
    ArrToMapIsIdMap(arr2, id);
    AddedIsSplit(m, id, handled);
    SplitInterleaves(Values(m), id, handled);
    SplitPicks(Values(m), id, handled);
    var added := AddedFrom(m, id, handled);
    forall i | 0 <= i < |added|
      ensures id(added[i]) !in handled
      ensures 0 <= LastWithId(arr2, id, id(added[i])) && added[i] == arr2[LastWithId(arr2, id, id(added[i]))]
    {
      assert added[i] == m[pos[i]].1;
    }
  }

  /** Every element of arr2 whose identifier is absent from arr1 is added,
      in the form of the last element of arr2 with that identifier. */
  lemma AddedCoverArr2<T, K>(arr1: seq<T>, arr2: seq<T>, id: T -> K)
    ensures var added := ArrayDiff(arr1, arr2, id).added;
      forall t :: 0 <= t < |arr2| && id(arr2[t]) !in Ids(arr1, id) ==>
        arr2[LastWithId(arr2, id, id(arr2[t]))] in added
  {
    var m := ArrToMap(arr2, id);
    var handled := Ids(arr1, id);
    ArrToMapIsIdMap(arr2, id);
    forall t | 0 <= t < |arr2| && id(arr2[t]) !in handled
      ensures arr2[LastWithId(arr2, id, id(arr2[t]))] in AddedFrom(m, id, handled)
    {
      var j :| 0 <= j < |m| && Keys(m)[j] == id(arr2[t]);
      EntryIsAdded(m, id, handled, j);
    }
  }

  /** An entry whose identifier was not handled has its value added. */
  lemma EntryIsAdded<T, K>(m: seq<(K, T)>, id: T -> K, handled: set<K>, j: int)
    requires KeyedByIds(id, m) && 0 <= j < |m| && m[j].0 !in handled
    ensures m[j].1 in AddedFrom(m, id, handled)
  {
    AddedIsSplit(m, id, handled);
    SplitInterleaves(Values(m), id, handled);
    assert Values(m)[j] == m[j].1;
  }

  /** `added` lists its elements in the order their identifiers first occur
      in arr2; in particular no identifier is added twice. */
  lemma AddedInFirstOccurrenceOrder<T, K>(arr1: seq<T>, arr2: seq<T>, id: T -> K)
    ensures var added := ArrayDiff(arr1, arr2, id).added;
      forall i, j :: 0 <= i < j < |added| ==>
        FirstWithId(arr2, id, id(added[i])) < FirstWithId(arr2, id, id(added[j]))
  {
    var m := ArrToMap(arr2, id);
    var handled := Ids(arr1, id);
    var pos := Positions(Values(m), id, handled, false);
    ArrToMapIsIdMap(arr2, id);
    AddedIsSplit(m, id, handled);
    SplitPicks(Values(m), id, handled);
    var added := AddedFrom(m, id, handled);
    forall i, j | 0 <= i < j < |added|
      ensures FirstWithId(arr2, id, id(added[i])) < FirstWithId(arr2, id, id(added[j]))
    {
      assert added[i] == m[pos[i]].1 && added[j] == m[pos[j]].1;
    }
  }

  function First(p: (int, char)): int { p.0 }

  /** Records identified by their first field: the second map keeps the
      last record of each identifier, in first-occurrence order. */
  lemma ArrayDiffExample()
    ensures ArrToMap([(2, 'a'), (3, 'b'), (2, 'c')], First) == [(2, (2, 'c')), (3, (3, 'b'))]
    ensures ArrayDiff([(1, 'x'), (2, 'y')], [(2, 'a'), (3, 'b'), (2, 'c')], First)
         == ArrayDiffResult([(2, 'y')], [(3, 'b')], [(1, 'x')])
  {
    var arr1: seq<(int, char)> := [(1, 'x'), (2, 'y')];
    var arr2: seq<(int, char)> := [(2, 'a'), (3, 'b'), (2, 'c')];
    assert arr2[..2][..1] == arr2[..1] == [(2, 'a')];
    assert ArrToMap(arr2[..1], First) == [(2, (2, 'a'))];
    assert ArrToMap(arr2[..2], First) == [(2, (2, 'a')), (3, (3, 'b'))];
    var m := ArrToMap(arr2, First);
    assert m == [(2, (2, 'c')), (3, (3, 'b'))];
    assert m[0].0 == 2 && m[0].0 in KeySet(m);
    assert 1 !in KeySet(m);
    assert arr1[..1] == [(1, 'x')] && |arr1[..1][..0]| == 0;
    var none: seq<(int, char)> := [];
    assert Split(arr1[..1][..0], First, KeySet(m)) == (none, none);
    assert First(arr1[..1][0]) !in KeySet(m);
    assert Split(arr1[..1], First, KeySet(m)) == (none, none + [arr1[..1][0]]);
    assert none + [arr1[..1][0]] == [(1, 'x')];
    IdsOccur(arr1, First, 2);
    assert IdOccurs(arr1, First, 2) by { assert First(arr1[1]) == 2; }
    assert 3 !in Ids(arr1, First);
    assert m[..1] == [(2, (2, 'c'))];
    assert AddedFrom(m[..1], First, Ids(arr1, First)) == [];
  }
}
