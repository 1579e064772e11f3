/** The timers store: the selectors of
    libs/timers/src/lib/data/timers.selectors.ts and the reducer and
    `timers$` projection of libs/timers/src/lib/data/timers.service.ts.
    Times are milliseconds, modelled as integers. */
module Timers {
  import opened Lists

  datatype Status = Starter | Stopped

  /** `Timer.AsObject`: a timer started at `startedAtMs` in status
      `startedWithStatus`, its status flipping at every entry of
      `statusUpdatesAt`. */
  datatype TimerObj = TimerObj(id: string, startedAtMs: int, startedWithStatus: Status, statusUpdatesAt: seq<int>)

  /** `Timer.AsObjectResolved`: the timer's own fields plus the two
      computed ones. */
  datatype Resolved = Resolved(timer: TimerObj, currentStatus: Status, timeElapsedWhileStartedMs: int)

  function OppositeStatus(status: Status): (r: Status)
    ensures r != status
  {
    if status == Starter then Stopped else Starter
  }

  lemma OppositeIsInvolutive(status: Status)
    ensures OppositeStatus(OppositeStatus(status)) == status
    ensures OppositeStatus(status) != status
  {
  }

  // ---------------------------------------------------------------------
  // The timeline of a timer, as a reference: boundary i is startedAtMs for
  // i = 0 and the i-th status update after that; between boundaries i and
  // i + 1 the timer is in status i, the start status flipped i times.

  function Boundary(t: TimerObj, i: nat): int
    requires i <= |t.statusUpdatesAt|
  {
    if i == 0 then t.startedAtMs else t.statusUpdatesAt[i - 1]
  }

  function StatusDuring(t: TimerObj, i: nat): Status
    decreases i
  {
    if i == 0 then t.startedWithStatus else OppositeStatus(StatusDuring(t, i - 1))
  }

  /** Time spent in status Starter over the first n closed intervals. */
  function TimeStartedBefore(t: TimerObj, n: nat): int
    requires n <= |t.statusUpdatesAt|
    decreases n
  {
    if n == 0 then 0
    else TimeStartedBefore(t, n - 1) + (if StatusDuring(t, n - 1) == Starter then Boundary(t, n) - Boundary(t, n - 1) else 0)
  }

  // ---------------------------------------------------------------------
  // `getTimersWithSumTimes`.

  /** The accumulator of the `reduce`. */
  datatype Acc = Acc(previousTime: int, previousStatus: Status, accumulatedTime: int)

  function Step(acc: Acc, update: int): (next: Acc)
  {
    if acc.previousStatus == Starter then Acc(update, Stopped, acc.accumulatedTime + (update - acc.previousTime))
    else acc.(previousTime := update, previousStatus := Starter)
  }

  function Reduce(acc: Acc, updates: seq<int>): (last: Acc)
    decreases |updates|
  {
    if |updates| == 0 then acc else Step(Reduce(acc, updates[..|updates| - 1]), updates[|updates| - 1])
  }

  function InitialAcc(t: TimerObj): Acc {
    Acc(t.startedAtMs, t.startedWithStatus, 0)
  }

  /** After n updates the `reduce` stands at boundary n, in status n, having
      summed the started intervals before it. */
  lemma {:induction false} ReduceFollowsTimeline(t: TimerObj, n: nat)
    requires n <= |t.statusUpdatesAt|
    ensures Reduce(InitialAcc(t), t.statusUpdatesAt[..n]) == Acc(Boundary(t, n), StatusDuring(t, n), TimeStartedBefore(t, n))
    decreases n
  {
    if n > 0 {
      ReduceFollowsTimeline(t, n - 1);
      assert t.statusUpdatesAt[..n][..n - 1] == t.statusUpdatesAt[..n - 1];
    }
  }

  /** The status flips at every update, so only the parity counts. */
  lemma {:induction false} StatusByParity(t: TimerObj, n: nat)
    ensures StatusDuring(t, n) == if n % 2 == 0 then t.startedWithStatus else OppositeStatus(t.startedWithStatus)
    decreases n
  {
    if n > 0 {
      StatusByParity(t, n - 1);
    }
  }

  function CurrentStatus(t: TimerObj): Status {
    if |t.statusUpdatesAt| % 2 == 0 then t.startedWithStatus else OppositeStatus(t.startedWithStatus)
  }

  function TimeElapsedWhileStarted(t: TimerObj): int {
    Reduce(InitialAcc(t), t.statusUpdatesAt).accumulatedTime
  }

  /** One timer resolved: `currentStatus` is the status the `reduce` ends
      in, the one since the last update, and the elapsed time sums the
      closed intervals spent started, the open one after the last update
      left out. */
  function Resolve(t: TimerObj): (r: Resolved)
    ensures r.timer == t
    ensures r.currentStatus == StatusDuring(t, |t.statusUpdatesAt|)
    ensures r.currentStatus == Reduce(InitialAcc(t), t.statusUpdatesAt).previousStatus
    ensures r.timeElapsedWhileStartedMs == TimeStartedBefore(t, |t.statusUpdatesAt|)
  {
    ReduceFollowsTimeline(t, |t.statusUpdatesAt|);
    StatusByParity(t, |t.statusUpdatesAt|);
    assert t.statusUpdatesAt[..|t.statusUpdatesAt|] == t.statusUpdatesAt;
    Resolved(t, CurrentStatus(t), TimeElapsedWhileStarted(t))
  }

  function GetTimersWithSumTimes(timers: seq<TimerObj>): (r: seq<Resolved>)
    ensures |r| == |timers|
    ensures forall i :: 0 <= i < |r| ==>
      r[i].timer == timers[i] &&
      r[i].currentStatus == StatusDuring(timers[i], |timers[i].statusUpdatesAt|) &&
      r[i].timeElapsedWhileStartedMs == TimeStartedBefore(timers[i], |timers[i].statusUpdatesAt|)
  {
    seq(|timers|, i requires 0 <= i < |timers| => Resolve(timers[i]))
  }

  /** A timer with no status update has spent no closed interval started,
      and is still in its start status. */
  lemma NoUpdatesNoTime(t: TimerObj)
    requires t.statusUpdatesAt == []
    ensures Resolve(t).timeElapsedWhileStartedMs == 0
    ensures Resolve(t).currentStatus == t.startedWithStatus
  {
  }

  /** Started at 0, stopped at 10, started again at 20, stopped at 35:
      25 ms started, stopped now. */
  lemma SumTimesExample()
    ensures var r := Resolve(TimerObj("t", 0, Starter, [10, 20, 35]));
      r.timeElapsedWhileStartedMs == 25 && r.currentStatus == Stopped
  {
    var t := TimerObj("t", 0, Starter, [10, 20, 35]);
    assert StatusDuring(t, 1) == Stopped && StatusDuring(t, 2) == Starter && StatusDuring(t, 3) == Stopped;
    assert TimeStartedBefore(t, 1) == 10;
    assert TimeStartedBefore(t, 2) == 10;
    assert TimeStartedBefore(t, 3) == 25;
  }

  // ---------------------------------------------------------------------
  // `timersReducer` and `timers$`.

  datatype TimersState = TimersState(ids: seq<string>, entities: map<string, TimerObj>)

  const InitialTimersState := TimersState([], map[])

  datatype Action =
    | Add(id: string, startedAtMs: int, startedWithStatus: Status)
    | Remove(id: string)
    | Toggle(id: string, toggleAtMs: int)

  /** TOGGLE reads the timer it changes; on an unknown id the source
      dereferences `undefined`. */
  predicate CanApply(s: TimersState, a: Action) {
    a.Toggle? ==> a.id in s.entities
  }

  function TimersReducer(s: TimersState, a: Action): (r: TimersState)
    requires CanApply(s, a)
  {
    match a
    case Add(id, startedAtMs, startedWithStatus) =>
      s.(ids := [id] + s.ids,
         entities := s.entities[id := TimerObj(id, startedAtMs, startedWithStatus, [])])
    case Remove(id) =>
      s.(ids := Without(s.ids, id), entities := s.entities - {id})
    case Toggle(id, toggleAtMs) =>
      var currentTimer := s.entities[id];
      s.(entities := s.entities[id := currentTimer.(statusUpdatesAt := currentTimer.statusUpdatesAt + [toggleAtMs])])
  }

  /** The ids list names exactly the stored timers, each stored under its
      own id. */
  ghost predicate Consistent(s: TimersState) {
    (forall k :: k in s.ids <==> k in s.entities) &&
    (forall k :: k in s.entities ==> s.entities[k].id == k)
  }

  /** No other timer changes, and no other id appears or disappears. */
  ghost predicate OthersUnchanged(s: TimersState, r: TimersState, id: string) {
    forall k :: k != id ==>
      (k in r.entities <==> k in s.entities) &&
      (k in s.entities ==> r.entities[k] == s.entities[k]) &&
      (k in r.ids <==> k in s.ids)
  }

  /** ADD puts the id first and stores a fresh timer with no status
      update. */
  lemma AddStoresFreshTimer(s: TimersState, id: string, startedAtMs: int, startedWithStatus: Status)
    ensures var r := TimersReducer(s, Add(id, startedAtMs, startedWithStatus));
      r.ids[0] == id && r.ids[1..] == s.ids &&
      id in r.entities && r.entities[id] == TimerObj(id, startedAtMs, startedWithStatus, []) &&
      OthersUnchanged(s, r, id)
  {
  }

  /** REMOVE drops every occurrence of the id and its timer, keeping the
      other ids in order. */
  lemma RemoveDropsTimer(s: TimersState, id: string)
    ensures var r := TimersReducer(s, Remove(id));
      id !in r.ids && id !in r.entities && OthersUnchanged(s, r, id) &&
      (forall a, b :: s.ids == a + b ==> r.ids == Without(a, id) + Without(b, id))
  {
    WithoutMembers(s.ids, id);
    forall a, b | s.ids == a + b
      ensures Without(s.ids, id) == Without(a, id) + Without(b, id)
    {
      WithoutConcat(a, b, id);
    }
  }

  /** TOGGLE appends the time to that timer's updates and to nothing
      else. */
  lemma ToggleAppendsUpdate(s: TimersState, id: string, toggleAtMs: int)
    requires id in s.entities
    ensures var r := TimersReducer(s, Toggle(id, toggleAtMs));
      r.ids == s.ids && id in r.entities &&
      r.entities[id].statusUpdatesAt == s.entities[id].statusUpdatesAt + [toggleAtMs] &&
      r.entities[id].(statusUpdatesAt := s.entities[id].statusUpdatesAt) == s.entities[id] &&
      OthersUnchanged(s, r, id)
  {
  }

  /** Every action keeps the ids and the stored timers in step. */
  lemma ReducerKeepsConsistent(s: TimersState, a: Action)
    requires Consistent(s) && CanApply(s, a)
    ensures Consistent(TimersReducer(s, a))
  {
    if a.Remove? {
      WithoutMembers(s.ids, a.id);
    }
  }

  lemma InitialIsConsistent()
    ensures Consistent(InitialTimersState)
  {
  }

  /** `timers$`: the stored timers in the order of `ids`. */
  function TimersList(s: TimersState): (timers: seq<TimerObj>)
    requires forall k :: k in s.ids ==> k in s.entities
  {
    seq(|s.ids|, i requires 0 <= i < |s.ids| => s.entities[s.ids[i]])
  }

  /** In a consistent state the list follows `ids`: entry i is the timer
      whose id is ids[i], and every stored timer is listed. */
  lemma TimersListFollowsIds(s: TimersState)
    requires Consistent(s)
    ensures |TimersList(s)| == |s.ids|
    ensures forall i :: 0 <= i < |s.ids| ==> TimersList(s)[i].id == s.ids[i]
    ensures forall k :: k in s.entities ==> s.entities[k] in TimersList(s)
  {
    forall k | k in s.entities
      ensures s.entities[k] in TimersList(s)
    {
      var i :| 0 <= i < |s.ids| && s.ids[i] == k;
      assert TimersList(s)[i] == s.entities[k];
    }
  }

  /** A timer just added is listed first. */
  lemma AddedTimerListedFirst(s: TimersState, id: string, startedAtMs: int, startedWithStatus: Status)
    requires Consistent(s)
    ensures var r := TimersReducer(s, Add(id, startedAtMs, startedWithStatus));
      Consistent(r) && TimersList(r)[0] == TimerObj(id, startedAtMs, startedWithStatus, [])
  {
    ReducerKeepsConsistent(s, Add(id, startedAtMs, startedWithStatus));
  }
}
