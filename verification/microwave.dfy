/** The microwave (libs/microwave/src/lib/microwave.ts): the `scan`
    reducer over timestamped actions, `computeTimeDoneMs`, and the state
    the view derives. Times are milliseconds, modelled as integers; the
    JavaScript NaN is `None`. */
module Microwave {
  import opened Results
  import Chunks

  // ---------------------------------------------------------------------
  // `computeTimeDoneMs`.

  /** One step of the `reduce`: `timeElapsed + off - on`, where a chunk
      too short to hold `off` adds `undefined` and gives NaN, and NaN stays
      NaN. */
  function AddPair(timeElapsed: Option<int>, onOff: seq<int>): Option<int> {
    if timeElapsed.None? || |onOff| < 2 then None
    else Some(timeElapsed.value + onOff[1] - onOff[0])
  }

  function SumPairs(chunks: seq<seq<int>>): Option<int>
    decreases |chunks|
  {
    if |chunks| == 0 then Some(0) else AddPair(SumPairs(chunks[..|chunks| - 1]), chunks[|chunks| - 1])
  }

  function ComputeTimeDoneMs(onAndOffTimes: seq<int>): Option<int> {
    SumPairs(Chunks.Chunk(onAndOffTimes))
  }

  /** Reference: the time spent between each on time and the off time
      that follows it, over a list of (on, off) pairs. */
  function OnTime(times: seq<int>): int
    requires |times| % 2 == 0
    decreases |times|
  {
    if |times| == 0 then 0 else OnTime(times[..|times| - 2]) + (times[|times| - 1] - times[|times| - 2])
  }

  /** The first k chunks sum the first k pairs. */
  lemma {:induction false} SumPairsPrefix(times: seq<int>, k: nat)
    requires Chunks.IsChunkingOf(times, Chunks.Chunk(times)) && k <= |Chunks.Chunk(times)| && 2 * k <= |times|
    ensures SumPairs(Chunks.Chunk(times)[..k]) == Some(OnTime(times[..2 * k]))
    decreases k
  {
    var chunks := Chunks.Chunk(times);
    if k > 0 {
      SumPairsPrefix(times, k - 1);
      assert chunks[..k][..k - 1] == chunks[..k - 1];
      assert times[..2 * k][..2 * k - 2] == times[..2 * (k - 1)];
      assert chunks[k - 1] == times[2 * k - 2..2 * k];
    }
  }

  /** An even number of times sums the (on, off) pairs; an odd number
      leaves an on time without its off time and gives NaN. */
  lemma ComputeTimeDoneMsSumsPairs(onAndOffTimes: seq<int>)
    ensures |onAndOffTimes| % 2 == 0 ==> ComputeTimeDoneMs(onAndOffTimes) == Some(OnTime(onAndOffTimes))
    ensures |onAndOffTimes| % 2 == 1 <==> ComputeTimeDoneMs(onAndOffTimes) == None
  {
    if |onAndOffTimes| % 2 == 0 {
      EvenSumsPairs(onAndOffTimes);
    } else {
      OddIsNaN(onAndOffTimes);
    }
  }

  lemma EvenSumsPairs(onAndOffTimes: seq<int>)
    requires |onAndOffTimes| % 2 == 0
    ensures ComputeTimeDoneMs(onAndOffTimes) == Some(OnTime(onAndOffTimes))
  {
    var chunks := Chunks.Chunk(onAndOffTimes);
    var n := |onAndOffTimes|;
    Chunks.ChunkShape(onAndOffTimes);
    SumPairsPrefix(onAndOffTimes, n / 2);
    assert chunks[..n / 2] == chunks;
    assert onAndOffTimes[..n] == onAndOffTimes;
  }

  lemma OddIsNaN(onAndOffTimes: seq<int>)
    requires |onAndOffTimes| % 2 == 1
    ensures ComputeTimeDoneMs(onAndOffTimes) == None
  {
    var chunks := Chunks.Chunk(onAndOffTimes);
    Chunks.ChunkSizes(onAndOffTimes);
    var k := |chunks| - 1;
    assert |chunks[k]| == 1;
    assert SumPairs(chunks) == AddPair(SumPairs(chunks[..k]), chunks[k]);
  }

  lemma ComputeTimeDoneMsExamples()
    ensures ComputeTimeDoneMs([]) == Some(0)
    ensures ComputeTimeDoneMs([1000, 4000, 6000, 6500]) == Some(3500)
    ensures ComputeTimeDoneMs([1000, 4000, 6000]) == None
  {
    ComputeTimeDoneMsSumsPairs([1000, 4000, 6000, 6500]);
    ComputeTimeDoneMsSumsPairs([1000, 4000, 6000]);
    var times := [1000, 4000, 6000, 6500];
    assert times[..2] == [1000, 4000] && times[..2][..0] == [];
    ComputeTimeDoneMsSumsPairs([]);
  }

  // ---------------------------------------------------------------------
  // The reducer.

  datatype MicrowaveStatus = Started | Stopped | Reset

  /** `MicrowaveInternalState`. */
  datatype InternalState = InternalState(timePlannedMs: int, onAndOffTimes: seq<int>, status: MicrowaveStatus)

  /** `MicrowaveState`, what the view shows. */
  datatype MicrowaveState = MicrowaveState(timePlannedMs: int, timeDoneMs: Option<int>, status: MicrowaveStatus)

  datatype Action = Start | Stop | ResetAction | AddTimeMs(timeMs: int)

  const InitialMicrowaveState := InternalState(10000, [], Reset)

  const MicrowaveResetState := MicrowaveState(0, Some(0), Reset)

  /** The `scan` step; `timestamp` is the time the action was timestamped
      at. */
  function MicrowaveReducer(microwave: InternalState, action: Action, timestamp: int): (r: InternalState)
  {
    match action
    case Start => microwave.(status := Started, onAndOffTimes := microwave.onAndOffTimes + [timestamp])
    case Stop => microwave.(status := Stopped, onAndOffTimes := microwave.onAndOffTimes + [timestamp])
    case ResetAction => InitialMicrowaveState
    case AddTimeMs(timeMs) => microwave.(timePlannedMs := microwave.timePlannedMs + timeMs)
  }

  /** START and STOP switch the status and record when; the planned time
      stays. */
  lemma StartAndStopRecordTime(microwave: InternalState, timestamp: int)
    ensures var r := MicrowaveReducer(microwave, Start, timestamp);
      r.status == Started && r.timePlannedMs == microwave.timePlannedMs &&
      |r.onAndOffTimes| == |microwave.onAndOffTimes| + 1 &&
      r.onAndOffTimes[..|microwave.onAndOffTimes|] == microwave.onAndOffTimes &&
      r.onAndOffTimes[|microwave.onAndOffTimes|] == timestamp
    ensures var r := MicrowaveReducer(microwave, Stop, timestamp);
      r.status == Stopped && r.timePlannedMs == microwave.timePlannedMs &&
      |r.onAndOffTimes| == |microwave.onAndOffTimes| + 1 &&
      r.onAndOffTimes[..|microwave.onAndOffTimes|] == microwave.onAndOffTimes &&
      r.onAndOffTimes[|microwave.onAndOffTimes|] == timestamp
  {
  }

  /** RESET forgets everything: 10 s planned, nothing recorded. */
  lemma ResetForgets(microwave: InternalState, timestamp: int)
    ensures var r := MicrowaveReducer(microwave, ResetAction, timestamp);
      r.timePlannedMs == 10000 && r.onAndOffTimes == [] && r.status == Reset
  {
  }

  /** ADD_TIME_MS adds to the planned time and touches nothing else; two
      additions add up. */
  lemma AddTimeAdds(microwave: InternalState, a: int, b: int, t1: int, t2: int)
    ensures var r := MicrowaveReducer(microwave, AddTimeMs(a), t1);
      r.timePlannedMs == microwave.timePlannedMs + a &&
      r.onAndOffTimes == microwave.onAndOffTimes && r.status == microwave.status
    ensures MicrowaveReducer(MicrowaveReducer(microwave, AddTimeMs(a), t1), AddTimeMs(b), t2)
         == MicrowaveReducer(microwave, AddTimeMs(a + b), t2)
  {
  }

  // ---------------------------------------------------------------------
  // The view.

  /** The view's value for a state; for STARTED, the tick at time `now`
      of the `timer(0, 1000)` stream, which the `takeWhile` cuts off
      (NaN compares false) in favour of the reset state. */
  function View(microwave: InternalState, now: int): MicrowaveState
  {
    match microwave.status
    case Reset => MicrowaveResetState
    case Stopped => MicrowaveState(microwave.timePlannedMs, ComputeTimeDoneMs(microwave.onAndOffTimes), Stopped)
    case Started =>
      var tick := MicrowaveState(microwave.timePlannedMs, ComputeTimeDoneMs(microwave.onAndOffTimes + [now]), Started);
      if tick.timeDoneMs.Some? && tick.timeDoneMs.value < tick.timePlannedMs then tick else MicrowaveResetState
  }

  /** The times alternate on, off, on, ... as the status says: odd while
      started, even otherwise. */
  predicate Alternates(microwave: InternalState) {
    if microwave.status == Started then |microwave.onAndOffTimes| % 2 == 1 else |microwave.onAndOffTimes| % 2 == 0
  }

  /** START while not started and STOP while started: the buttons a user
      would press. */
  predicate Sensible(microwave: InternalState, action: Action) {
    (action == Start ==> microwave.status != Started) && (action == Stop ==> microwave.status == Started)
  }

  lemma SensibleActionsAlternate(microwave: InternalState, action: Action, timestamp: int)
    requires Alternates(microwave) && Sensible(microwave, action)
    ensures Alternates(MicrowaveReducer(microwave, action, timestamp))
  {
  }

  /** What the view shows: the reset state when reset; when stopped, the
      planned time and the (on, off) pairs summed; when started, the pairs
      summed with `now` closing the last one, as long as that stays under
      the planned time. */
  lemma ViewShows(microwave: InternalState, now: int)
    requires Alternates(microwave)
    ensures microwave.status == Reset ==> View(microwave, now) == MicrowaveState(0, Some(0), Reset)
    ensures microwave.status == Stopped ==>
      View(microwave, now) == MicrowaveState(microwave.timePlannedMs, Some(OnTime(microwave.onAndOffTimes)), Stopped)
    ensures microwave.status == Started ==>
      var done := OnTime(microwave.onAndOffTimes + [now]);
      View(microwave, now) == if done < microwave.timePlannedMs then MicrowaveState(microwave.timePlannedMs, Some(done), Started)
                              else MicrowaveState(0, Some(0), Reset)
  {
    ComputeTimeDoneMsSumsPairs(microwave.onAndOffTimes);
    ComputeTimeDoneMsSumsPairs(microwave.onAndOffTimes + [now]);
  }

  /** Two START presses in a row record two on times: the next STOP shows
      a NaN time done. */
  lemma DoubleStartShowsNaN(t1: int, t2: int, t3: int, now: int)
    ensures var s := MicrowaveReducer(MicrowaveReducer(MicrowaveReducer(InitialMicrowaveState, Start, t1), Start, t2), Stop, t3);
      View(s, now).status == Stopped && View(s, now).timeDoneMs == None
  {
    var s := MicrowaveReducer(MicrowaveReducer(MicrowaveReducer(InitialMicrowaveState, Start, t1), Start, t2), Stop, t3);
    ComputeTimeDoneMsSumsPairs(s.onAndOffTimes);
  }
}
