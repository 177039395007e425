/**
 What `out_write` does as a whole, told by the calls that are made: the gain, the sleep, the frames that its
 rounds enqueue, and the three counters.
 */
module OutWrite {
  import opened Bytes
  import opened AudioVbuffer
  import opened OutStream
  import opened StreamRuns

  // ----- Gain --------------------------------------------------------------------------------------

  /** The left sample of the `j`-th stereo frame: amplified when the left channel is enabled, else zero. */
  lemma LeftSample(gain: Gain, b: seq<byte>, j: nat)
    requires 4 * j + 1 < |b|
    ensures var r := Gained(gain, b);
            (r[4 * j], r[4 * j + 1]) == if gain.left then gain.amplify(b[4 * j], b[4 * j + 1]) else (0, 0)
  {
    assert (4 * j) / 2 == 2 * j && (4 * j + 1) / 2 == 2 * j;
  }

  /** The right one. */
  lemma RightSample(gain: Gain, b: seq<byte>, j: nat)
    requires 4 * j + 3 < |b|
    ensures var r := Gained(gain, b);
            (r[4 * j + 2], r[4 * j + 3]) == if gain.right then gain.amplify(b[4 * j + 2], b[4 * j + 3]) else (0, 0)
  {
    assert (4 * j + 2) / 2 == 2 * j + 1 && (4 * j + 3) / 2 == 2 * j + 1;
  }

  /** An odd last byte stays. */
  lemma OddByteStays(gain: Gain, b: seq<byte>)
    requires |b| % 2 == 1
    ensures Gained(gain, b)[|b| - 1] == b[|b| - 1]
  {
  }

  ghost predicate LeavesSamples(gain: Gain)
  {
    gain.left && gain.right && forall low: byte, high: byte :: gain.amplify(low, high) == (low, high)
  }

  lemma UnityGainKeeps(gain: Gain, b: seq<byte>, k: nat)
    requires LeavesSamples(gain) && k < |b|
    ensures Gained(gain, b)[k] == b[k]
  {
    var j := k / 4;
    if k % 2 == 0 && k + 1 == |b| {
      OddByteStays(gain, b);
    } else if k % 4 < 2 {
      assert k == 4 * j || k == 4 * j + 1;
      LeftSample(gain, b, j);
      assert gain.amplify(b[4 * j], b[4 * j + 1]) == (b[4 * j], b[4 * j + 1]);
    } else {
      assert k == 4 * j + 2 || k == 4 * j + 3;
      RightSample(gain, b, j);
      assert gain.amplify(b[4 * j + 2], b[4 * j + 3]) == (b[4 * j + 2], b[4 * j + 3]);
    }
  }

  /** With both channels enabled a gain that leaves samples alone leaves the buffer alone. */
  lemma UnityGainIsInaudible(gain: Gain, b: seq<byte>)
    requires LeavesSamples(gain)
    ensures Gained(gain, b) == b
  {
    forall k | 0 <= k < |b|
      ensures Gained(gain, b)[k] == b[k]
    {
      UnityGainKeeps(gain, b, k);
    }
  }

  // ----- Sleep -------------------------------------------------------------------------------------

  /** A conversion to `int` gives the number of 32 bits in two's complement that is congruent modulo 2^32. */
  lemma ConversionToInt(x: int)
    ensures -2147483648 <= ToInt(x) <= 2147483647 && (x - ToInt(x)) % 0x1_0000_0000 == 0
  {
  }

  /** A write sleeps for exactly the frames that the ring has no room for, as long as an `int` holds their
      number; it does not sleep when there is room for all of them. */
  lemma SleepsForWhatDoesNotFit(f: Flow, frames: nat)
    requires f.live <= f.capacity && frames <= f.capacity - f.live + 2147483647
    ensures FramesToSleep(f, frames) == if frames <= f.capacity - f.live then 0 else frames - (f.capacity - f.live)
  {
  }

  // ----- Rounds ------------------------------------------------------------------------------------

  /** A write that still waits after a round has filled the ring, and the worker takes all the frames it asks
      for that there are. */
  lemma RoundsGoAsFarAsTheyCan(s: Stream, e: Event)
    requires StreamOk(s) && Feasible(s, e)
    ensures var t := Step(s, e);
            && (e.Enqueue? || e.Resume? ==> t.flow.writer.Idle? || t.flow.live == t.flow.capacity)
            && (e.Enqueue? && e.muted ==> t.flow.writer.Idle? && t.flow.ring == s.flow.ring)
            && (e.WorkerRead? && e.periodFrames >= s.flow.live ==> t.flow.live == 0)
            && (e.WorkerRead? && e.periodFrames < s.flow.live ==> t.flow.live == s.flow.live - e.periodFrames)
  {
  }

  /** The worker is in standby exactly when the stream is. */
  lemma {:induction false} WorkerStandsByWithStream(s: Stream, es: seq<Event>)
    requires StreamOk(s) && FeasibleFrom(s, es) && (s.workerStandby <==> s.clock.standby)
    ensures RunFrom(s, es).workerStandby <==> RunFrom(s, es).clock.standby
    decreases |es|
  {
    if es != [] {
      StepKeepsOk(s, es[0]);
      WorkerStandsByWithStream(Step(s, es[0]), es[1..]);
    }
  }

  // ----- Counters ----------------------------------------------------------------------------------

  /** A call of `out_write` that has got past its sleep. */
  datatype Call = Call(buffer: seq<byte>, muted: bool, gain: Gain)

  /** The calls of a run, read from its events; `asleep` is the buffer of a call that sleeps at the start. */
  function Calls(es: seq<Event>, asleep: seq<byte>): seq<Call>
  {
    if es == [] then [] else Called(es[0], asleep) + Calls(es[1..], AsleepAfter(es[0], asleep))
  }

  function AsleepAfter(e: Event, asleep: seq<byte>): seq<byte>
  {
    if e.BeginWrite? then e.buffer else asleep
  }

  function Called(e: Event, asleep: seq<byte>): seq<Call>
  {
    if e.Enqueue? then [Call(asleep, e.muted, e.gain)] else []
  }

  /** The calls that have returned: all but one that still waits. */
  function Returned(f: Flow, calls: seq<Call>): seq<Call>
  {
    if f.writer.Waiting? && calls != [] then calls[..|calls| - 1] else calls
  }

  /** The whole frames in the buffer of a call. */
  function FramesOf(frameSize: nat, c: Call): nat
    requires frameSize > 0
  {
    |c.buffer| / frameSize
  }

  /** The whole frames of the calls, and of those among them that are not muted. */
  function AllFrames(frameSize: nat, calls: seq<Call>): nat
    requires frameSize > 0
  {
    if calls == [] then 0
    else AllFrames(frameSize, calls[..|calls| - 1]) + FramesOf(frameSize, calls[|calls| - 1])
  }

  function HeardFrames(frameSize: nat, calls: seq<Call>): nat
    requires frameSize > 0
  {
    if calls == [] then 0
    else
      var last := calls[|calls| - 1];
      HeardFrames(frameSize, calls[..|calls| - 1]) + if last.muted then 0 else FramesOf(frameSize, last)
  }

  /** The counter, the bytes handed over by writes that have returned, and the call that waits are those of
      the calls. */
  ghost predicate Counted(s: Stream, calls: seq<Call>)
  {
    && s.flow.frameSize > 0
    && s.clock.framesWritten == AllFrames(s.flow.frameSize, Returned(s.flow, calls))
    && |Concat(s.flow.returned)| == Size(HeardFrames(s.flow.frameSize, Returned(s.flow, calls)), s.flow.frameSize)
    && (s.flow.writer.Waiting? ==>
          && calls != [] && !calls[|calls| - 1].muted
          && s.flow.writer.count == FramesOf(s.flow.frameSize, calls[|calls| - 1])
          && |s.flow.writer.frames| == Size(s.flow.writer.count, s.flow.frameSize))
  }

  lemma OneMoreCall(frameSize: nat, calls: seq<Call>, c: Call)
    requires frameSize > 0
    ensures (calls + [c])[..|calls|] == calls
    ensures AllFrames(frameSize, calls + [c]) == AllFrames(frameSize, calls) + FramesOf(frameSize, c)
    ensures HeardFrames(frameSize, calls + [c])
            == HeardFrames(frameSize, calls) + if c.muted then 0 else FramesOf(frameSize, c)
  {
    assert (calls + [c])[..|calls|] == calls;
  }

  lemma BytesOfOneMore(returned: seq<seq<byte>>, frames: seq<byte>, heard: nat, n: nat, frameSize: nat)
    requires |Concat(returned)| == Size(heard, frameSize) && |frames| == Size(n, frameSize)
    ensures |Concat(returned + [frames])| == Size(heard + n, frameSize)
  {
    ConcatAppend(returned, frames);
    SumOfBytes(heard, n, frameSize);
  }

  /** The last call returns with its frames. */
  lemma LastReturns(s: Stream, t: Stream, calls: seq<Call>, c: Call, frames: seq<byte>)
    requires s.flow.frameSize > 0 && t.flow.frameSize == s.flow.frameSize && t.flow.writer.Idle?
    requires s.clock.framesWritten == AllFrames(s.flow.frameSize, calls)
    requires |Concat(s.flow.returned)| == Size(HeardFrames(s.flow.frameSize, calls), s.flow.frameSize)
    requires t.clock.framesWritten == s.clock.framesWritten + FramesOf(s.flow.frameSize, c)
    requires t.flow.returned == if c.muted then s.flow.returned else s.flow.returned + [frames]
    requires |frames| == Size(FramesOf(s.flow.frameSize, c), s.flow.frameSize)
    ensures Counted(t, calls + [c])
  {
    OneMoreCall(s.flow.frameSize, calls, c);
    BytesOfOneMore(s.flow.returned, frames, HeardFrames(s.flow.frameSize, calls), FramesOf(s.flow.frameSize, c),
                   s.flow.frameSize);
  }

  lemma EnqueueCounts(s: Stream, muted: bool, gain: Gain, calls: seq<Call>)
    requires StreamOk(s) && Feasible(s, Enqueue(muted, gain)) && Counted(s, calls)
    ensures Counted(Step(s, Enqueue(muted, gain)), calls + [Call(s.flow.writer.buffer, muted, gain)])
  {
    var t, c := Step(s, Enqueue(muted, gain)), Call(s.flow.writer.buffer, muted, gain);
    var count := WholeFrames(s.flow.frameSize, c.buffer);
    var frames := Gained(gain, c.buffer)[..Size(count, s.flow.frameSize)];
    if t.flow.writer.Idle? {
      LastReturns(s, t, calls, c, frames);
    } else {
      OneMoreCall(s.flow.frameSize, calls, c);
    }
  }

  lemma ResumeCounts(s: Stream, calls: seq<Call>)
    requires StreamOk(s) && Feasible(s, Resume) && Counted(s, calls)
    ensures Counted(Step(s, Resume), calls)
  {
    var t := Step(s, Resume);
    if t.flow.writer.Idle? {
      var n := |calls| - 1;
      LastReturns(s, t, calls[..n], calls[n], s.flow.writer.frames);
      assert calls[..n] + [calls[n]] == calls;
    }
  }

  ghost predicate Knows(s: Stream, asleep: seq<byte>)
  {
    s.flow.writer.Asleep? ==> s.flow.writer.buffer == asleep
  }

  lemma OthersDoNotCount(s: Stream, e: Event, calls: seq<Call>)
    requires StreamOk(s) && Feasible(s, e) && Counted(s, calls) && !e.Enqueue? && !e.Resume?
    ensures Counted(Step(s, e), calls)
  {
  }

  lemma StepKnows(s: Stream, e: Event, asleep: seq<byte>)
    requires StreamOk(s) && Feasible(s, e) && Knows(s, asleep)
    ensures Knows(Step(s, e), AsleepAfter(e, asleep))
  {
  }

  lemma StepCounts(s: Stream, e: Event, asleep: seq<byte>, calls: seq<Call>)
    requires StreamOk(s) && Feasible(s, e) && Counted(s, calls) && Knows(s, asleep)
    ensures Counted(Step(s, e), calls + Called(e, asleep)) && Knows(Step(s, e), AsleepAfter(e, asleep))
  {
    StepKnows(s, e, asleep);
    if e.Enqueue? {
      EnqueueCounts(s, e.muted, e.gain, calls);
    } else {
      assert calls + Called(e, asleep) == calls;
      if e.Resume? {
        ResumeCounts(s, calls);
      } else {
        OthersDoNotCount(s, e, calls);
      }
    }
  }

  lemma {:induction false} RunCounts(s: Stream, es: seq<Event>, asleep: seq<byte>, calls: seq<Call>)
    requires StreamOk(s) && FeasibleFrom(s, es) && Counted(s, calls) && Knows(s, asleep)
    ensures Counted(RunFrom(s, es), calls + Calls(es, asleep))
    decreases |es|
  {
    if es == [] {
      assert calls + [] == calls;
    } else {
      StepKeepsOk(s, es[0]);
      StepCounts(s, es[0], asleep, calls);
      RunCounts(Step(s, es[0]), es[1..], AsleepAfter(es[0], asleep), calls + Called(es[0], asleep));
      CallsGoOn(es, asleep, calls);
    }
  }

  lemma CallsGoOn(es: seq<Event>, asleep: seq<byte>, calls: seq<Call>)
    requires es != []
    ensures calls + Calls(es, asleep)
            == calls + Called(es[0], asleep) + Calls(es[1..], AsleepAfter(es[0], asleep))
  {
    assert Calls(es, asleep) == Called(es[0], asleep) + Calls(es[1..], AsleepAfter(es[0], asleep));
  }

  /** In every run the frames written are the whole frames of all calls that have returned, muted or not, and
      the bytes enqueued by calls that have returned are those of the whole frames of the others. */
  lemma CallsAreCounted(s0: Stream, es: seq<Event>)
    requires Initial(s0) && StreamOk(s0) && FeasibleFrom(s0, es)
    ensures var r := RunFrom(s0, es);
            var returned := Returned(r.flow, Calls(es, []));
            && r.clock.framesWritten == AllFrames(r.flow.frameSize, returned)
            && |Concat(r.flow.returned)| == Size(HeardFrames(r.flow.frameSize, returned), r.flow.frameSize)
  {
    RunCounts(s0, es, [], []);
    assert [] + Calls(es, []) == Calls(es, []);
  }

  // ----- The counters that start again -------------------------------------------------------------

  /** The call takes the stream out of standby. */
  predicate Restarts(s: Stream, e: Event)
  {
    e.BeginWrite? && s.clock.standby
  }

  /** The clock is looked at when all frames written have been played and more. */
  predicate Underruns(s: Stream, e: Event)
  {
    && (e.BeginWrite? || e.Query? || e.Standby?)
    && !s.clock.standby && s.clock.underrunTime <= e.now
    && s.clock.underrunPosition + FramesIn(e.now - s.clock.underrunTime, s.clock.rate) > s.clock.framesWritten
  }

  predicate Undisturbed(s: Stream, es: seq<Event>, underruns: bool)
    requires StreamOk(s) && FeasibleFrom(s, es)
    decreases |es|
  {
    es == [] ||
    (&& !Restarts(s, es[0]) && (underruns || !Underruns(s, es[0]))
     && (StepKeepsOk(s, es[0]); Undisturbed(Step(s, es[0]), es[1..], underruns)))
  }

  lemma StepOfCounters(s: Stream, e: Event)
    requires StreamOk(s) && Feasible(s, e)
    ensures var c, d := s.clock, Step(s, e).clock;
            && (Restarts(s, e) ==> d.framesRendered == 0 && d.framesTotalBuffered == 0)
            && (Underruns(s, e) ==> d.framesTotalBuffered == 0)
            && (!Restarts(s, e) ==>
                  d.framesRendered - c.framesRendered == d.framesWritten - c.framesWritten)
            && (!Restarts(s, e) && !Underruns(s, e) ==>
                  d.framesTotalBuffered - c.framesTotalBuffered == d.framesWritten - c.framesWritten)
  {
  }

  /** The frames rendered are counted like the frames written from the start of playing on, and the frames
      buffered from the last start or underrun on. */
  lemma {:induction false} CountersRunTogether(s: Stream, es: seq<Event>, underruns: bool)
    requires StreamOk(s) && FeasibleFrom(s, es) && Undisturbed(s, es, underruns)
    ensures var c, d := s.clock, RunFrom(s, es).clock;
            && d.framesRendered - c.framesRendered == d.framesWritten - c.framesWritten
            && (!underruns ==> d.framesTotalBuffered - c.framesTotalBuffered == d.framesWritten - c.framesWritten)
    decreases |es|
  {
    if es != [] {
      StepKeepsOk(s, es[0]);
      StepOfCounters(s, es[0]);
      CountersRunTogether(Step(s, es[0]), es[1..], underruns);
    }
  }
}
