/**
 What holds over every run of an output stream with one writer, however its threads interleave.
 */
module StreamRuns {
  import opened Bytes
  import opened AudioVbuffer
  import opened OutStream

  // ----- Frames are neither lost, nor duplicated, nor reordered ------------------------------------

  lemma ConcatAppend(parts: seq<seq<byte>>, part: seq<byte>)
    ensures Concat(parts + [part]) == Concat(parts) + part
  {
    assert (parts + [part])[..|parts|] == parts;
  }

  lemma PieceIsKept(taken: seq<byte>, ring: seq<byte>, before: seq<byte>, frames: seq<byte>, a: nat, b: nat)
    requires a <= b <= |frames| && taken + ring == before + frames[..a]
    ensures taken + (ring + frames[a..b]) == before + frames[..a] + frames[a..b] == before + frames[..b]
  {
    ConcatIsAssociative(taken, ring, frames[a..b]);
    ConcatIsAssociative(before, frames[..a], frames[a..b]);
    assert frames[..a] + frames[a..b] == frames[..b];
  }

  lemma EnqueueKeepsSizes(f: Flow, frames: seq<byte>, count: nat, done: nat)
    requires f.frameSize > 0 && f.capacity > 0
    requires f.live <= f.capacity && |f.ring| == Size(f.live, f.frameSize)
    requires done <= count && |frames| == Size(count, f.frameSize)
    ensures Sized(EnqueueRound(f, frames, count, done))
  {
    var n := Min(count - done, f.capacity - f.live);
    PieceFits(done, n, count, f.frameSize);
    SumOfBytes(f.live, n, f.frameSize);
  }

  lemma EnqueueConserves(f: Flow, frames: seq<byte>, count: nat, done: nat)
    requires f.live <= f.capacity && done <= count
    requires |frames| == Size(count, f.frameSize) && Size(done, f.frameSize) <= |frames|
    requires f.taken + f.ring == f.enqueued == Concat(f.returned) + frames[..Size(done, f.frameSize)]
    ensures Conserved(EnqueueRound(f, frames, count, done))
  {
    var n := Min(count - done, f.capacity - f.live);
    var a, b := Size(done, f.frameSize), Size(done + n, f.frameSize);
    RoundGives(f, frames, count, done);
    PieceIsKept(f.taken, f.ring, Concat(f.returned), frames, a, b);
    if done + n == count {
      WriteReturns(EnqueueRound(f, frames, count, done), f.returned, frames);
    } else {
      WriteGoesOn(EnqueueRound(f, frames, count, done), frames, count, done + n);
    }
  }

  lemma RoundGives(f: Flow, frames: seq<byte>, count: nat, done: nat)
    requires f.live <= f.capacity && done <= count && |frames| == Size(count, f.frameSize)
    ensures var n := Min(count - done, f.capacity - f.live);
            var a, b := Size(done, f.frameSize), Size(done + n, f.frameSize);
            var g := EnqueueRound(f, frames, count, done);
            && a <= b <= |frames| && g.frameSize == f.frameSize
            && g.taken == f.taken && g.ring == f.ring + frames[a..b] && g.enqueued == f.enqueued + frames[a..b]
            && (done + n == count ==> g.writer == Idle && g.returned == f.returned + [frames] && b == |frames|)
            && (done + n < count ==> g.writer == Waiting(frames, count, done + n) && g.returned == f.returned)
  {
    PieceFits(done, Min(count - done, f.capacity - f.live), count, f.frameSize);
  }

  lemma WriteReturns(g: Flow, returned: seq<seq<byte>>, frames: seq<byte>)
    requires g.writer == Idle && g.returned == returned + [frames]
    requires g.taken + g.ring == g.enqueued == Concat(returned) + frames[..|frames|]
    ensures Conserved(g)
  {
    ConcatAppend(returned, frames);
    NothingInProgress(frames, Concat(returned) + frames);
  }

  lemma WriteGoesOn(g: Flow, frames: seq<byte>, count: nat, done: nat)
    requires g.writer == Waiting(frames, count, done) && Size(done, g.frameSize) <= |frames|
    requires g.taken + g.ring == g.enqueued == Concat(g.returned) + frames[..Size(done, g.frameSize)]
    ensures Conserved(g)
  {
  }

  lemma NothingInProgress(frames: seq<byte>, enqueued: seq<byte>)
    ensures frames[..|frames|] == frames && enqueued + [] == enqueued
  {
  }

  lemma TakeKeepsFlow(f: Flow, n: nat)
    requires FlowOk(f)
    ensures FlowOk(TakeRound(f, n))
  {
    var frames := Min(n, f.live);
    PieceFits(0, frames, f.live, f.frameSize);
    SumOfBytes(frames, f.live - frames, f.frameSize);
    var k := Size(frames, f.frameSize);
    assert f.ring == f.ring[..k] + f.ring[k..];
    ConcatIsAssociative(f.taken, f.ring[..k], f.ring[k..]);
  }

  lemma StepKeepsFlow(s: Stream, e: Event)
    requires StreamOk(s) && Feasible(s, e)
    ensures FlowOk(Step(s, e).flow)
  {
    var f := s.flow;
    match e
    case Enqueue(muted, gain) =>
      if !muted {
        var count := WholeFrames(f.frameSize, f.writer.buffer);
        var frames := Gained(gain, f.writer.buffer)[..Size(count, f.frameSize)];
        assert frames[..Size(0, f.frameSize)] == [];
        EnqueueKeepsSizes(f, frames, count, 0);
        EnqueueConserves(f, frames, count, 0);
      }
    case Resume =>
      EnqueueKeepsSizes(f, f.writer.frames, f.writer.count, f.writer.done);
      EnqueueConserves(f, f.writer.frames, f.writer.count, f.writer.done);
    case WorkerRead(n) => TakeKeepsFlow(f, n);
    case BeginWrite(_, _) =>
    case Query(_) =>
    case Standby(_, _) =>
  }

  lemma StepKeepsOk(s: Stream, e: Event)
    requires StreamOk(s) && Feasible(s, e)
    ensures StreamOk(Step(s, e))
  {
    StepKeepsFlow(s, e);
  }

  predicate FeasibleFrom(s: Stream, es: seq<Event>)
    requires StreamOk(s)
    decreases |es|
  {
    es == [] || (Feasible(s, es[0]) && (StepKeepsOk(s, es[0]); FeasibleFrom(Step(s, es[0]), es[1..])))
  }

  function RunFrom(s: Stream, es: seq<Event>): (r: Stream)
    requires StreamOk(s) && FeasibleFrom(s, es)
    ensures StreamOk(r)
    decreases |es|
  {
    if es == [] then s else StepKeepsOk(s, es[0]); RunFrom(Step(s, es[0]), es[1..])
  }

  /** A stream that has just been opened. */
  predicate Initial(s: Stream)
  {
    && s.clock == Clock(s.clock.rate, true, 0, 0, 0, 0, 0)
    && s.flow == Flow(s.flow.frameSize, s.flow.capacity, [], 0, Idle, [], [], [])
    && s.flow.frameSize > 0 && s.flow.capacity > 0
    && s.reports == []
  }

  lemma InitialOk(s: Stream)
    requires Initial(s)
    ensures StreamOk(s)
  {
  }

  /** The frames that the writer hands over, gain applied, in a run: those of its unmuted writes. */
  function Submitted(s: Stream, es: seq<Event>): seq<seq<byte>>
    requires StreamOk(s) && FeasibleFrom(s, es)
    decreases |es|
  {
    if es == [] then []
    else
      StepKeepsOk(s, es[0]);
      SubmittedBy(s, es[0]) + Submitted(Step(s, es[0]), es[1..])
  }

  function SubmittedBy(s: Stream, e: Event): seq<seq<byte>>
    requires StreamOk(s) && Feasible(s, e)
  {
    if e.Enqueue? && !e.muted then
      var b := s.flow.writer.buffer;
      [Gained(e.gain, b)[..Size(WholeFrames(s.flow.frameSize, b), s.flow.frameSize)]]
    else []
  }

  /** The write that is in the enqueueing loop. */
  function Current(f: Flow): seq<seq<byte>>
  {
    if f.writer.Waiting? then [f.writer.frames] else []
  }

  lemma RoundSubmits(f: Flow, frames: seq<byte>, count: nat, done: nat)
    requires done <= count && f.live <= f.capacity && |frames| == Size(count, f.frameSize)
    ensures var g := EnqueueRound(f, frames, count, done);
            g.returned + Current(g) == f.returned + [frames]
  {
  }

  lemma StepSubmits(s: Stream, e: Event)
    requires StreamOk(s) && Feasible(s, e)
    ensures var t := Step(s, e);
            t.flow.returned + Current(t.flow) == s.flow.returned + Current(s.flow) + SubmittedBy(s, e)
  {
    var f := s.flow;
    if e.Enqueue? && !e.muted {
      var count := WholeFrames(f.frameSize, f.writer.buffer);
      RoundSubmits(f, Gained(e.gain, f.writer.buffer)[..Size(count, f.frameSize)], count, 0);
    } else if e.Resume? {
      RoundSubmits(f, f.writer.frames, f.writer.count, f.writer.done);
    }
  }

  lemma {:induction false} RunSubmits(s: Stream, es: seq<Event>)
    requires StreamOk(s) && FeasibleFrom(s, es)
    ensures var r := RunFrom(s, es);
            r.flow.returned + Current(r.flow) == s.flow.returned + Current(s.flow) + Submitted(s, es)
    decreases |es|
  {
    if es != [] {
      StepKeepsOk(s, es[0]);
      var t := Step(s, es[0]);
      StepSubmits(s, es[0]);
      RunSubmits(t, es[1..]);
      ConcatIsAssociative(s.flow.returned + Current(s.flow), SubmittedBy(s, es[0]), Submitted(t, es[1..]));
    }
  }

  /** Conservation: in every run, what the worker has taken out followed by what is in the ring is what
      has been enqueued, and that is all frames of the unmuted writes that have returned, in order,
      followed by the first `done` frames of the one that has not.  So an unmuted `out_write` returns
      only when all its frames are enqueued, however often it waits. */
  lemma FramesAreConserved(s0: Stream, es: seq<Event>)
    requires Initial(s0) && StreamOk(s0) && FeasibleFrom(s0, es)
    ensures var f, written := RunFrom(s0, es).flow, Submitted(s0, es);
            && f.taken + f.ring == f.enqueued
            && (!f.writer.Waiting? ==> f.enqueued == Concat(written))
            && (f.writer.Waiting? ==>
                  && f.writer.done < f.writer.count
                  && written != [] && written[|written| - 1] == f.writer.frames
                  && Size(f.writer.done, f.frameSize) <= |f.writer.frames|
                  && f.enqueued
                     == Concat(written[..|written| - 1]) + f.writer.frames[..Size(f.writer.done, f.frameSize)])
  {
    RunSubmits(s0, es);
    var f, written := RunFrom(s0, es).flow, Submitted(s0, es);
    assert [] + written == written;
    assert f.returned + Current(f) == written;
    if f.writer.Waiting? {
      assert written[..|written| - 1] == f.returned;
    } else {
      assert f.returned == written;
    }
  }

  // ----- The reported position ---------------------------------------------------------------------

  function Position(c: Clock, now: nat): nat { CurrentPosition(c, now).position }

  lemma ScaledMonotone(a: nat, b: nat, rate: nat)
    requires a <= b
    ensures a * rate / 1_000_000 <= b * rate / 1_000_000
  {
    assert a * rate <= b * rate;
  }

  lemma PositionMonotone(c: Clock, now: nat, later: nat)
    requires now <= later
    ensures Position(c, now) <= Position(c, later)
  {
    if !c.standby && c.underrunTime <= now {
      ScaledMonotone(now - c.underrunTime, later - c.underrunTime, c.rate);
    }
  }

  /** The whole frames that play in a time. */
  function FramesIn(micros: nat, rate: nat): nat
  {
    micros * rate / 1_000_000
  }

  /** While a stream plays, the position advances from any instant to any later one by the time between
      them at the sample rate, rounded down or up to a frame, until the frames written are reached; it
      advances by exactly that when it is a whole number of frames.  It starts where the last underrun or
      start has left it. */
  lemma PositionFollowsTheClock(c: Clock, now: nat, later: nat)
    requires !c.standby && c.underrunTime <= now <= later
    ensures var frames := FramesIn(later - now, c.rate);
            && Min(c.framesWritten, Position(c, now) + frames) <= Position(c, later)
            && Position(c, later) <= Min(c.framesWritten, Position(c, now) + frames + 1)
            && ((later - now) * c.rate == frames * 1_000_000 ==>
                  Position(c, later) == Min(c.framesWritten, Position(c, now) + frames))
    ensures Position(c, c.underrunTime) == Min(c.framesWritten, c.underrunPosition)
  {
    FramesOfSum(now - c.underrunTime, later - now, c.rate);
    assert now - c.underrunTime + (later - now) == later - c.underrunTime;
    assert Elapsed(c, later) == FramesIn(later - c.underrunTime, c.rate);
    assert Elapsed(c, now) == FramesIn(now - c.underrunTime, c.rate);
  }

  lemma FramesOfSum(a: nat, b: nat, rate: nat)
    ensures FramesIn(a, rate) + FramesIn(b, rate) <= FramesIn(a + b, rate) <= FramesIn(a, rate) + FramesIn(b, rate) + 1
    ensures b * rate == FramesIn(b, rate) * 1_000_000 ==> FramesIn(a + b, rate) == FramesIn(a, rate) + FramesIn(b, rate)
  {
    var x, y := a * rate, b * rate;
    assert (a + b) * rate == x + y;
    QuotientOfSum(x, y);
  }

  lemma QuotientOfSum(x: nat, y: nat)
    ensures x / 1_000_000 + y / 1_000_000 <= (x + y) / 1_000_000 <= x / 1_000_000 + y / 1_000_000 + 1
    ensures y == y / 1_000_000 * 1_000_000 ==> (x + y) / 1_000_000 == x / 1_000_000 + y / 1_000_000
  {
  }

  lemma QuotientIs(x: nat, n: nat, q: nat, r: nat)
    requires x == n * q + r && r < n
    ensures x / n == q
  {
    var d := x / n;
    assert x == n * d + x % n;
    if d < q {
      assert n * d + n == n * (d + 1) <= n * q;
    } else if d > q {
      assert n * q + n == n * (q + 1) <= n * d;
    }
  }

  /** A look at the clock that finds more played than written starts again from the frames written, at that
      time; any other look changes nothing.  What is written then plays on from there. */
  lemma UnderrunStartsAgain(c: Clock, now: nat, frames: nat, later: nat)
    requires !c.standby && c.underrunTime <= now <= later
    ensures var d := CurrentPosition(c, now).clock;
            && (c.underrunPosition + FramesIn(now - c.underrunTime, c.rate) <= c.framesWritten ==> d == c)
            && (c.underrunPosition + FramesIn(now - c.underrunTime, c.rate) > c.framesWritten ==>
                  && CurrentPosition(c, now).position == c.framesWritten
                  && Position(d.(framesWritten := c.framesWritten + frames), later)
                     == c.framesWritten + Min(frames, FramesIn(later - now, c.rate)))
  {
    assert Elapsed(c, now) == FramesIn(now - c.underrunTime, c.rate);
    var d := CurrentPosition(c, now).clock.(framesWritten := c.framesWritten + frames);
    assert d.underrunTime <= later ==> Elapsed(d, later) == FramesIn(later - d.underrunTime, c.rate);
  }

  /** The write that takes a stream out of standby makes it play from its position on, at that time. */
  lemma WriteStartsPlaying(c: Clock, now: nat, frames: nat, later: nat)
    requires c.standby && c.underrunPosition <= c.framesWritten && now <= later
    ensures var d := WriteStarts(c, now);
            && !d.standby
            && Position(d.(framesWritten := c.framesWritten + frames), later)
               == Min(c.framesWritten + frames, c.underrunPosition + FramesIn(later - now, c.rate))
  {
    var d := WriteStarts(c, now).(framesWritten := c.framesWritten + frames);
    assert Elapsed(d, later) == FramesIn(later - now, c.rate);
  }

  /** A position that is asked for after a step is not before one that is asked for at its start. */
  lemma StepAdvancesPosition(s: Stream, e: Event)
    requires StreamOk(s) && Feasible(s, e)
    ensures s.time <= Step(s, e).time
    ensures Position(s.clock, s.time) <= Position(Step(s, e).clock, Step(s, e).time)
    ensures s.clock.framesWritten <= Step(s, e).clock.framesWritten
    ensures e.Query? ==> Position(s.clock, s.time) <= Position(s.clock, e.now) <= Position(Step(s, e).clock, e.now)
  {
    match e
    case BeginWrite(now, _) => PositionMonotone(s.clock, s.time, now);
    case Query(now) => PositionMonotone(s.clock, s.time, now);
    case Standby(now, _) => PositionMonotone(s.clock, s.time, now);
    case Enqueue(_, _) =>
    case Resume =>
    case WorkerRead(_) =>
  }

  /** The reports never decrease, and none goes beyond the frames written or the position now. */
  ghost predicate ReportsOk(s: Stream)
  {
    && (forall i, j :: 0 <= i <= j < |s.reports| ==> s.reports[i] <= s.reports[j])
    && (forall i :: 0 <= i < |s.reports| ==> s.reports[i] <= s.clock.framesWritten)
    && (forall i :: 0 <= i < |s.reports| ==> s.reports[i] <= Position(s.clock, s.time))
  }

  lemma StepKeepsReports(s: Stream, e: Event)
    requires StreamOk(s) && Feasible(s, e) && ReportsOk(s)
    ensures ReportsOk(Step(s, e))
  {
    StepAdvancesPosition(s, e);
    if e.Query? {
      OneMoreReport(s.reports, Position(s.clock, e.now), s.clock.framesWritten);
    }
  }

  lemma OneMoreReport(reports: seq<nat>, p: nat, written: nat)
    requires p <= written && forall i :: 0 <= i < |reports| ==> reports[i] <= p
    requires forall i, j :: 0 <= i <= j < |reports| ==> reports[i] <= reports[j]
    ensures forall i, j :: 0 <= i <= j < |reports + [p]| ==> (reports + [p])[i] <= (reports + [p])[j]
    ensures forall i :: 0 <= i < |reports + [p]| ==> (reports + [p])[i] <= p
  {
  }

  lemma {:induction false} RunKeepsReports(s: Stream, es: seq<Event>)
    requires StreamOk(s) && FeasibleFrom(s, es) && ReportsOk(s)
    ensures ReportsOk(RunFrom(s, es))
    decreases |es|
  {
    if es != [] {
      StepKeepsOk(s, es[0]);
      StepKeepsReports(s, es[0]);
      RunKeepsReports(Step(s, es[0]), es[1..]);
    }
  }

  /** Over every mix of writes, queries, underruns and standby cycles the reported presentation
      positions never decrease and never exceed the frames written. */
  lemma PositionsNeverDecrease(s0: Stream, es: seq<Event>)
    requires Initial(s0) && StreamOk(s0) && FeasibleFrom(s0, es)
    ensures var r := RunFrom(s0, es);
            && (forall i, j :: 0 <= i <= j < |r.reports| ==> r.reports[i] <= r.reports[j])
            && (forall i :: 0 <= i < |r.reports| ==> r.reports[i] <= r.clock.framesWritten)
  {
    RunKeepsReports(s0, es);
  }

  // ----- Standby -----------------------------------------------------------------------------------

  /** The frames written that have not been played when the stream is looked at. */
  function Backlog(s: Stream): nat
  {
    s.clock.framesWritten - Position(s.clock, s.time)
  }

  lemma {:induction false} RunAdvancesPosition(s: Stream, es: seq<Event>)
    requires StreamOk(s) && FeasibleFrom(s, es)
    ensures s.time <= RunFrom(s, es).time
    ensures Position(s.clock, s.time) <= Position(RunFrom(s, es).clock, RunFrom(s, es).time)
    ensures s.clock.framesWritten <= RunFrom(s, es).clock.framesWritten
    decreases |es|
  {
    if es != [] {
      StepKeepsOk(s, es[0]);
      StepAdvancesPosition(s, es[0]);
      RunAdvancesPosition(Step(s, es[0]), es[1..]);
    }
  }

  /** A round of `do_out_standby` puts the stream into standby. */
  predicate Exits(s: Stream, now: nat, entering: bool)
    requires StreamOk(s)
  {
    && Feasible(s, Standby(now, entering))
    && !s.clock.standby && Step(s, Standby(now, entering)).clock.standby
  }

  /** A call of `do_out_standby` that is made in `s` leaves its loop, at the latest after the events `es`, at
      the frames written, if the backlog in `s` and the frames counted by writes in the meantime are
      together fewer than 2^32.  The events include the rounds of the loop that go on, writes, queries and
      other calls. */
  lemma StandbyExitsAtTheEnd(s: Stream, es: seq<Event>, now: nat, entering: bool)
    requires StreamOk(s) && FeasibleFrom(s, es) && Exits(RunFrom(s, es), now, entering)
    requires Backlog(s) + RunFrom(s, es).clock.framesWritten - s.clock.framesWritten < TWO_TO_THE_32
    ensures var c := Step(RunFrom(s, es), Standby(now, entering)).clock;
            c.underrunPosition == c.framesWritten == RunFrom(s, es).clock.framesWritten
  {
    RunAdvancesPosition(s, es);
    StepAdvancesPosition(RunFrom(s, es), Standby(now, entering));
  }

  /** After the events `es`, which count at most `budget` frames, a call leaves its loop too early. */
  ghost predicate ExitsEarly(s: Stream, budget: nat, es: seq<Event>, now: nat, entering: bool)
    requires StreamOk(s)
  {
    && FeasibleFrom(s, es)
    && RunFrom(s, es).clock.framesWritten <= s.clock.framesWritten + budget
    && Exits(RunFrom(s, es), now, entering)
    && var c := Step(RunFrom(s, es), Standby(now, entering)).clock; c.underrunPosition < c.framesWritten
  }

  /** The time at which a given number of frames has been played, when the clock is at least as fast as
      the sample rate. */
  lemma TimeOfFrame(frames: nat, rate: nat) returns (elapsed: nat)
    requires 1 <= rate <= 1_000_000
    ensures elapsed * rate / 1_000_000 == frames
  {
    var x := frames * 1_000_000 + rate - 1;
    elapsed := x / rate;
    assert x == elapsed * rate + x % rate;
    QuotientIs(elapsed * rate, 1_000_000, frames, elapsed * rate - frames * 1_000_000);
  }

  /** With a backlog of 2^32 frames or more, a call that is made at the right time leaves its loop in its
      first round, 2^32 frames too early. */
  lemma BacklogExitsEarly(s: Stream) returns (now: nat)
    requires StreamOk(s) && !s.clock.standby && 1 <= s.clock.rate <= 1_000_000
    requires Backlog(s) >= TWO_TO_THE_32
    ensures Exits(s, now, true)
    ensures var c := Step(s, Standby(now, true)).clock; c.underrunPosition == c.framesWritten - TWO_TO_THE_32
  {
    var c := s.clock;
    var frames := c.framesWritten - TWO_TO_THE_32 - c.underrunPosition;
    assert Elapsed(c, s.time) <= frames;
    var elapsed := TimeOfFrame(frames, c.rate);
    now := c.underrunTime + elapsed;
    if now < s.time {
      ScaledMonotone(now - c.underrunTime, s.time - c.underrunTime, c.rate);
      now := s.time;
    }
    assert Elapsed(c, now) == frames;
  }

  /** `n` muted writes of the same buffer, one every `period` microseconds. */
  function MutedWrites(now: nat, period: nat, buffer: seq<byte>, gain: Gain, n: nat): seq<Event>
    decreases n
  {
    if n == 0 then []
    else [BeginWrite(now, buffer)] + ([Enqueue(true, gain)] + MutedWrites(now + period, period, buffer, gain, n - 1))
  }

  /** No write of the run sleeps before it enqueues. */
  predicate NeverSleeps(s: Stream, es: seq<Event>)
    requires StreamOk(s) && FeasibleFrom(s, es)
    decreases |es|
  {
    es == [] ||
    (&& (es[0].BeginWrite? ==> FramesToSleep(s.flow, WholeFrames(s.flow.frameSize, es[0].buffer)) == 0)
     && (StepKeepsOk(s, es[0]); NeverSleeps(Step(s, es[0]), es[1..])))
  }

  /** The stream plays, nobody writes, and at `now` it has not run out of frames. */
  predicate Supplied(s: Stream, now: nat)
  {
    && s.time <= now && s.flow.writer.Idle? && !s.clock.standby
    && s.clock.underrunPosition + Elapsed(s.clock, now) <= s.clock.framesWritten
  }

  /** Of the clock, only the counters have changed, and `frames` more have been written. */
  predicate OnlyCounted(c: Clock, d: Clock, frames: nat)
  {
    && d == c.(framesWritten := d.framesWritten, framesRendered := d.framesRendered,
               framesTotalBuffered := d.framesTotalBuffered)
    && d.framesWritten == c.framesWritten + frames
  }

  lemma RunOfMore(s: Stream, e: Event, es: seq<Event>)
    requires StreamOk(s) && Feasible(s, e)
    requires StreamOk(Step(s, e)) && FeasibleFrom(Step(s, e), es)
    ensures FeasibleFrom(s, [e] + es) && RunFrom(s, [e] + es) == RunFrom(Step(s, e), es)
    ensures NeverSleeps(s, [e] + es)
            <==> && (e.BeginWrite? ==> FramesToSleep(s.flow, WholeFrames(s.flow.frameSize, e.buffer)) == 0)
                 && NeverSleeps(Step(s, e), es)
  {
    assert ([e] + es)[1..] == es;
  }

  /** A muted write and what follows it. */
  lemma MutedWriteThen(s: Stream, now: nat, buffer: seq<byte>, gain: Gain, t: Stream, es: seq<Event>)
    requires StreamOk(s) && s.time <= now && s.flow.writer.Idle?
    requires var c := WholeFrames(s.flow.frameSize, buffer);
             t == s.(time := now, workerStandby := false, clock := WriteCounts(WriteStarts(s.clock, now), c))
    requires StreamOk(t) && FeasibleFrom(t, es)
    ensures var all := [BeginWrite(now, buffer)] + ([Enqueue(true, gain)] + es);
            && FeasibleFrom(s, all) && RunFrom(s, all) == RunFrom(t, es)
            && (NeverSleeps(s, all)
                <==> FramesToSleep(s.flow, WholeFrames(s.flow.frameSize, buffer)) == 0 && NeverSleeps(t, es))
  {
    var begin, end := BeginWrite(now, buffer), Enqueue(true, gain);
    StepKeepsOk(s, begin);
    var middle := Step(s, begin);
    assert Step(middle, end) == t;
    RunOfMore(middle, end, es);
    RunOfMore(s, begin, [end] + es);
  }

  /** Muted writes that are not slower than the stream plays count their frames and change nothing else;
      they do not sleep when the ring has room for one of them. */
  lemma {:induction false} MutedWritesCount(s: Stream, now: nat, period: nat, buffer: seq<byte>, gain: Gain, n: nat)
    requires StreamOk(s) && Supplied(s, now)
    requires period * s.clock.rate <= 1_000_000 * WholeFrames(s.flow.frameSize, buffer)
    ensures var es, c := MutedWrites(now, period, buffer, gain, n), WholeFrames(s.flow.frameSize, buffer);
            && FeasibleFrom(s, es)
            && RunFrom(s, es).flow == s.flow
            && OnlyCounted(s.clock, RunFrom(s, es).clock, Size(n, c))
            && Supplied(RunFrom(s, es), now + Size(n, period))
            && (c <= s.flow.capacity - s.flow.live ==> NeverSleeps(s, es))
    decreases n
  {
    if n > 0 {
      var c := WholeFrames(s.flow.frameSize, buffer);
      var t := s.(time := now, workerStandby := false, clock := WriteCounts(WriteStarts(s.clock, now), c));
      assert WriteStarts(s.clock, now) == s.clock;
      StaysSupplied(s.clock, now, period, c);
      MutedWritesCount(t, now + period, period, buffer, gain, n - 1);
      MutedWriteThen(s, now, buffer, gain, t, MutedWrites(now + period, period, buffer, gain, n - 1));
    }
  }

  lemma StaysSupplied(c: Clock, now: nat, period: nat, frames: nat)
    requires !c.standby && c.underrunPosition + Elapsed(c, now) <= c.framesWritten
    requires period * c.rate <= 1_000_000 * frames
    ensures c.underrunPosition + Elapsed(c, now + period) <= c.framesWritten + frames
  {
    if now + period >= c.underrunTime {
      var a := if now >= c.underrunTime then (now - c.underrunTime) * c.rate else 0;
      var b := (now + period - c.underrunTime) * c.rate;
      assert b <= a + period * c.rate by {
        if now >= c.underrunTime {
          assert b == a + period * c.rate;
        } else {
          assert b <= period * c.rate;
        }
      }
      assert b / 1_000_000 <= (a + 1_000_000 * frames) / 1_000_000 == a / 1_000_000 + frames;
    }
  }

  lemma OneFrame(frameSize: nat)
    requires frameSize > 0
    ensures WholeFrames(frameSize, seq(frameSize, _ => 0)) == 1
  {
  }

  /** Looking at a stream that nobody writes to makes it supplied, and does not move its position. */
  lemma LookingSupplies(s: Stream)
    requires StreamOk(s) && !s.clock.standby && s.flow.writer.Idle?
    ensures var t := Step(s, Query(s.time));
            && Supplied(t, s.time) && t.time == s.time && t.flow == s.flow
            && t.clock.rate == s.clock.rate && t.clock.framesWritten == s.clock.framesWritten
            && Position(t.clock, s.time) == Position(s.clock, s.time)
  {
  }

  lemma CountingAddsToBacklog(t: Stream, r: Stream, n: nat)
    requires Supplied(t, t.time) && OnlyCounted(t.clock, r.clock, n) && Supplied(r, t.time) && r.time == t.time
    ensures Backlog(r) == Backlog(t) + n
  {
  }

  /** `n` frames counted at once, one by one and without a sleep when the ring has room, are added to the
      backlog. */
  lemma WritesAddToBacklog(s: Stream, n: nat) returns (es: seq<Event>)
    requires StreamOk(s) && !s.clock.standby && (n > 0 ==> s.flow.writer.Idle?)
    ensures FeasibleFrom(s, es)
    ensures var r := RunFrom(s, es);
            && !r.clock.standby && r.clock.rate == s.clock.rate
            && r.clock.framesWritten == s.clock.framesWritten + n
            && Backlog(r) == Backlog(s) + n
    ensures s.flow.live < s.flow.capacity ==> NeverSleeps(s, es)
  {
    es := [];
    if n > 0 {
      es := LookAndWrite(s, n);
    }
  }

  lemma LookAndWrite(s: Stream, n: nat) returns (es: seq<Event>)
    requires StreamOk(s) && !s.clock.standby && s.flow.writer.Idle?
    ensures FeasibleFrom(s, es)
    ensures var r := RunFrom(s, es);
            && !r.clock.standby && r.clock.rate == s.clock.rate
            && r.clock.framesWritten == s.clock.framesWritten + n
            && Backlog(r) == Backlog(s) + n
    ensures s.flow.live < s.flow.capacity ==> NeverSleeps(s, es)
  {
    var frame: seq<byte> := seq(s.flow.frameSize, _ => 0);
    var gain := Gain(true, true, (low, high) => (low, high));
    var writes := MutedWrites(s.time, 0, frame, gain, n);
    OneFrame(s.flow.frameSize);
    SizeIsProduct(n, 1);
    SizeIsProduct(n, 0);
    StepKeepsOk(s, Query(s.time));
    LookingSupplies(s);
    var t := Step(s, Query(s.time));
    MutedWritesCount(t, s.time, 0, frame, gain, n);
    RunAdvancesPosition(t, writes);
    CountingAddsToBacklog(t, RunFrom(t, writes), n);
    RunOfMore(s, Query(s.time), writes);
    es := [Query(s.time)] + writes;
  }

  /** Exactly when calls of `do_out_standby` are safe from `s` on, at whatever time they are made.  In whatever
      way the calls, their rounds, the queries, the worker and writes that count at most `budget` frames
      interleave, every exit is at the frames written, if and only if the backlog in `s` and the budget
      are together fewer than 2^32. */
  lemma StandbyIsSafeExactly(s: Stream, budget: nat)
    requires StreamOk(s) && !s.clock.standby && 1 <= s.clock.rate <= 1_000_000
    requires budget > 0 ==> s.flow.writer.Idle?
    ensures (forall es, now, entering :: !ExitsEarly(s, budget, es, now, entering))
            <==> Backlog(s) + budget < TWO_TO_THE_32
  {
    if Backlog(s) + budget < TWO_TO_THE_32 {
      forall es, now, entering
        ensures !ExitsEarly(s, budget, es, now, entering)
      {
        if ExitsEarly(s, budget, es, now, entering) {
          StandbyExitsAtTheEnd(s, es, now, entering);
        }
      }
    } else {
      var es := WritesAddToBacklog(s, budget);
      var now := BacklogExitsEarly(RunFrom(s, es));
      assert ExitsEarly(s, budget, es, now, true);
    }
  }

  /** The backlog that the first round of a call at `now` finds. */
  function BacklogAt(s: Stream, now: nat): nat
  {
    s.clock.framesWritten - Position(s.clock, now)
  }

  /** The backlog after that round, which has stored the time elapsed so far and counts it again. */
  function BacklogLeft(s: Stream, now: nat): nat
  {
    if BacklogAt(s, now) > Elapsed(s.clock, now) then BacklogAt(s, now) - Elapsed(s.clock, now) else 0
  }

  lemma FirstRound(s: Stream, now: nat)
    requires StreamOk(s) && !s.clock.standby && s.time <= now
    ensures var t := Step(s, Standby(now, true));
            && (Exits(s, now, true) <==> BacklogAt(s, now) % TWO_TO_THE_32 == 0)
            && t.clock.underrunPosition == Position(s.clock, now)
            && t.clock.framesWritten == s.clock.framesWritten && t.clock.rate == s.clock.rate
            && t.flow == s.flow
            && (!Exits(s, now, true) ==> !t.clock.standby && Backlog(t) == BacklogLeft(s, now))
  {
  }

  /** The call whose first round is at `now` leaves its loop too early: in that round, or after it and the
      events `es`, which count at most `budget` frames. */
  ghost predicate CallExitsEarly(s: Stream, now: nat, budget: nat, es: seq<Event>, later: nat, entering: bool)
    requires StreamOk(s) && Feasible(s, Standby(now, true))
  {
    StepKeepsOk(s, Standby(now, true));
    var t := Step(s, Standby(now, true));
    if Exits(s, now, true) then t.clock.underrunPosition < t.clock.framesWritten
    else ExitsEarly(t, budget, es, later, entering)
  }

  /** Exactly when the call that is made at `now` is safe: its first round finds no backlog at all, or it finds
      one that is not a multiple of 2^32, and what it leaves of it and the budget are together fewer
      than 2^32. */
  lemma CallIsSafeExactly(s: Stream, now: nat, budget: nat)
    requires StreamOk(s) && !s.clock.standby && s.time <= now && 1 <= s.clock.rate <= 1_000_000
    requires budget > 0 ==> s.flow.writer.Idle?
    ensures (forall es, later, entering :: !CallExitsEarly(s, now, budget, es, later, entering))
            <==> if BacklogAt(s, now) % TWO_TO_THE_32 == 0 then BacklogAt(s, now) == 0
                 else BacklogLeft(s, now) + budget < TWO_TO_THE_32
  {
    FirstRound(s, now);
    StepKeepsOk(s, Standby(now, true));
    var t := Step(s, Standby(now, true));
    if Exits(s, now, true) {
      CallOfOneRound(s, now, budget);
    } else {
      StandbyIsSafeExactly(t, budget);
      CallAfterFirstRound(s, now, budget);
    }
  }

  lemma CallOfOneRound(s: Stream, now: nat, budget: nat)
    requires StreamOk(s) && Exits(s, now, true)
    ensures (forall es, later, entering :: !CallExitsEarly(s, now, budget, es, later, entering))
            <==> BacklogAt(s, now) == 0
  {
    FirstRound(s, now);
    assert CallExitsEarly(s, now, budget, [], now, true) <==> BacklogAt(s, now) != 0;
  }

  lemma CallAfterFirstRound(s: Stream, now: nat, budget: nat)
    requires StreamOk(s) && Feasible(s, Standby(now, true)) && !Exits(s, now, true)
    ensures StreamOk(Step(s, Standby(now, true)))
    ensures (forall es, later, entering :: !CallExitsEarly(s, now, budget, es, later, entering))
            <==> (forall es, later, entering ::
                    !ExitsEarly(Step(s, Standby(now, true)), budget, es, later, entering))
  {
    StepKeepsOk(s, Standby(now, true));
    var t := Step(s, Standby(now, true));
    assert forall es, later, entering ::
        CallExitsEarly(s, now, budget, es, later, entering) == ExitsEarly(t, budget, es, later, entering);
  }

  /** An early exit does occur in runs from the start in which nothing ever sleeps: `n` muted writes that the
      ring has room for, made faster than they are played until 2^32 frames are left to play.  At a sample
      rate of 48000, writes of 2880 frames every microsecond do that within about two seconds. */
  lemma StandbyCanExitEarly(s0: Stream, period: nat, buffer: seq<byte>, gain: Gain, n: nat) returns (now: nat)
    requires Initial(s0) && StreamOk(s0) && 1 <= s0.clock.rate <= 1_000_000
    requires var c := WholeFrames(s0.flow.frameSize, buffer);
             && c <= s0.flow.capacity && period * s0.clock.rate <= 1_000_000 * c
             && Size(n, c) >= TWO_TO_THE_32 + Size(n, period) * s0.clock.rate / 1_000_000
    ensures var es := MutedWrites(s0.time, period, buffer, gain, n);
            && FeasibleFrom(s0, es) && NeverSleeps(s0, es)
            && Exits(RunFrom(s0, es), now, true)
            && var c := Step(RunFrom(s0, es), Standby(now, true)).clock;
               c.underrunPosition == c.framesWritten - TWO_TO_THE_32
  {
    var c := WholeFrames(s0.flow.frameSize, buffer);
    var t := s0.(time := s0.time, workerStandby := false, clock := WriteCounts(WriteStarts(s0.clock, s0.time), c));
    StaysSupplied(t.clock.(framesWritten := 0), s0.time, period, c);
    MutedWritesCount(t, s0.time + period, period, buffer, gain, n - 1);
    var rest := MutedWrites(s0.time + period, period, buffer, gain, n - 1);
    MutedWriteThen(s0, s0.time, buffer, gain, t, rest);
    var r := RunFrom(t, rest);
    PositionMonotone(r.clock, r.time, s0.time + Size(n, period));
    now := BacklogExitsEarly(r);
  }

  /** While the loop of `do_out_standby` sleeps, the stored position already contains the time elapsed so
      far, which later looks add once more: the position runs ahead of the clock, up to the end. */
  lemma StandbyCountsTimeTwice(c: Clock, now: nat, later: nat)
    requires !c.standby && c.underrunTime <= now <= later && c.underrunPosition <= c.framesWritten
    requires c.underrunPosition + Elapsed(c, now) <= c.framesWritten
    requires !StandbyRound(c, now).standby
    ensures Position(StandbyRound(c, now), later)
            == Min(c.framesWritten, c.underrunPosition + Elapsed(c, now) + Elapsed(c, later))
  {
  }

  /** In standby every report is the same, whatever happens until the next write, and that write resumes
      from there. */
  lemma {:induction false} StandbyHoldsPosition(s: Stream, es: seq<Event>)
    requires StreamOk(s) && s.clock.standby && FeasibleFrom(s, es)
    requires forall k :: 0 <= k < |es| ==> !es[k].BeginWrite?
    ensures var r, position := RunFrom(s, es), s.clock.underrunPosition;
            && r.clock.standby && r.clock.underrunPosition == position
            && s.reports <= r.reports
            && (forall k :: |s.reports| <= k < |r.reports| ==> r.reports[k] == position)
            && (forall now: nat :: Position(WriteStarts(r.clock, now), now) == position)
    decreases |es|
  {
    if es != [] {
      StepKeepsOk(s, es[0]);
      StandbyHoldsPosition(Step(s, es[0]), es[1..]);
    }
  }
}
