/**
 An output stream of hals/audio/driver/audio_hw.c as a state machine.  A writer (`out_write`), a worker
 (the loop of `out_write_worker`) and any number of threads that query the position or put the stream
 into standby interleave at the granularity of the stream lock: an event is what one of them does
 between taking the lock and giving it up, to sleep, to wait or for good.

 Microseconds come from a monotone clock.  The float gain is an arbitrary function on samples.
 */
module OutStream {
  import opened Bytes
  import opened AudioVbuffer

  // ----- Position --------------------------------------------------------------------------------

  datatype Clock = Clock(
    rate: nat, standby: bool, underrunPosition: nat, underrunTime: nat,
    framesWritten: nat, framesRendered: nat, framesTotalBuffered: nat)

  /** Frames played since the last underrun or start. */
  function Elapsed(c: Clock, now: nat): nat
  {
    if c.standby || now < c.underrunTime then 0 else (now - c.underrunTime) * c.rate / 1_000_000
  }

  datatype Located = Located(clock: Clock, position: nat)

  /** `get_current_output_position`. */
  function CurrentPosition(c: Clock, now: nat): Located
  {
    var position := c.underrunPosition + Elapsed(c, now);
    if position > c.framesWritten then
      Located(c.(underrunPosition := c.framesWritten, underrunTime := now, framesTotalBuffered := 0), c.framesWritten)
    else Located(c, position)
  }

  /** The position part of `out_write` before it sleeps. */
  function WriteStarts(c: Clock, now: nat): Clock
  {
    var d := CurrentPosition(c, now).clock;
    if d.standby then d.(standby := false, underrunTime := now, framesRendered := 0, framesTotalBuffered := 0) else d
  }

  /** Its counters at the end. */
  function WriteCounts(c: Clock, frames: nat): Clock
  {
    c.(framesWritten := c.framesWritten + frames,
       framesRendered := c.framesRendered + frames,
       framesTotalBuffered := c.framesTotalBuffered + frames)
  }

  /** Conversion to an `int` of 32 bits. */
  function ToInt(x: int): int
  {
    var low := x % TWO_TO_THE_32;
    if low <= INT_MAX then low else low - TWO_TO_THE_32
  }

  /** The number of frames for which `do_out_standby` sleeps is an `int`, so that only the lower 32 bits of
      the backlog are looked at. */
  predicate NothingToSleepFor(written: nat, position: nat)
    requires position <= written
  {
    ToInt(written - position) == 0
  }

  /** One round of the loop in `do_out_standby`.  The position is stored into the very field that it is
      computed from. */
  function StandbyRound(c: Clock, now: nat): Clock
  {
    var l := CurrentPosition(c, now);
    var d := l.clock.(underrunPosition := l.position);
    if NothingToSleepFor(d.framesWritten, d.underrunPosition) then d.(standby := true) else d
  }

  // ----- Frames ----------------------------------------------------------------------------------

  /** The enabled channels and what the amplitude ratio and ducking do to a sample of two bytes. */
  datatype Gain = Gain(left: bool, right: bool, amplify: (byte, byte) -> (byte, byte))

  function GainedSample(gain: Gain, i: nat, low: byte, high: byte): (byte, byte)
  {
    if (i % 2 == 1 && !gain.right) || (i % 2 == 0 && !gain.left) then (0, 0) else gain.amplify(low, high)
  }

  /** `out_apply_gain`: every whole sample is replaced; an odd last byte stays. */
  function Gained(gain: Gain, b: seq<byte>): (r: seq<byte>)
    ensures |r| == |b|
  {
    seq(|b|, k requires 0 <= k < |b| => GainedByte(gain, b, k))
  }

  function GainedByte(gain: Gain, b: seq<byte>, k: nat): byte
    requires k < |b|
  {
    var i := k / 2;
    if 2 * i + 1 >= |b| then b[k]
    else
      var s := GainedSample(gain, i, b[2 * i], b[2 * i + 1]);
      if k % 2 == 0 then s.0 else s.1
  }

  /** The writer between its critical sections: asleep before it enqueues, or waiting in the loop that
      enqueues, with the frames that it has to enqueue and how many are done. */
  datatype Writer = Idle | Asleep(buffer: seq<byte>) | Waiting(frames: seq<byte>, count: nat, done: nat)

  /** The ring, and history: all bytes enqueued, all bytes the worker has taken out, and the frames of
      the unmuted writes that have returned. */
  datatype Flow = Flow(
    frameSize: nat, capacity: nat, ring: seq<byte>, live: nat, writer: Writer,
    enqueued: seq<byte>, taken: seq<byte>, returned: seq<seq<byte>>)

  predicate Sized(f: Flow)
  {
    && f.frameSize > 0 && f.capacity > 0
    && f.live <= f.capacity && |f.ring| == Size(f.live, f.frameSize)
    && (f.writer.Waiting? ==>
          && f.writer.done < f.writer.count
          && |f.writer.frames| == Size(f.writer.count, f.frameSize)
          && Size(f.writer.done, f.frameSize) <= |f.writer.frames|)
  }

  predicate Conserved(f: Flow)
  {
    && f.taken + f.ring == f.enqueued
    && f.enqueued == Concat(f.returned) + InProgress(f)
  }

  predicate FlowOk(f: Flow)
  {
    Sized(f) && Conserved(f)
  }

  function Concat(parts: seq<seq<byte>>): seq<byte>
  {
    if parts == [] then [] else Concat(parts[..|parts| - 1]) + parts[|parts| - 1]
  }

  /** The frames for which `out_write` sleeps before it enqueues: those that the ring has no room for. */
  function FramesToSleep(f: Flow, frames: nat): int
  {
    var available := f.capacity - f.live;
    if available > frames then 0 else ToInt(frames - available)
  }

  /** What the write that has not returned yet has enqueued. */
  function InProgress(f: Flow): seq<byte>
  {
    if f.writer.Waiting? && Size(f.writer.done, f.frameSize) <= |f.writer.frames|
    then f.writer.frames[..Size(f.writer.done, f.frameSize)] else []
  }

  function Append(f: Flow, piece: seq<byte>, n: nat): Flow
  {
    f.(ring := f.ring + piece, live := f.live + n, enqueued := f.enqueued + piece)
  }

  /** One round of the enqueueing loop: as many of the remaining frames as there is room for.  The write
      returns when none remains. */
  function EnqueueRound(f: Flow, frames: seq<byte>, count: nat, done: nat): Flow
    requires done <= count && f.live <= f.capacity && |frames| == Size(count, f.frameSize)
  {
    var n := Min(count - done, f.capacity - f.live);
    PieceFits(done, n, count, f.frameSize);
    var g := Append(f, frames[Size(done, f.frameSize)..Size(done + n, f.frameSize)], n);
    if done + n < count then g.(writer := Waiting(frames, count, done + n))
    else g.(writer := Idle, returned := f.returned + [frames])
  }

  /** The worker takes at most `n` frames. */
  function TakeRound(f: Flow, n: nat): Flow
    requires |f.ring| == Size(f.live, f.frameSize)
  {
    var frames := Min(n, f.live);
    FitsBytes(frames, f.live, f.frameSize);
    var k := Size(frames, f.frameSize);
    f.(ring := f.ring[k..], live := f.live - frames, taken := f.taken + f.ring[..k])
  }

  /** The whole frames in a buffer, after gain. */
  function WholeFrames(frameSize: nat, buffer: seq<byte>): (n: nat)
    requires frameSize > 0
    ensures Size(n, frameSize) <= |buffer|
  {
    SizeIsProduct(|buffer| / frameSize, frameSize);
    DivisionFits(|buffer|, frameSize);
    |buffer| / frameSize
  }

  lemma DivisionFits(a: nat, b: nat)
    requires b > 0
    ensures a / b * b <= a
  {
  }

  // ----- The machine -----------------------------------------------------------------------------

  datatype Stream = Stream(clock: Clock, flow: Flow, workerStandby: bool, time: nat, reports: seq<nat>)

  datatype Event =
    | BeginWrite(now: nat, buffer: seq<byte>)
    | Enqueue(muted: bool, gain: Gain)
    | Resume
    | WorkerRead(periodFrames: nat)
    | Query(now: nat)
    | Standby(now: nat, entering: bool)

  predicate Feasible(s: Stream, e: Event)
  {
    match e
    case BeginWrite(now, buffer) => s.time <= now && s.flow.writer.Idle?
    case Enqueue(_, _) => s.flow.writer.Asleep?
    case Resume => s.flow.writer.Waiting?
    case WorkerRead(n) => s.flow.live > 0
    case Query(now) => s.time <= now
    case Standby(now, _) => s.time <= now
  }

  predicate StreamOk(s: Stream)
  {
    && FlowOk(s.flow)
    && s.clock.underrunPosition <= s.clock.framesWritten
    && (!s.clock.standby ==> s.clock.underrunTime <= s.time)
  }

  function Step(s: Stream, e: Event): Stream
    requires StreamOk(s) && Feasible(s, e)
  {
    match e
    case BeginWrite(now, buffer) =>
      s.(time := now, workerStandby := false, clock := WriteStarts(s.clock, now),
         flow := s.flow.(writer := Asleep(buffer)))
    case Enqueue(muted, gain) =>
      var buffer := s.flow.writer.buffer;
      var count := WholeFrames(s.flow.frameSize, buffer);
      if muted then s.(clock := WriteCounts(s.clock, count), flow := s.flow.(writer := Idle))
      else
        var frames := Gained(gain, buffer)[..Size(count, s.flow.frameSize)];
        AfterRound(s, EnqueueRound(s.flow, frames, count, 0), count)
    case Resume =>
      var w := s.flow.writer;
      AfterRound(s, EnqueueRound(s.flow, w.frames, w.count, w.done), w.count)
    case WorkerRead(n) => s.(flow := TakeRound(s.flow, n))
    case Query(now) =>
      var l := CurrentPosition(s.clock, now);
      s.(time := now, clock := l.clock, reports := s.reports + [l.position])
    case Standby(now, entering) =>
      if entering && s.clock.standby then s.(time := now)
      else
        var d := StandbyRound(s.clock, now);
        s.(time := now, clock := d,
           workerStandby := s.workerStandby || NothingToSleepFor(d.framesWritten, d.underrunPosition))
  }

  /** A write that has enqueued everything counts its frames and returns. */
  function AfterRound(s: Stream, f: Flow, count: nat): Stream
  {
    s.(flow := f, clock := if f.writer.Idle? then WriteCounts(s.clock, count) else s.clock)
  }
}
