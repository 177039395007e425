/**
 The output stream object of hals/audio/driver/audio_hw.c.  Every method is one critical section under
 the stream lock, updates the fields as the code does, and is proved to be the step of OutStream with
 the same name, so that the theorems of StreamRuns hold of the object.  Local variables of `out_write`
 that live across a wait are parameters; ghost fields record them and the history.
 */
module StreamOutObject {
  import opened Bytes
  import opened AudioVbuffer
  import opened OutStream
  import opened StreamRuns

  class StreamOut {
    const buffer: Vbuffer
    const rate: nat
    var standby: bool
    var underrunPosition: nat
    var underrunTime: nat
    var framesWritten: nat
    var framesRendered: nat
    var framesTotalBuffered: nat
    var workerStandby: bool

    ghost var writer: Writer
    ghost var enqueued: seq<byte>
    ghost var taken: seq<byte>
    ghost var returned: seq<seq<byte>>
    ghost var time: nat
    ghost var reports: seq<nat>

    ghost function ClockView(): Clock
      reads this
    {
      Clock(rate, standby, underrunPosition, underrunTime, framesWritten, framesRendered, framesTotalBuffered)
    }

    ghost function FlowView(): Flow
      reads this, buffer, buffer.data
      requires buffer.Valid()
    {
      Flow(buffer.frameSize, buffer.frameCount, buffer.Contents(), buffer.live, writer, enqueued, taken, returned)
    }

    ghost function History(): Stream
      reads this, buffer, buffer.data
      requires buffer.Valid()
    {
      Stream(ClockView(), FlowView(), workerStandby, time, reports)
    }

    ghost predicate Valid()
      reads this, buffer, buffer.data
    {
      buffer.Valid() && StreamOk(History())
    }

    /** The output part of `adev_open_output_stream`. */
    constructor (rate: nat, frameCount: nat, frameSize: nat, now: nat)
      requires 0 < frameCount <= INT_MAX && frameSize > 0
      ensures Valid() && Initial(History()) && time == now
      ensures fresh(buffer) && fresh(buffer.data)
    {
      this.rate := rate;
      buffer := new Vbuffer(frameCount, frameSize);
      standby, workerStandby := true, true;
      underrunPosition, underrunTime := 0, 0;
      framesWritten, framesRendered, framesTotalBuffered := 0, 0, 0;
      writer, enqueued, taken, returned := Idle, [], [], [];
      time, reports := now, [];
      new;
      InitialOk(History());
    }

    /** `get_current_output_position`. */
    method GetCurrentOutputPosition(now: nat) returns (position: nat)
      modifies this`underrunPosition, this`underrunTime, this`framesTotalBuffered
      ensures Located(ClockView(), position) == CurrentPosition(old(ClockView()), now)
    {
      var sinceUnderrun: int := 0;
      if !standby {
        sinceUnderrun := (now - underrunTime) * rate / 1_000_000;
        NegativeStaysNegative(now - underrunTime, rate);
        if sinceUnderrun < 0 {
          sinceUnderrun := 0;
        }
      }
      position := underrunPosition + sinceUnderrun;
      if position > framesWritten {
        position := framesWritten;
        underrunPosition := position;
        underrunTime := now;
        framesTotalBuffered := 0;
      }
    }

    /** The same with `&out->underrun_position` as its output, as `do_out_standby` calls it: every store
        to the result is a store to the field. */
    method StoreCurrentOutputPosition(now: nat)
      modifies this`underrunPosition, this`underrunTime, this`framesTotalBuffered
      ensures var l := CurrentPosition(old(ClockView()), now);
              ClockView() == l.clock.(underrunPosition := l.position)
    {
      var sinceUnderrun: int := 0;
      if !standby {
        sinceUnderrun := (now - underrunTime) * rate / 1_000_000;
        NegativeStaysNegative(now - underrunTime, rate);
        if sinceUnderrun < 0 {
          sinceUnderrun := 0;
        }
      }
      underrunPosition := underrunPosition + sinceUnderrun;
      if underrunPosition > framesWritten {
        underrunPosition := framesWritten;
        underrunPosition := underrunPosition;
        underrunTime := now;
        framesTotalBuffered := 0;
      }
    }

    /** `out_write` until it sleeps, and the number of frames for which it does. */
    method BeginWrite(now: nat, bytes: array<byte>) returns (framesSleep: int)
      requires Valid() && Feasible(History(), Event.BeginWrite(now, bytes[..]))
      modifies this
      ensures Valid() && History() == Step(old(History()), Event.BeginWrite(now, bytes[..]))
      ensures framesSleep == FramesToSleep(FlowView(), WholeFrames(buffer.frameSize, bytes[..]))
    {
      StepKeepsOk(History(), Event.BeginWrite(now, bytes[..]));
      workerStandby := false;
      LeaveStandby(now);
      time, writer := now, Asleep(bytes[..]);
      var frames, available := WholeFrames(buffer.frameSize, bytes[..]), buffer.Dead();
      framesSleep := if available > frames then 0 else ToInt(frames - available);
    }

    /** Its part that looks at the position and takes the stream out of standby. */
    method LeaveStandby(now: nat)
      modifies this`standby, this`underrunPosition, this`underrunTime, this`framesRendered, this`framesTotalBuffered
      ensures ClockView() == WriteStarts(old(ClockView()), now)
    {
      var position := GetCurrentOutputPosition(now);
      if standby {
        standby := false;
        underrunTime := now;
        framesRendered := 0;
        framesTotalBuffered := 0;
      }
    }

    /** `out_write` after it has slept: nothing more when the stream is muted, else the gain and the
        first round of the loop.  It returns `frames`, the number of whole frames, and how many of them
        are done; when fewer, it waits. */
    method Enqueue(bytes: array<byte>, muted: bool, gain: Gain) returns (frames: nat, done: nat)
      requires Valid() && writer == Asleep(bytes[..]) && bytes != buffer.data
      modifies this, buffer, buffer.data, bytes
      ensures Valid() && History() == Step(old(History()), Event.Enqueue(muted, gain))
      ensures frames == WholeFrames(buffer.frameSize, old(bytes[..])) && done <= frames
      ensures !muted ==> bytes[..] == Gained(gain, old(bytes[..]))
      ensures done < frames ==> writer == Waiting(bytes[..][..Size(frames, buffer.frameSize)], frames, done)
      ensures done == frames ==> writer == Idle
    {
      ghost var before := History();
      StepKeepsOk(before, Event.Enqueue(muted, gain));
      frames := WholeFrames(buffer.frameSize, bytes[..]);
      if muted {
        done := frames;
        CountFrames(frames);
        writer := Idle;
      } else {
        ApplyGain(bytes, gain);
        done := Round(bytes[..][..Size(frames, buffer.frameSize)], frames, 0);
      }
    }

    /** `out_write` after it has been woken: another round. */
    method Resume(bytes: array<byte>, frames: nat, done: nat) returns (doneNow: nat)
      requires Valid() && Size(frames, buffer.frameSize) <= bytes.Length
      requires writer == Waiting(bytes[..][..Size(frames, buffer.frameSize)], frames, done)
      modifies this, buffer, buffer.data
      ensures Valid() && History() == Step(old(History()), Event.Resume)
      ensures done <= doneNow <= frames
      ensures doneNow < frames ==> writer == Waiting(old(bytes[..])[..Size(frames, buffer.frameSize)], frames, doneNow)
      ensures doneNow == frames ==> writer == Idle
    {
      StepKeepsOk(History(), Event.Resume);
      doneNow := Round(bytes[..][..Size(frames, buffer.frameSize)], frames, done);
    }

    /** One round of the loop, and the end of `out_write` after the last one. */
    method Round(bytes: seq<byte>, frames: nat, done: nat) returns (doneNow: nat)
      requires buffer.Valid() && done <= frames && |bytes| == Size(frames, buffer.frameSize)
      modifies this, buffer, buffer.data
      ensures buffer.Valid()
      ensures History() == AfterRound(old(History()), EnqueueRound(old(FlowView()), bytes, frames, done), frames)
      ensures done <= doneNow <= frames
      ensures writer == if doneNow < frames then Waiting(bytes, frames, doneNow) else Idle
    {
      var n := EnqueuePiece(bytes, frames, done);
      doneNow := done + n;
      if doneNow < frames {
        writer := Waiting(bytes, frames, doneNow);
      } else {
        CountFrames(frames);
        writer, returned := Idle, returned + [bytes];
      }
    }

    /** As many of the frames that remain as the ring has room for. */
    method EnqueuePiece(bytes: seq<byte>, frames: nat, done: nat) returns (n: nat)
      requires buffer.Valid() && done <= frames && |bytes| == Size(frames, buffer.frameSize)
      modifies this`enqueued, buffer, buffer.data
      ensures buffer.Valid() && n == Min(frames - done, buffer.frameCount - old(buffer.live))
      ensures Size(done, buffer.frameSize) <= Size(done + n, buffer.frameSize) <= |bytes|
      ensures FlowView() == Append(old(FlowView()),
                                   bytes[Size(done, buffer.frameSize)..Size(done + n, buffer.frameSize)], n)
    {
      PieceFits(done, frames - done, frames, buffer.frameSize);
      ghost var chunks;
      n, chunks := buffer.Write(bytes[Size(done, buffer.frameSize)..], frames - done);
      PieceFits(done, n, frames, buffer.frameSize);
      StartOfRest(bytes, Size(done, buffer.frameSize), Size(n, buffer.frameSize));
      enqueued := enqueued + bytes[Size(done, buffer.frameSize)..Size(done + n, buffer.frameSize)];
    }

    method CountFrames(frames: nat)
      modifies this`framesWritten, this`framesRendered, this`framesTotalBuffered
      ensures ClockView() == WriteCounts(old(ClockView()), frames)
    {
      framesWritten := framesWritten + frames;
      framesRendered := framesRendered + frames;
      framesTotalBuffered := framesTotalBuffered + frames;
    }

    /** The part of `out_write_worker` that takes frames out of the ring; it waits while there are none. */
    method WorkerRead(target: array<byte>, periodFrames: nat) returns (waits: bool, frames: nat)
      requires Valid()
      requires Size(periodFrames, buffer.frameSize) <= target.Length && target != buffer.data
      modifies this, buffer, target
      ensures Valid() && waits == !Feasible(old(History()), Event.WorkerRead(periodFrames))
      ensures waits ==> frames == 0 && History() == old(History())
      ensures !waits ==> History() == Step(old(History()), Event.WorkerRead(periodFrames))
      ensures Size(frames, buffer.frameSize) <= target.Length
      ensures taken == old(taken) + target[..][..Size(frames, buffer.frameSize)]
    {
      if buffer.Live() == 0 {
        assert target[..][..0] == [] && taken + [] == taken;
        return true, 0;
      }
      waits := false;
      frames := TakeFrames(target, periodFrames);
    }

    method TakeFrames(target: array<byte>, periodFrames: nat) returns (frames: nat)
      requires Valid() && Feasible(History(), Event.WorkerRead(periodFrames))
      requires Size(periodFrames, buffer.frameSize) <= target.Length && target != buffer.data
      modifies this, buffer, target
      ensures Valid() && History() == Step(old(History()), Event.WorkerRead(periodFrames))
      ensures Size(frames, buffer.frameSize) <= target.Length
      ensures taken == old(taken) + target[..][..Size(frames, buffer.frameSize)]
    {
      StepKeepsOk(History(), Event.WorkerRead(periodFrames));
      ghost var ring := buffer.Contents();
      ghost var bytes, chunks;
      frames, bytes, chunks := buffer.Read(target, periodFrames);
      assert ring[..|bytes|] == bytes && ring[|bytes|..] == buffer.Contents();
      taken := taken + bytes;
    }

    /** `out_get_presentation_position`. */
    method GetPresentationPosition(now: nat) returns (frames: nat)
      requires Valid() && Feasible(History(), Event.Query(now))
      modifies this
      ensures Valid() && History() == Step(old(History()), Event.Query(now))
      ensures frames == Position(old(ClockView()), now)
    {
      StepKeepsOk(History(), Event.Query(now));
      frames := GetCurrentOutputPosition(now);
      time, reports := now, reports + [frames];
    }

    /** `do_out_standby` between two sleeps; it is over when `over`. */
    method StandbyRound(now: nat, entering: bool) returns (over: bool)
      requires Valid() && Feasible(History(), Event.Standby(now, entering))
      modifies this
      ensures Valid() && History() == Step(old(History()), Event.Standby(now, entering))
      ensures over ==> standby
    {
      StepKeepsOk(History(), Event.Standby(now, entering));
      if entering && standby {
        time := now;
        return true;
      }
      time := now;
      over := TryStandby(now);
    }

    /** The body of the loop up to its sleep, and what follows the loop. */
    method TryStandby(now: nat) returns (over: bool)
      requires underrunPosition <= framesWritten
      modifies this`standby, this`workerStandby, this`underrunPosition, this`underrunTime, this`framesTotalBuffered
      ensures ClockView() == OutStream.StandbyRound(old(ClockView()), now)
      ensures over == NothingToSleepFor(framesWritten, underrunPosition)
      ensures workerStandby == (old(workerStandby) || over) && (over ==> standby)
    {
      StoreCurrentOutputPosition(now);
      var framesSleep := ToInt(framesWritten - underrunPosition);
      if framesSleep != 0 {
        return false;
      }
      workerStandby, standby := true, true;
      over := true;
    }
  }

  lemma NegativeStaysNegative(elapsed: int, rate: nat)
    ensures elapsed < 0 ==> elapsed * rate / 1_000_000 <= 0
    ensures elapsed >= 0 ==> elapsed * rate / 1_000_000 >= 0
  {
    if elapsed < 0 {
      assert elapsed * rate <= 0;
    } else {
      assert elapsed * rate >= 0;
    }
  }

  lemma StartOfRest(bytes: seq<byte>, at: nat, n: nat)
    requires at + n <= |bytes|
    ensures bytes[at..][..n] == bytes[at..at + n]
  {
  }

  lemma GainedPair(gain: Gain, b: seq<byte>, i: nat)
    requires 2 * i + 1 < |b|
    ensures var s := GainedSample(gain, i, b[2 * i], b[2 * i + 1]);
            GainedByte(gain, b, 2 * i) == s.0 && GainedByte(gain, b, 2 * i + 1) == s.1
  {
    assert (2 * i) / 2 == i && (2 * i + 1) / 2 == i;
  }

  /** `out_apply_gain`: replaces every whole 16-bit sample in place. */
  method ApplyGain(buffer: array<byte>, gain: Gain)
    modifies buffer
    ensures buffer[..] == Gained(gain, old(buffer[..]))
  {
    ghost var before := buffer[..];
    var size := buffer.Length / 2;
    var i := 0;
    while i < size
      invariant 0 <= i <= size
      invariant forall k :: 0 <= k < 2 * i ==> buffer[k] == GainedByte(gain, before, k)
      invariant forall k :: 2 * i <= k < buffer.Length ==> buffer[k] == before[k]
    {
      GainedPair(gain, before, i);
      var s := GainedSample(gain, i, buffer[2 * i], buffer[2 * i + 1]);
      buffer[2 * i], buffer[2 * i + 1] := s.0, s.1;
      i := i + 1;
    }
    assert forall k :: 2 * size <= k < buffer.Length ==> GainedByte(gain, before, k) == before[k];
  }
}
