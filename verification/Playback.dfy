/**
 From `out_write` to the sound device: the worker of an output stream (audio_hw.c) takes frames out of
 the ring and hands them to the shared mixer (ext_pcm.c) on the bus of the stream, in a zone that is
 selected to play.  The two state machines run side by side, and the worker is the only writer of its
 bus.
 */
module Playback {
  import opened Bytes
  import opened AudioVbuffer
  import opened Mixing
  import S = OutStream
  import SR = StreamRuns
  import M = MixerMachine

  /** A 16-bit sample in memory. */
  function Sample(low: byte, high: byte): int16
  {
    var w := Word(low, high);
    if w >= 0x8000 then w - 0x1_0000 else w
  }

  /** The two bytes of a sample: its lower 16 bits in two's complement. */
  function SampleBytes(x: int16): seq<byte>
  {
    Le16Bytes(x as int % 0x1_0000)
  }

  /** A sample is what its bytes say, and they can be had back from it. */
  lemma SampleKeepsBytes(low: byte, high: byte)
    ensures SampleBytes(Sample(low, high)) == [low, high]
    ensures Sample(low, high) == if high < 0x80 then low + 0x100 * high as int else low + 0x100 * high as int - 0x1_0000
  {
  }

  function BytesOf(samples: seq<int16>): seq<byte>
  {
    if samples == [] then [] else SampleBytes(samples[0]) + BytesOf(samples[1..])
  }

  /** So nothing of a buffer of whole samples is lost in its samples. */
  lemma {:induction false} SamplesKeepBytes(b: seq<byte>)
    requires |b| % 2 == 0
    ensures BytesOf(Samples(b)) == b
  {
    if b != [] {
      SamplesKeepBytes(b[2..]);
      SampleKeepsBytes(b[0], b[1]);
      assert Samples(b)[1..] == Samples(b[2..]);
      assert b == [b[0], b[1]] + b[2..];
    }
  }

  function Samples(b: seq<byte>): seq<int16>
  {
    if |b| < 2 then [] else [Sample(b[0], b[1])] + Samples(b[2..])
  }

  lemma {:induction false} SamplesOfParts(a: seq<byte>, b: seq<byte>)
    requires |a| % 2 == 0
    ensures Samples(a + b) == Samples(a) + Samples(b)
  {
    if a == [] {
      assert a + b == b;
    } else {
      assert (a + b)[2..] == a[2..] + b;
      SamplesOfParts(a[2..], b);
    }
  }

  /** The stream, the mixer, and the bytes the worker has in hand: taken from the ring and not yet passed
      to `ext_pcm_write`. */
  datatype Path = Path(stream: S.Stream, mixer: M.Mixer, bus: M.Bus, inHand: seq<byte>)

  datatype Event =
    | Stream(s: S.Event)
    | Take(periodFrames: nat)
    | Hand
    | Mix(m: M.Event)

  predicate PathOk(p: Path)
  {
    S.StreamOk(p.stream) && M.Bounded(p.mixer)
  }

  /** The worker takes frames only after it has passed on what it had and its last write has returned;
      only the worker writes to its bus. */
  predicate Feasible(p: Path, e: Event)
    requires PathOk(p)
  {
    match e
    case Stream(s) => !s.WorkerRead? && S.Feasible(p.stream, s)
    case Take(n) => p.inHand == [] && p.bus !in p.mixer.pending && S.Feasible(p.stream, S.WorkerRead(n))
    case Hand => p.inHand != [] && p.bus !in p.mixer.pending
    case Mix(m) => (m.Write? ==> m.bus != p.bus) && M.Feasible(p.mixer, m)
  }

  function Step(p: Path, e: Event): Path
    requires PathOk(p) && Feasible(p, e)
  {
    match e
    case Stream(s) => p.(stream := S.Step(p.stream, s))
    case Take(n) =>
      var t := S.Step(p.stream, S.WorkerRead(n));
      FitsBytes(Min(n, p.stream.flow.live), p.stream.flow.live, p.stream.flow.frameSize);
      p.(stream := t, inHand := p.stream.flow.ring[..Size(Min(n, p.stream.flow.live), p.stream.flow.frameSize)])
    case Hand => p.(mixer := M.Step(p.mixer, M.Write(p.bus, Samples(p.inHand))), inHand := [])
    case Mix(m) => p.(mixer := M.Step(p.mixer, m))
  }

  lemma StepKeepsPathOk(p: Path, e: Event)
    requires PathOk(p) && Feasible(p, e)
    ensures PathOk(Step(p, e))
  {
    match e
    case Stream(s) => SR.StepKeepsOk(p.stream, s);
    case Take(n) => SR.StepKeepsOk(p.stream, S.WorkerRead(n));
    case Hand => M.StepKeepsBounded(p.mixer, M.Write(p.bus, Samples(p.inHand)));
    case Mix(m) => M.StepKeepsBounded(p.mixer, m);
  }

  predicate FeasibleFrom(p: Path, es: seq<Event>)
    requires PathOk(p)
    decreases |es|
  {
    es == [] || (Feasible(p, es[0]) && (StepKeepsPathOk(p, es[0]); FeasibleFrom(Step(p, es[0]), es[1..])))
  }

  function RunFrom(p: Path, es: seq<Event>): Path
    requires PathOk(p) && FeasibleFrom(p, es)
    decreases |es|
  {
    if es == [] then p else StepKeepsPathOk(p, es[0]); RunFrom(Step(p, es[0]), es[1..])
  }

  /** A stream of 16-bit samples and a mixer that have just been opened. */
  predicate Initial(p: Path)
  {
    SR.Initial(p.stream) && p.stream.flow.frameSize % 2 == 0 && p.mixer == M.NEW_MIXER && p.inHand == []
  }

  /** What the worker has taken is what it has passed on to the mixer and what it has in hand. */
  ghost predicate HandedOn(p: Path)
  {
    && p.stream.flow.frameSize % 2 == 0
    && |p.stream.flow.taken| % 2 == 0
    && Samples(p.stream.flow.taken) == M.Get(p.mixer.submitted, p.bus) + Samples(p.inHand)
  }

  lemma {:induction false} SizeIsEven(n: nat, frameSize: nat)
    requires frameSize % 2 == 0
    ensures Size(n, frameSize) % 2 == 0
  {
    if n > 0 {
      SizeIsEven(n - 1, frameSize);
    }
  }

  lemma TakenGrows(taken: seq<byte>, submitted: seq<int16>, piece: seq<byte>)
    requires |taken| % 2 == 0 && |piece| % 2 == 0 && Samples(taken) == submitted + Samples([])
    ensures |taken + piece| % 2 == 0 && Samples(taken + piece) == submitted + Samples(piece)
  {
    SamplesOfParts(taken, piece);
    assert submitted + Samples([]) == submitted;
  }

  lemma TakeHandsOn(p: Path, n: nat)
    requires PathOk(p) && Feasible(p, Take(n)) && HandedOn(p)
    ensures HandedOn(Step(p, Take(n)))
  {
    var f := p.stream.flow;
    FitsBytes(Min(n, f.live), f.live, f.frameSize);
    SizeIsEven(Min(n, f.live), f.frameSize);
    TakenGrows(f.taken, M.Get(p.mixer.submitted, p.bus), f.ring[..Size(Min(n, f.live), f.frameSize)]);
  }

  lemma OthersDoNotSubmit(m: M.Mixer, e: M.Event, bus: M.Bus)
    requires M.Bounded(m) && M.Feasible(m, e) && (e.Write? ==> e.bus != bus)
    ensures M.Get(M.Step(m, e).submitted, bus) == M.Get(m.submitted, bus)
  {
  }

  lemma StreamKeepsTaken(s: S.Stream, e: S.Event)
    requires S.StreamOk(s) && S.Feasible(s, e) && !e.WorkerRead?
    ensures S.Step(s, e).flow.taken == s.flow.taken && S.Step(s, e).flow.frameSize == s.flow.frameSize
  {
  }

  lemma StepHandsOn(p: Path, e: Event)
    requires PathOk(p) && Feasible(p, e) && HandedOn(p)
    ensures HandedOn(Step(p, e))
  {
    match e
    case Stream(s) => StreamKeepsTaken(p.stream, s);
    case Take(n) => TakeHandsOn(p, n);
    case Hand =>
      var submitted := M.Get(p.mixer.submitted, p.bus) + Samples(p.inHand);
      assert submitted + Samples([]) == submitted;
    case Mix(m) => OthersDoNotSubmit(p.mixer, m, p.bus);
  }

  lemma {:induction false} RunHandsOn(p: Path, es: seq<Event>)
    requires PathOk(p) && FeasibleFrom(p, es) && HandedOn(p) && M.MixerOk(p.mixer)
    ensures var r := RunFrom(p, es);
            HandedOn(r) && M.MixerOk(r.mixer) && PathOk(r) && r.bus == p.bus
    decreases |es|
  {
    if es != [] {
      StepKeepsPathOk(p, es[0]);
      StepHandsOn(p, es[0]);
      MixerStaysOk(p, es[0]);
      RunHandsOn(Step(p, es[0]), es[1..]);
    }
  }

  lemma MixerStaysOk(p: Path, e: Event)
    requires PathOk(p) && Feasible(p, e) && M.MixerOk(p.mixer)
    ensures M.MixerOk(Step(p, e).mixer)
  {
    if e.Hand? {
      M.StepKeepsOk(p.mixer, M.Write(p.bus, Samples(p.inHand)));
    } else if e.Mix? {
      M.StepKeepsOk(p.mixer, e.m);
    }
  }

  /** End to end: in every run, the samples enqueued by `out_write` are, in order, those that the mixer has
      drained from the bus of the stream, those in its pipeline, those with which the worker waits for
      the mixer, those it has in hand, and those still in the ring. */
  lemma EnqueuedSamplesReachTheMixer(p0: Path, es: seq<Event>)
    requires Initial(p0) && PathOk(p0) && FeasibleFrom(p0, es)
    ensures var p := RunFrom(p0, es);
            && p.stream.flow.enqueued == S.Concat(p.stream.flow.returned) + S.InProgress(p.stream.flow)
            && Samples(p.stream.flow.enqueued)
               == M.Drained(p.mixer.ticks, p.bus) + M.Get(p.mixer.live, p.bus) + M.Get(p.mixer.pending, p.bus)
                  + Samples(p.inHand) + Samples(p.stream.flow.ring)
  {
    RunHandsOn(p0, es);
    var p := RunFrom(p0, es);
    assert M.Conserved(p.mixer, p.bus);
    SamplesOfParts(p.stream.flow.taken, p.stream.flow.ring);
  }
}
