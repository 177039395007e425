/**
 The shared output of hals/audio/driver/ext_pcm.c as a state machine: one bounded pipeline for every
 bus, a writer for every bus that waits while its pipeline is full, and a mixer thread that drains all
 pipelines at every tick.  All of them hold the mixer lock while they work, so that an event is what a
 writer does between two waits, or one tick; the order of events, and the order in which a tick visits
 the pipelines, are arbitrary.
 */
module MixerMachine {
  import opened Bytes
  import opened Mixing

  const MIXER_BUFFER_SIZE: nat := 4096

  /** A bus address, the key of the pipeline map. */
  datatype Bus = Bus(address: string)

  /** A tick: the order of its visits and what it found in the pipelines. */
  datatype Tick = Tick(order: seq<Bus>, chunks: map<Bus, seq<int16>>)

  /** The samples in every pipeline, what waiting writers still have to write, and history: everything
      the writers were asked to write, all ticks, and the blocks written to the device. */
  datatype Mixer = Mixer(
    live: map<Bus, seq<int16>>, pending: map<Bus, seq<int16>>,
    submitted: map<Bus, seq<int16>>, ticks: seq<Tick>, device: seq<seq<int16>>)

  function Get(m: map<Bus, seq<int16>>, bus: Bus): seq<int16>
  {
    if bus in m then m[bus] else []
  }

  datatype Event = Write(bus: Bus, data: seq<int16>) | Resume(bus: Bus) | MixTick(order: seq<Bus>)

  /** The order of a tick visits every pipeline once. */
  predicate IsOrder(order: seq<Bus>, buses: set<Bus>)
  {
    && (forall j :: 0 <= j < |order| ==> order[j] in buses)
    && (forall b :: b in buses ==> b in order)
    && (forall j, k :: 0 <= j < k < |order| ==> order[j] != order[k])
  }

  predicate Feasible(m: Mixer, e: Event)
  {
    match e
    case Write(bus, _) => bus !in m.pending
    case Resume(bus) => bus in m.pending
    case MixTick(order) => IsOrder(order, m.live.Keys)
  }

  /** One round of the loop in `mixer_pipeline_write`: as many samples as the pipeline has room for. */
  function Round(m: Mixer, bus: Bus, rest: seq<int16>): Mixer
    requires |Get(m.live, bus)| <= MIXER_BUFFER_SIZE
  {
    var n := Min(|rest|, MIXER_BUFFER_SIZE - |Get(m.live, bus)|);
    m.(live := m.live[bus := Get(m.live, bus) + rest[..n]],
       pending := if n < |rest| then m.pending[bus := rest[n..]] else m.pending - {bus})
  }

  function Visited(order: seq<Bus>, chunks: map<Bus, seq<int16>>): seq<seq<int16>>
  {
    seq(|order|, j requires 0 <= j < |order| => Get(chunks, order[j]))
  }

  function Output(t: Tick): seq<int16> { MixAll(Visited(t.order, t.chunks)) }

  predicate Bounded(m: Mixer)
  {
    forall b :: b in m.live ==> |m.live[b]| <= MIXER_BUFFER_SIZE
  }

  function Step(m: Mixer, e: Event): Mixer
    requires Bounded(m) && Feasible(m, e)
  {
    match e
    case Write(bus, data) =>
      Round(m.(submitted := m.submitted[bus := Get(m.submitted, bus) + data]), bus, data)
    case Resume(bus) => Round(m, bus, m.pending[bus])
    case MixTick(order) =>
      var t := Tick(order, m.live);
      m.(live := map b | b in m.live :: [],
         ticks := m.ticks + [t],
         device := if Output(t) == [] then m.device else m.device + [Output(t)])
  }

  /** Giving a bus an empty pipeline first does not change what a write does. */
  lemma CreationIsInvisible(m: Mixer, bus: Bus, data: seq<int16>)
    requires Bounded(m) && Feasible(m, Write(bus, data)) && bus !in m.live
    ensures var m' := m.(live := m.live[bus := []]);
            Round(m'.(submitted := m.submitted[bus := Get(m.submitted, bus) + data]), bus, data)
            == Step(m, Write(bus, data))
  {
  }

  lemma RoundShape(m: Mixer, bus: Bus, rest: seq<int16>)
    requires bus in m.live && |m.live[bus]| <= MIXER_BUFFER_SIZE
    ensures var r, n := Round(m, bus, rest), Min(|rest|, MIXER_BUFFER_SIZE - |m.live[bus]|);
            && r.live == m.live[bus := m.live[bus] + rest[..n]] && r.device == m.device
            && Get(r.pending, bus) == rest[n..] && (n == |rest| <==> bus !in r.pending)
  {
  }

  /** A writer waits only when its pipeline is full, and a tick leaves nothing in any pipeline. */
  lemma StepsGoAsFarAsTheyCan(m: Mixer, e: Event)
    requires Bounded(m) && Feasible(m, e)
    ensures var n := Step(m, e);
            && (!e.MixTick? && e.bus in n.pending ==> |Get(n.live, e.bus)| == 4096)
            && (e.MixTick? ==> (forall b :: Get(n.live, b) == []) && n.pending == m.pending)
            && (!e.MixTick? ==> forall b :: b != e.bus ==> Get(n.live, b) == Get(m.live, b))
  {
  }

  lemma TickEmpties(m: Mixer, order: seq<Bus>)
    requires Bounded(m) && Feasible(m, MixTick(order))
    ensures var r, output := Step(m, MixTick(order)), MixAll(Visited(order, m.live));
            && r.live.Keys == m.live.Keys
            && (forall b :: b in r.live ==> r.live[b] == [])
            && r.device == (if output == [] then m.device else m.device + [output])
  {
  }

  // ----- Runs ------------------------------------------------------------------------------------

  /** What the ticks have drained from a bus, in order. */
  function Drained(ticks: seq<Tick>, bus: Bus): seq<int16>
  {
    if ticks == [] then [] else Drained(ticks[..|ticks| - 1], bus) + Get(ticks[|ticks| - 1].chunks, bus)
  }

  /** The outputs of the ticks that found something. */
  function Outputs(ticks: seq<Tick>): seq<seq<int16>>
  {
    if ticks == [] then []
    else
      var last := Output(ticks[|ticks| - 1]);
      Outputs(ticks[..|ticks| - 1]) + if last == [] then [] else [last]
  }

  ghost predicate Conserved(m: Mixer, bus: Bus)
  {
    Get(m.submitted, bus) == Drained(m.ticks, bus) + Get(m.live, bus) + Get(m.pending, bus)
  }

  ghost predicate MixerOk(m: Mixer)
  {
    Shape(m) && forall b :: Conserved(m, b)
  }

  /** No pipeline is over its size, a bus whose writer waits has a pipeline, and the device has got the
      outputs of the ticks. */
  ghost predicate Shape(m: Mixer)
  {
    && Bounded(m)
    && (forall b :: b in m.pending ==> b in m.live && m.pending[b] != [])
    && m.device == Outputs(m.ticks)
    && TicksOk(m.ticks)
  }

  /** Every tick has visited each pipeline once, and found no more in it than it can hold. */
  ghost predicate TicksOk(ticks: seq<Tick>)
  {
    forall j :: 0 <= j < |ticks| ==>
      IsOrder(ticks[j].order, ticks[j].chunks.Keys) && Fits(ticks[j].chunks)
  }

  ghost predicate Fits(chunks: map<Bus, seq<int16>>)
  {
    forall b :: b in chunks ==> |chunks[b]| <= MIXER_BUFFER_SIZE
  }

  lemma RoundConserves(m: Mixer, bus: Bus, rest: seq<int16>, b: Bus)
    requires Bounded(m) && |Get(m.live, bus)| <= MIXER_BUFFER_SIZE
    requires b != bus ==> Conserved(m, b)
    requires b == bus ==> Get(m.submitted, bus) == Drained(m.ticks, bus) + Get(m.live, bus) + rest
    ensures Conserved(Round(m, bus, rest), b)
  {
    if b == bus {
      var n := Min(|rest|, MIXER_BUFFER_SIZE - |Get(m.live, bus)|);
      assert rest == rest[..n] + rest[n..];
      ConcatIsAssociative(Drained(m.ticks, bus) + Get(m.live, bus), rest[..n], rest[n..]);
      ConcatIsAssociative(Drained(m.ticks, bus), Get(m.live, bus), rest[..n]);
    }
  }

  lemma RoundKeepsShape(m: Mixer, bus: Bus, rest: seq<int16>)
    requires Shape(m) && |Get(m.live, bus)| <= MIXER_BUFFER_SIZE
    ensures Shape(Round(m, bus, rest))
  {
  }

  lemma RoundConservesAll(m: Mixer, bus: Bus, rest: seq<int16>)
    requires Bounded(m) && |Get(m.live, bus)| <= MIXER_BUFFER_SIZE
    requires forall b :: b != bus ==> Conserved(m, b)
    requires Get(m.submitted, bus) == Drained(m.ticks, bus) + Get(m.live, bus) + rest
    ensures forall b :: Conserved(Round(m, bus, rest), b)
  {
    forall b
      ensures Conserved(Round(m, bus, rest), b)
    {
      RoundConserves(m, bus, rest, b);
    }
  }

  /** More is asked of a bus whose writer is not waiting. */
  lemma SubmitAddsToOne(m: Mixer, bus: Bus, data: seq<int16>)
    requires bus !in m.pending && forall b :: Conserved(m, b)
    ensures var n := m.(submitted := m.submitted[bus := Get(m.submitted, bus) + data]);
            && (forall b :: b != bus ==> Conserved(n, b))
            && Get(n.submitted, bus) == Drained(n.ticks, bus) + Get(n.live, bus) + data
  {
    var n := m.(submitted := m.submitted[bus := Get(m.submitted, bus) + data]);
    assert Conserved(m, bus);
    var before := Drained(m.ticks, bus) + Get(m.live, bus);
    assert before + [] == before;
    forall b | b != bus
      ensures Conserved(n, b)
    {
      assert Conserved(m, b);
    }
  }

  lemma WriteKeepsOk(m: Mixer, bus: Bus, data: seq<int16>)
    requires MixerOk(m) && Feasible(m, Write(bus, data))
    ensures MixerOk(Step(m, Write(bus, data)))
  {
    var n := m.(submitted := m.submitted[bus := Get(m.submitted, bus) + data]);
    SubmitAddsToOne(m, bus, data);
    RoundKeepsShape(n, bus, data);
    RoundConservesAll(n, bus, data);
  }

  lemma ResumeKeepsOk(m: Mixer, bus: Bus)
    requires MixerOk(m) && Feasible(m, Resume(bus))
    ensures MixerOk(Step(m, Resume(bus)))
  {
    assert Conserved(m, bus);
    RoundKeepsShape(m, bus, m.pending[bus]);
    RoundConservesAll(m, bus, m.pending[bus]);
  }

  lemma TickConserves(m: Mixer, order: seq<Bus>, bus: Bus)
    requires Bounded(m) && Feasible(m, MixTick(order)) && Conserved(m, bus)
    ensures Conserved(Step(m, MixTick(order)), bus)
  {
    var r := Step(m, MixTick(order));
    assert r.ticks[..|r.ticks| - 1] == m.ticks;
    assert Drained(r.ticks, bus) == Drained(m.ticks, bus) + Get(m.live, bus);
    assert Drained(r.ticks, bus) + [] == Drained(r.ticks, bus);
  }

  lemma TickKeepsOk(m: Mixer, order: seq<Bus>)
    requires MixerOk(m) && Feasible(m, MixTick(order))
    ensures MixerOk(Step(m, MixTick(order)))
  {
    forall b
      ensures Conserved(Step(m, MixTick(order)), b)
    {
      TickConserves(m, order, b);
    }
    var t := Tick(order, m.live);
    assert (m.ticks + [t])[..|m.ticks|] == m.ticks;
  }

  lemma StepKeepsOk(m: Mixer, e: Event)
    requires MixerOk(m) && Feasible(m, e)
    ensures MixerOk(Step(m, e))
  {
    match e
    case Write(bus, data) => WriteKeepsOk(m, bus, data);
    case Resume(bus) => ResumeKeepsOk(m, bus);
    case MixTick(order) => TickKeepsOk(m, order);
  }

  lemma StepKeepsBounded(m: Mixer, e: Event)
    requires Bounded(m) && Feasible(m, e)
    ensures Bounded(Step(m, e))
  {
  }

  predicate FeasibleFrom(m: Mixer, es: seq<Event>)
    requires Bounded(m)
    decreases |es|
  {
    es == [] || (Feasible(m, es[0]) && (StepKeepsBounded(m, es[0]); FeasibleFrom(Step(m, es[0]), es[1..])))
  }

  function RunFrom(m: Mixer, es: seq<Event>): Mixer
    requires Bounded(m) && FeasibleFrom(m, es)
    decreases |es|
  {
    if es == [] then m else StepKeepsBounded(m, es[0]); RunFrom(Step(m, es[0]), es[1..])
  }

  const NEW_MIXER := Mixer(map[], map[], map[], [], [])

  lemma {:induction false} RunKeepsOk(m: Mixer, es: seq<Event>)
    requires MixerOk(m) && FeasibleFrom(m, es)
    ensures MixerOk(RunFrom(m, es))
    decreases |es|
  {
    if es != [] {
      StepKeepsOk(m, es[0]);
      RunKeepsOk(Step(m, es[0]), es[1..]);
    }
  }

  /** The samples that the writer of a bus is asked to write in a run. */
  function Submitted(es: seq<Event>, bus: Bus): seq<int16>
  {
    if es == [] then []
    else (if es[0].Write? && es[0].bus == bus then es[0].data else []) + Submitted(es[1..], bus)
  }

  lemma {:induction false} RunSubmits(m: Mixer, es: seq<Event>, bus: Bus)
    requires Bounded(m) && FeasibleFrom(m, es)
    ensures Get(RunFrom(m, es).submitted, bus) == Get(m.submitted, bus) + Submitted(es, bus)
    decreases |es|
  {
    if es != [] {
      StepKeepsBounded(m, es[0]);
      RunSubmits(Step(m, es[0]), es[1..], bus);
      var data := if es[0].Write? && es[0].bus == bus then es[0].data else [];
      assert Get(Step(m, es[0]).submitted, bus) == Get(m.submitted, bus) + data;
      ConcatIsAssociative(Get(m.submitted, bus), data, Submitted(es[1..], bus));
    }
  }

  /** In every run and for every bus, the samples written to it are, in order, those that the ticks have
      drained from it, then those in its pipeline, then those that its writer is still waiting with;
      no pipeline is ever over its size.  A write that has returned is not waiting. */
  lemma SamplesAreConserved(es: seq<Event>, bus: Bus)
    requires FeasibleFrom(NEW_MIXER, es)
    ensures var m := RunFrom(NEW_MIXER, es);
            && Submitted(es, bus) == Drained(m.ticks, bus) + Get(m.live, bus) + Get(m.pending, bus)
            && |Get(m.live, bus)| <= MIXER_BUFFER_SIZE
  {
    RunKeepsOk(NEW_MIXER, es);
    ShareOf(RunFrom(NEW_MIXER, es), bus);
    RunSubmits(NEW_MIXER, es, bus);
    assert [] + Submitted(es, bus) == Submitted(es, bus);
  }

  lemma ShareOf(m: Mixer, bus: Bus)
    requires MixerOk(m)
    ensures Conserved(m, bus) && |Get(m.live, bus)| <= MIXER_BUFFER_SIZE
  {
  }

  /** What tick `j` has drained from a bus, as a piece of what was written to it: the samples from where the
      ticks before have stopped. */
  function Piece(es: seq<Event>, ticks: seq<Tick>, j: nat, bus: Bus): seq<int16>
    requires j < |ticks|
  {
    var written := Submitted(es, bus);
    var from, n := |Drained(ticks[..j], bus)|, |Get(ticks[j].chunks, bus)|;
    if from + n <= |written| then written[from..from + n] else []
  }

  /** That piece is what tick `j` adds to what has been drained, and no longer than a pipeline. */
  ghost predicate NextPiece(es: seq<Event>, ticks: seq<Tick>, j: nat, bus: Bus)
    requires j < |ticks|
  {
    && Drained(ticks[..j + 1], bus) == Drained(ticks[..j], bus) + Piece(es, ticks, j, bus)
    && |Piece(es, ticks, j, bus)| <= MIXER_BUFFER_SIZE
  }

  /** The pieces of tick `j` in the order of its visits. */
  function Pieces(es: seq<Event>, ticks: seq<Tick>, j: nat): seq<seq<int16>>
    requires j < |ticks|
  {
    seq(|ticks[j].order|, k requires 0 <= k < |ticks[j].order| => Piece(es, ticks, j, ticks[j].order[k]))
  }

  lemma {:induction false} DrainedGrows(ticks: seq<Tick>, j: nat, bus: Bus)
    requires j <= |ticks|
    ensures Drained(ticks[..j], bus) <= Drained(ticks, bus)
    decreases |ticks|
  {
    if j == |ticks| {
      assert ticks[..j] == ticks;
    } else {
      DrainedGrows(ticks[..|ticks| - 1], j, bus);
      assert ticks[..|ticks| - 1][..j] == ticks[..j];
    }
  }

  lemma DrainedIsPiece(written: seq<int16>, ticks: seq<Tick>, j: nat, bus: Bus)
    requires j < |ticks| && Drained(ticks, bus) <= written
    ensures var from, n := |Drained(ticks[..j], bus)|, |Get(ticks[j].chunks, bus)|;
            from + n <= |written| && written[from..from + n] == Get(ticks[j].chunks, bus)
  {
    DrainedGrows(ticks, j + 1, bus);
    assert ticks[..j + 1][..j] == ticks[..j];
    var before, chunk := Drained(ticks[..j], bus), Get(ticks[j].chunks, bus);
    assert Drained(ticks[..j + 1], bus) == before + chunk;
    assert written[..|before + chunk|] == before + chunk;
    SliceOfSlice(written, 0, |before + chunk|, |before|, |before + chunk|);
  }

  lemma DrainedIsWritten(es: seq<Event>)
    requires FeasibleFrom(NEW_MIXER, es)
    ensures forall b :: Drained(RunFrom(NEW_MIXER, es).ticks, b) <= Submitted(es, b)
  {
    forall b
      ensures Drained(RunFrom(NEW_MIXER, es).ticks, b) <= Submitted(es, b)
    {
      SamplesAreConserved(es, b);
    }
  }

  lemma PieceFollows(es: seq<Event>, ticks: seq<Tick>, j: nat, bus: Bus)
    requires j < |ticks| && Drained(ticks, bus) <= Submitted(es, bus)
    ensures Drained(ticks[..j + 1], bus) == Drained(ticks[..j], bus) + Piece(es, ticks, j, bus)
    ensures Piece(es, ticks, j, bus) == Get(ticks[j].chunks, bus)
  {
    DrainedIsPiece(Submitted(es, bus), ticks, j, bus);
    assert ticks[..j + 1][..j] == ticks[..j];
  }

  lemma OutputOfPieces(es: seq<Event>, ticks: seq<Tick>, j: nat)
    requires j < |ticks| && forall b :: Drained(ticks, b) <= Submitted(es, b)
    ensures Visited(ticks[j].order, ticks[j].chunks) == Pieces(es, ticks, j)
  {
    var t := ticks[j];
    forall k | 0 <= k < |t.order|
      ensures Visited(t.order, t.chunks)[k] == Pieces(es, ticks, j)[k]
    {
      PieceFollows(es, ticks, j, t.order[k]);
    }
  }

  /** From the writers to the device: in every run, tick `j` visits each pipeline once, takes from each bus the
      next piece of what was written to it, at most a pipeline full, and the sample at `i` of what it puts
      out is the left fold of saturating addition over the samples at `i` of these pieces. */
  lemma TicksMixWhatIsWritten(es: seq<Event>, j: nat, i: nat)
    requires FeasibleFrom(NEW_MIXER, es) && j < |RunFrom(NEW_MIXER, es).ticks|
    ensures var ticks := RunFrom(NEW_MIXER, es).ticks;
            && IsOrder(ticks[j].order, ticks[j].chunks.Keys)
            && (forall b :: NextPiece(es, ticks, j, b))
            && |Output(ticks[j])| == MaxLength(Pieces(es, ticks, j))
            && At(Output(ticks[j]), i) == FoldAt(Pieces(es, ticks, j), i)
  {
    RunKeepsOk(NEW_MIXER, es);
    var ticks := RunFrom(NEW_MIXER, es).ticks;
    DrainedIsWritten(es);
    PiecesFollow(es, ticks, j);
    OutputOfPieces(es, ticks, j);
    MixAllIsFold(Pieces(es, ticks, j), i);
  }

  lemma PiecesFollow(es: seq<Event>, ticks: seq<Tick>, j: nat)
    requires j < |ticks| && Fits(ticks[j].chunks) && forall b :: Drained(ticks, b) <= Submitted(es, b)
    ensures forall b :: NextPiece(es, ticks, j, b)
  {
    forall b
      ensures NextPiece(es, ticks, j, b)
    {
      PieceFollows(es, ticks, j, b);
    }
  }

  /** What reaches the device is, block by block and in order, what the ticks put out that found something:
      every block is the mix of the pieces of one tick. */
  lemma DevicePlaysTheMixes(es: seq<Event>, k: nat)
    requires FeasibleFrom(NEW_MIXER, es) && k < |RunFrom(NEW_MIXER, es).device|
    ensures var m := RunFrom(NEW_MIXER, es);
            && m.device == Outputs(m.ticks)
            && exists j :: 0 <= j < |m.ticks| && IsOrder(m.ticks[j].order, m.ticks[j].chunks.Keys)
                           && m.device[k] == MixAll(Pieces(es, m.ticks, j)) != []
  {
    RunKeepsOk(NEW_MIXER, es);
    var ticks := RunFrom(NEW_MIXER, es).ticks;
    OutputsAreMixes(ticks, k);
    var j :| 0 <= j < |ticks| && Outputs(ticks)[k] == Output(ticks[j]) != [];
    DrainedIsWritten(es);
    OutputOfPieces(es, ticks, j);
  }

  lemma {:induction false} OutputsAreMixes(ticks: seq<Tick>, k: nat)
    requires k < |Outputs(ticks)|
    ensures exists j :: 0 <= j < |ticks| && Outputs(ticks)[k] == Output(ticks[j]) != []
    decreases |ticks|
  {
    var n := |ticks| - 1;
    if k < |Outputs(ticks[..n])| {
      OutputsAreMixes(ticks[..n], k);
      var j :| 0 <= j < n && Outputs(ticks[..n])[k] == Output(ticks[..n][j]) != [];
      assert ticks[..n][j] == ticks[j];
    } else {
      assert Outputs(ticks)[k] == Output(ticks[n]);
    }
  }
}
