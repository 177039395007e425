/**
 The mixer object of hals/audio/driver/ext_pcm.c: pipelines with a fixed buffer and a position, changed
 in place under the mixer lock.  Each method is one critical section and is proved to be the step of
 MixerMachine with the same name.
 */
module ExtPcmObject {
  import opened Bytes
  import opened Mixing
  import opened MixerMachine

  /** `ext_mixer_pipeline`.  The samples lie before the position, and the buffer is zero from there on. */
  class Pipeline {
    const buffer: array<int16>
    var position: nat
    ghost var samples: seq<int16>

    ghost predicate Valid()
      reads this, buffer
    {
      && buffer.Length == MIXER_BUFFER_SIZE
      && position == |samples| <= MIXER_BUFFER_SIZE
      && forall k :: 0 <= k < MIXER_BUFFER_SIZE ==> buffer[k] == At(samples, k)
    }

    constructor ()
      ensures Valid() && fresh(buffer) && samples == []
    {
      buffer := new int16[MIXER_BUFFER_SIZE](_ => 0);
      position, samples := 0, [];
    }

    /** `memset` of the whole pipeline. */
    method Clear()
      requires buffer.Length == MIXER_BUFFER_SIZE
      modifies this, buffer
      ensures Valid() && samples == []
    {
      forall k | 0 <= k < buffer.Length {
        buffer[k] := 0;
      }
      position, samples := 0, [];
    }

    /** The body of the loop in `mixer_pipeline_write`: copies what fits and says how much. */
    method Accept(rest: seq<int16>) returns (n: nat)
      requires Valid()
      modifies this, buffer
      ensures Valid() && n == Min(|rest|, MIXER_BUFFER_SIZE - |old(samples)|)
      ensures samples == old(samples) + rest[..n]
    {
      n := Min(|rest|, MIXER_BUFFER_SIZE - position);
      if n > 0 {
        Memcpy(buffer, position, rest[..n]);
        position := position + n;
      }
      samples := samples + rest[..n];
    }
  }

  /** `mixer_thread_mix`: adds a pipeline into the output and empties it. */
  method MixInto(out: Pipeline, pipeline: Pipeline)
    requires out.Valid() && pipeline.Valid() && out != pipeline && out.buffer != pipeline.buffer
    modifies out, out.buffer, pipeline, pipeline.buffer
    ensures out.Valid() && pipeline.Valid()
    ensures out.samples == MixPair(old(out.samples), old(pipeline.samples))
    ensures pipeline.samples == []
  {
    ghost var a, b := out.samples, pipeline.samples;
    out.position := Max(out.position, pipeline.position);
    var i := 0;
    while i < out.position
      invariant 0 <= i <= out.position == Max(|a|, |b|)
      invariant forall k :: 0 <= k < i ==> out.buffer[k] == Saturate(At(a, k) + At(b, k))
      invariant forall k :: i <= k < MIXER_BUFFER_SIZE ==> out.buffer[k] == At(a, k)
      invariant forall k :: 0 <= k < MIXER_BUFFER_SIZE ==> pipeline.buffer[k] == At(b, k)
    {
      var mixed: int := out.buffer[i] as int + pipeline.buffer[i] as int;
      if mixed > INT16_MAX {
        out.buffer[i] := INT16_MAX;
      } else if mixed < INT16_MIN {
        out.buffer[i] := INT16_MIN;
      } else {
        out.buffer[i] := mixed;
      }
      i := i + 1;
    }
    out.samples := MixPair(a, b);
    pipeline.Clear();
  }

  class ExtPcm {
    const mixerPipeline: Pipeline
    var pipelines: map<Bus, Pipeline>
    var device: seq<seq<int16>>

    ghost var Repr: set<object>
    ghost var view: Mixer

    /** All pipelines are separate objects that hold what the view says, and the output is empty between
        ticks. */
    ghost predicate Valid()
      reads this, Repr
    {
      && Separate()
      && mixerPipeline.Valid() && mixerPipeline.samples == []
      && device == view.device
      && AllHold(view.live) && Bounded(view)
    }

    ghost predicate AllHold(live: map<Bus, seq<int16>>)
      requires Separate()
      reads this`pipelines, this`Repr, Repr
    {
      pipelines.Keys == live.Keys && forall b :: b in pipelines ==> Holds(b, live[b])
    }

    ghost predicate Separate()
      reads this`pipelines, this`Repr
    {
      && this in Repr && mixerPipeline in Repr && mixerPipeline.buffer in Repr
      && (forall b :: b in pipelines ==>
            && pipelines[b] in Repr && pipelines[b].buffer in Repr
            && pipelines[b] != mixerPipeline && pipelines[b].buffer != mixerPipeline.buffer)
      && (forall b, c :: b in pipelines && c in pipelines && b != c ==>
            pipelines[b] != pipelines[c] && pipelines[b].buffer != pipelines[c].buffer)
    }

    /** The pipeline of a bus holds these samples. */
    ghost predicate Holds(bus: Bus, samples: seq<int16>)
      requires bus in pipelines
      reads this`pipelines, pipelines[bus], pipelines[bus].buffer
    {
      pipelines[bus].Valid() && pipelines[bus].samples == samples
    }

    /** The mixer part of `ext_pcm_open`. */
    constructor ()
      ensures Valid() && view == NEW_MIXER && fresh(Repr)
    {
      mixerPipeline := new Pipeline();
      pipelines := map[];
      device := [];
      view := NEW_MIXER;
      new;
      Repr := {this, mixerPipeline, mixerPipeline.buffer};
    }

    /** `mixer_pipeline_write` until it waits or returns: the pipeline is created when the bus has none.
        `n` samples have been written; when they are all, the call returns. */
    method Write(bus: Bus, data: seq<int16>) returns (n: nat)
      requires Valid() && Feasible(view, MixerMachine.Write(bus, data))
      modifies Repr
      ensures Valid() && fresh(Repr - old(Repr))
      ensures view == Step(old(view), MixerMachine.Write(bus, data))
      ensures n <= |data| && Get(view.pending, bus) == data[n..] && (n == |data| <==> bus !in view.pending)
    {
      if bus !in pipelines {
        CreationIsInvisible(view, bus, data);
        AddPipeline(bus);
      }
      view := view.(submitted := view.submitted[bus := Get(view.submitted, bus) + data]);
      n := Round(bus, data);
    }

    method AddPipeline(bus: Bus)
      requires Valid() && bus !in pipelines
      modifies this
      ensures Valid() && fresh(Repr - old(Repr)) && bus in pipelines
      ensures view == old(view).(live := old(view).live[bus := []])
    {
      var pipeline := new Pipeline();
      Join(bus, pipeline);
      Show(view.(live := view.live[bus := []]));
    }

    method Join(bus: Bus, pipeline: Pipeline)
      requires Valid() && bus !in pipelines && pipeline !in Repr && pipeline.buffer !in Repr
      requires pipeline.Valid() && pipeline.samples == []
      modifies this`pipelines, this`Repr
      ensures Separate() && Repr == old(Repr) + {pipeline, pipeline.buffer}
      ensures pipelines == old(pipelines)[bus := pipeline] && AllHold(view.live[bus := []])
      ensures mixerPipeline.Valid() && mixerPipeline.samples == []
    {
      pipelines := pipelines[bus := pipeline];
      Repr := Repr + {pipeline, pipeline.buffer};
      assert forall b :: b in pipelines && b != bus ==> Holds(b, view.live[b]);
    }

    /** The objects have become what `m` says. */
    ghost method Show(m: Mixer)
      requires Separate() && mixerPipeline.Valid() && mixerPipeline.samples == []
      requires device == m.device && AllHold(m.live)
      modifies this`view
      ensures Valid() && view == m
    {
      view := m;
      assert forall b :: b in m.live ==> Holds(b, m.live[b]);
    }

    /** `mixer_pipeline_write` after a tick has woken it, with what is left to write. */
    method Resume(bus: Bus, rest: seq<int16>) returns (n: nat)
      requires Valid() && Feasible(view, MixerMachine.Resume(bus))
      requires view.pending[bus] == rest && bus in pipelines
      modifies Repr
      ensures Valid() && Repr == old(Repr)
      ensures view == Step(old(view), MixerMachine.Resume(bus))
      ensures n <= |rest| && Get(view.pending, bus) == rest[n..] && (n == |rest| <==> bus !in view.pending)
    {
      n := Round(bus, rest);
    }

    /** One round of the loop. */
    method Round(bus: Bus, rest: seq<int16>) returns (n: nat)
      requires Valid() && bus in pipelines && |view.live[bus]| <= MIXER_BUFFER_SIZE
      modifies Repr
      ensures Valid() && Repr == old(Repr)
      ensures view == MixerMachine.Round(old(view), bus, rest)
      ensures n <= |rest| && Get(view.pending, bus) == rest[n..] && (n == |rest| <==> bus !in view.pending)
    {
      RoundShape(view, bus, rest);
      ghost var m := MixerMachine.Round(view, bus, rest);
      n := AcceptOn(bus, rest, view.live);
      assert m.live == view.live[bus := view.live[bus] + rest[..n]];
      Show(m);
    }

    /** One pipeline takes samples; the others are not touched. */
    method AcceptOn(bus: Bus, rest: seq<int16>, ghost live: map<Bus, seq<int16>>) returns (n: nat)
      requires Separate() && AllHold(live) && bus in pipelines
      requires mixerPipeline.Valid() && mixerPipeline.samples == []
      modifies pipelines[bus], pipelines[bus].buffer
      ensures n == Min(|rest|, MIXER_BUFFER_SIZE - |live[bus]|)
      ensures AllHold(live[bus := live[bus] + rest[..n]])
      ensures mixerPipeline.Valid() && mixerPipeline.samples == []
    {
      assert Holds(bus, live[bus]);
      n := pipelines[bus].Accept(rest);
      assert Holds(bus, live[bus] + rest[..n]);
    }

    /** One tick of `mixer_thread_loop`, visiting the pipelines in the given order. */
    method MixTick(order: seq<Bus>)
      requires Valid() && Feasible(view, MixerMachine.MixTick(order))
      modifies Repr
      ensures Valid() && Repr == old(Repr)
      ensures view == Step(old(view), MixerMachine.MixTick(order))
    {
      TickEmpties(view, order);
      ghost var m := Step(view, MixerMachine.MixTick(order));
      ghost var emptied := DrainAll(order);
      Emit(emptied);
      assert emptied == m.live;
      Show(m);
    }

    /** The block goes to the device unless it is empty, and the output is cleared. */
    method Emit(ghost live: map<Bus, seq<int16>>)
      requires Separate() && mixerPipeline.Valid() && AllHold(live)
      modifies this`device, mixerPipeline, mixerPipeline.buffer
      ensures mixerPipeline.Valid() && mixerPipeline.samples == [] && AllHold(live)
      ensures device == if old(mixerPipeline.samples) == [] then old(device)
                        else old(device) + [old(mixerPipeline.samples)]
    {
      assert mixerPipeline.buffer[..mixerPipeline.position] == mixerPipeline.samples;
      if mixerPipeline.position > 0 {
        device := device + [mixerPipeline.buffer[..mixerPipeline.position]];
      }
      mixerPipeline.Clear();
    }

    /** `hashmapForEach` with `mixer_thread_mix`. */
    method DrainAll(order: seq<Bus>) returns (ghost left: map<Bus, seq<int16>>)
      requires Valid() && IsOrder(order, pipelines.Keys)
      modifies Repr - {this}
      ensures mixerPipeline.Valid() && mixerPipeline.samples == MixAll(Visited(order, view.live))
      ensures AllHold(left) && left == map b | b in view.live :: []
    {
      left := view.live;
      StartOutput();
      var j := 0;
      while j < |order|
        invariant 0 <= j <= |order|
        invariant Separate() && EmptiedUpTo(left, view.live, order, j) && MixedUpTo(left, order, j)
      {
        Visit(order, j, left);
        left := left[order[j] := []];
        j := j + 1;
      }
      MixFirstIsMixAll(Visited(order, view.live), j);
      EmptiedIsAll(left, view.live, order);
    }

    /** The output is the mix of the first `j` pipelines of the order, and all pipelines hold `left`. */
    ghost predicate MixedUpTo(left: map<Bus, seq<int16>>, order: seq<Bus>, j: nat)
      requires Separate() && j <= |order|
      reads this`pipelines, this`Repr, this`view, Repr
    {
      && mixerPipeline.Valid() && mixerPipeline.samples == MixFirst(Visited(order, view.live), j)
      && AllHold(left)
    }

    method Visit(order: seq<Bus>, j: nat, ghost left: map<Bus, seq<int16>>)
      requires Separate() && j < |order|
      requires EmptiedUpTo(left, view.live, order, j) && MixedUpTo(left, order, j)
      modifies Repr - {this}
      ensures EmptiedUpTo(left[order[j] := []], view.live, order, j + 1)
      ensures MixedUpTo(left[order[j] := []], order, j + 1)
    {
      EmptiedNext(left, view.live, order, j);
      MixOne(order[j], left);
    }

    method StartOutput()
      requires Valid()
      modifies mixerPipeline`position
      ensures mixerPipeline.Valid() && mixerPipeline.samples == [] && AllHold(view.live)
    {
      mixerPipeline.position := 0;
    }

    /** Mix one pipeline; the others are not touched. */
    method MixOne(bus: Bus, ghost live: map<Bus, seq<int16>>)
      requires Separate() && AllHold(live) && mixerPipeline.Valid() && bus in pipelines
      modifies mixerPipeline, mixerPipeline.buffer, pipelines[bus], pipelines[bus].buffer
      ensures mixerPipeline.Valid() && mixerPipeline.samples == MixPair(old(mixerPipeline.samples), live[bus])
      ensures AllHold(live[bus := []])
    {
      assert Holds(bus, live[bus]);
      MixInto(mixerPipeline, pipelines[bus]);
      assert Holds(bus, []);
    }
  }

  /** The first `j` buses of the order are empty, the others hold what they held at first. */
  ghost predicate EmptiedUpTo(left: map<Bus, seq<int16>>, live: map<Bus, seq<int16>>, order: seq<Bus>, j: nat)
    requires j <= |order|
  {
    && IsOrder(order, live.Keys) && left.Keys == live.Keys
    && (forall k :: j <= k < |order| ==> left[order[k]] == live[order[k]])
    && (forall k :: 0 <= k < j ==> left[order[k]] == [])
  }

  lemma EmptiedNext(left: map<Bus, seq<int16>>, live: map<Bus, seq<int16>>, order: seq<Bus>, j: nat)
    requires j < |order| && EmptiedUpTo(left, live, order, j)
    ensures left[order[j]] == Visited(order, live)[j] && EmptiedUpTo(left[order[j] := []], live, order, j + 1)
  {
  }

  lemma EmptiedIsAll(left: map<Bus, seq<int16>>, live: map<Bus, seq<int16>>, order: seq<Bus>)
    requires EmptiedUpTo(left, live, order, |order|)
    ensures left == map b | b in live :: []
  {
  }

  /** The mix of the first `j` chunks. */
  ghost function MixFirst(chunks: seq<seq<int16>>, j: nat): seq<int16>
    requires j <= |chunks|
  {
    if j == 0 then [] else MixPair(MixFirst(chunks, j - 1), chunks[j - 1])
  }

  lemma {:induction false} MixFirstIsMixAll(chunks: seq<seq<int16>>, j: nat)
    requires j <= |chunks|
    ensures MixFirst(chunks, j) == MixAll(chunks[..j])
    ensures j == |chunks| ==> MixFirst(chunks, j) == MixAll(chunks)
  {
    if j > 0 {
      MixFirstIsMixAll(chunks, j - 1);
      assert chunks[..j][..j - 1] == chunks[..j - 1];
    }
    if j == |chunks| {
      assert chunks[..j] == chunks;
    }
  }
}
