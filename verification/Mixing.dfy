/**
 The arithmetic of the mixer in hals/audio/driver/ext_pcm.c: pipelines of 16-bit samples are added into
 one output, sample by sample and pipeline by pipeline, each addition saturating.  The float that the
 code adds in holds the sum of two 16-bit values exactly.
 */
module Mixing {

  const INT16_MAX: int := 32767
  const INT16_MIN: int := -32768

  type int16 = x: int | -32768 <= x <= 32767

  function Saturate(x: int): int16
  {
    if x > INT16_MAX then INT16_MAX else if x < INT16_MIN then INT16_MIN else x
  }

  /** No 16-bit value is nearer to the sum than the saturated one. */
  lemma SaturatedIsNearest(x: int, y: int16)
    ensures Abs(x - Saturate(x)) <= Abs(x - y)
    ensures -32768 <= x <= 32767 ==> Saturate(x) == x
  {
  }

  function Max(a: nat, b: nat): nat { if a > b then a else b }

  /** The sample at `i`, zero past the end. */
  function At(s: seq<int16>, i: nat): int { if i < |s| then s[i] else 0 }

  /** `mixer_thread_mix`: the longer length, every sample the saturated sum. */
  function MixPair(out: seq<int16>, pipeline: seq<int16>): (r: seq<int16>)
    ensures |r| == Max(|out|, |pipeline|)
  {
    seq(Max(|out|, |pipeline|), i requires 0 <= i => Saturate(At(out, i) + At(pipeline, i)))
  }

  /** One round over all pipelines in the order of the map. */
  function MixAll(chunks: seq<seq<int16>>): seq<int16>
  {
    if chunks == [] then [] else MixPair(MixAll(chunks[..|chunks| - 1]), chunks[|chunks| - 1])
  }

  function MaxLength(chunks: seq<seq<int16>>): nat
  {
    if chunks == [] then 0 else Max(MaxLength(chunks[..|chunks| - 1]), |chunks[|chunks| - 1]|)
  }

  /** The sums without saturation: of the samples at `i`, and of their absolute values. */
  function Sum(chunks: seq<seq<int16>>, i: nat): int
  {
    if chunks == [] then 0 else Sum(chunks[..|chunks| - 1], i) + At(chunks[|chunks| - 1], i)
  }

  function Abs(x: int): nat { if x < 0 then -x else x }

  function AbsSum(chunks: seq<seq<int16>>, i: nat): nat
  {
    if chunks == [] then 0 else AbsSum(chunks[..|chunks| - 1], i) + Abs(At(chunks[|chunks| - 1], i))
  }

  /** A tick emits as many samples as the longest pipeline holds, and each is the left fold of saturating
      addition over the zero-padded pipelines. */
  lemma {:induction false} MixAllIsFold(chunks: seq<seq<int16>>, i: nat)
    ensures |MixAll(chunks)| == MaxLength(chunks)
    ensures At(MixAll(chunks), i) == FoldAt(chunks, i)
  {
    if chunks != [] {
      MixAllIsFold(chunks[..|chunks| - 1], i);
    }
  }

  function FoldAt(chunks: seq<seq<int16>>, i: nat): int16
  {
    if chunks == [] then 0 else Saturate(FoldAt(chunks[..|chunks| - 1], i) + At(chunks[|chunks| - 1], i))
  }

  /** With two pipelines the result is the exact sum, clamped. */
  lemma TwoPipelinesClamp(a: seq<int16>, b: seq<int16>, i: nat)
    ensures At(MixAll([a, b]), i) == Saturate(At(a, i) + At(b, i))
  {
    assert [a, b][..1] == [a] && [a][..0] == [];
    MixAllIsFold([a, b], i);
    assert FoldAt([a], i) == Saturate(0 + At(a, i));
  }

  /** The positive and the negative part of a sample, and their sums at `i`. */
  function Rise(x: int): nat { if x > 0 then x else 0 }

  function Fall(x: int): nat { if x < 0 then -x else 0 }

  function PosSum(chunks: seq<seq<int16>>, i: nat): nat
  {
    if chunks == [] then 0 else PosSum(chunks[..|chunks| - 1], i) + Rise(At(chunks[|chunks| - 1], i))
  }

  function NegSum(chunks: seq<seq<int16>>, i: nat): nat
  {
    if chunks == [] then 0 else NegSum(chunks[..|chunks| - 1], i) + Fall(At(chunks[|chunks| - 1], i))
  }

  lemma {:induction false} SumOfParts(chunks: seq<seq<int16>>, i: nat)
    ensures Sum(chunks, i) == PosSum(chunks, i) - NegSum(chunks, i)
    ensures AbsSum(chunks, i) == PosSum(chunks, i) + NegSum(chunks, i)
  {
    if chunks != [] {
      SumOfParts(chunks[..|chunks| - 1], i);
    }
  }

  /** Nothing is ever clamped where the positive samples add up to at most 32767 and the negative ones to
      at least -32768. */
  lemma {:induction false} ModerateSumsAreExact(chunks: seq<seq<int16>>, i: nat)
    requires PosSum(chunks, i) <= INT16_MAX && NegSum(chunks, i) <= -INT16_MIN
    ensures FoldAt(chunks, i) == PosSum(chunks, i) - NegSum(chunks, i)
  {
    if chunks != [] {
      ModerateSumsAreExact(chunks[..|chunks| - 1], i);
    }
  }

  /** In particular where the absolute values add up to at most 32767. */
  lemma SmallSumsAreExact(chunks: seq<seq<int16>>, i: nat)
    requires AbsSum(chunks, i) <= INT16_MAX
    ensures At(MixAll(chunks), i) == Sum(chunks, i)
    ensures Abs(Sum(chunks, i)) <= AbsSum(chunks, i)
  {
    MixAllIsFold(chunks, i);
    SumOfParts(chunks, i);
    ModerateSumsAreExact(chunks, i);
  }

  lemma LastOfBoth(a: seq<seq<int16>>, b: seq<seq<int16>>)
    requires b != []
    ensures var c := a + b; c[..|c| - 1] == a + b[..|b| - 1] && c[|c| - 1] == b[|b| - 1]
  {
  }

  /** Pipelines without negative samples raise the sum, up to the limit; those without positive ones
      lower it. */
  lemma {:induction false} ThenRises(a: seq<seq<int16>>, b: seq<seq<int16>>, i: nat)
    requires NegSum(b, i) == 0
    ensures FoldAt(a + b, i) == Saturate(FoldAt(a, i) + PosSum(b, i))
    decreases |b|
  {
    if b == [] {
      assert a + b == a;
    } else {
      LastOfBoth(a, b);
      ThenRises(a, b[..|b| - 1], i);
    }
  }

  lemma {:induction false} ThenFalls(a: seq<seq<int16>>, b: seq<seq<int16>>, i: nat)
    requires PosSum(b, i) == 0
    ensures FoldAt(a + b, i) == Saturate(FoldAt(a, i) - NegSum(b, i))
    decreases |b|
  {
    if b == [] {
      assert a + b == a;
    } else {
      LastOfBoth(a, b);
      ThenFalls(a, b[..|b| - 1], i);
    }
  }

  // ----- Order -----------------------------------------------------------------------------------

  function Without(chunks: seq<seq<int16>>, k: nat): seq<seq<int16>>
    requires k < |chunks|
  {
    chunks[..k] + chunks[k + 1..]
  }

  /** Taking out any one pipeline takes its share out of the sums. */
  lemma {:induction false} SumWithout(chunks: seq<seq<int16>>, k: nat, i: nat)
    requires k < |chunks|
    ensures Sum(chunks, i) == Sum(Without(chunks, k), i) + At(chunks[k], i)
    ensures AbsSum(chunks, i) == AbsSum(Without(chunks, k), i) + Abs(At(chunks[k], i))
    ensures MaxLength(chunks) == Max(MaxLength(Without(chunks, k)), |chunks[k]|)
    decreases |chunks|
  {
    var n := |chunks| - 1;
    if k == n {
      assert Without(chunks, k) == chunks[..n];
    } else {
      SumWithout(chunks[..n], k, i);
      LastOfWithout(chunks, k);
    }
  }

  lemma LastOfWithout(chunks: seq<seq<int16>>, k: nat)
    requires k < |chunks| - 1
    ensures var n, w := |chunks| - 1, Without(chunks, k);
            |w| == n && w[..n - 1] == Without(chunks[..n], k) && w[n - 1] == chunks[n]
  {
  }

  /** The sums do not depend on the order. */
  lemma {:induction false} SumsIgnoreOrder(a: seq<seq<int16>>, b: seq<seq<int16>>, i: nat)
    requires multiset(a) == multiset(b)
    ensures Sum(a, i) == Sum(b, i) && AbsSum(a, i) == AbsSum(b, i) && MaxLength(a) == MaxLength(b)
    decreases |a|
  {
    if a == [] {
      assert |multiset(b)| == 0;
    } else {
      var n := |a| - 1;
      assert a[n] in multiset(b);
      var k :| 0 <= k < |b| && b[k] == a[n];
      assert a == a[..n] + [a[n]];
      assert b == b[..k] + [b[k]] + b[k + 1..];
      assert multiset(a[..n]) == multiset(a) - multiset{a[n]};
      assert multiset(Without(b, k)) == multiset(b) - multiset{b[k]};
      SumWithout(b, k, i);
      SumsIgnoreOrder(a[..n], Without(b, k), i);
    }
  }

  /** The sample at `i` is the same in every order: either nothing can be clamped, or all samples that
      are not zero have the same sign. */
  predicate OrderFree(chunks: seq<seq<int16>>, i: nat)
  {
    || (PosSum(chunks, i) <= INT16_MAX && NegSum(chunks, i) <= -INT16_MIN)
    || PosSum(chunks, i) == 0
    || NegSum(chunks, i) == 0
  }

  lemma OneSignFold(chunks: seq<seq<int16>>, i: nat)
    requires PosSum(chunks, i) == 0 || NegSum(chunks, i) == 0
    ensures FoldAt(chunks, i) == Saturate(PosSum(chunks, i) - NegSum(chunks, i))
  {
    assert [] + chunks == chunks;
    if NegSum(chunks, i) == 0 {
      ThenRises([], chunks, i);
    } else {
      ThenFalls([], chunks, i);
    }
  }

  /** What every order then gives. */
  lemma OrderFreeFold(chunks: seq<seq<int16>>, i: nat)
    requires OrderFree(chunks, i)
    ensures FoldAt(chunks, i) == Saturate(PosSum(chunks, i) - NegSum(chunks, i))
  {
    if PosSum(chunks, i) == 0 || NegSum(chunks, i) == 0 {
      OneSignFold(chunks, i);
    } else {
      ModerateSumsAreExact(chunks, i);
    }
  }

  lemma PartsIgnoreOrder(a: seq<seq<int16>>, b: seq<seq<int16>>, i: nat)
    requires multiset(a) == multiset(b)
    ensures PosSum(a, i) == PosSum(b, i) && NegSum(a, i) == NegSum(b, i) && MaxLength(a) == MaxLength(b)
  {
    SumsIgnoreOrder(a, b, i);
    SumOfParts(a, i);
    SumOfParts(b, i);
  }

  lemma SameSample(a: seq<seq<int16>>, b: seq<seq<int16>>, i: nat)
    requires multiset(b) == multiset(a) && OrderFree(a, i)
    ensures At(MixAll(b), i) == At(MixAll(a), i)
  {
    PartsIgnoreOrder(b, a, i);
    OrderFreeFold(a, i);
    OrderFreeFold(b, i);
    MixAllIsFold(a, i);
    MixAllIsFold(b, i);
  }

  /** The pipelines with a negative sample at `i`, and the others. */
  function Negative(chunks: seq<seq<int16>>, i: nat): seq<seq<int16>>
  {
    if chunks == [] then []
    else
      var last := chunks[|chunks| - 1];
      Negative(chunks[..|chunks| - 1], i) + if At(last, i) < 0 then [last] else []
  }

  function NonNegative(chunks: seq<seq<int16>>, i: nat): seq<seq<int16>>
  {
    if chunks == [] then []
    else
      var last := chunks[|chunks| - 1];
      NonNegative(chunks[..|chunks| - 1], i) + if At(last, i) < 0 then [] else [last]
  }

  lemma SumsOfOneMore(chunks: seq<seq<int16>>, last: seq<int16>, i: nat)
    ensures PosSum(chunks + [last], i) == PosSum(chunks, i) + Rise(At(last, i))
    ensures NegSum(chunks + [last], i) == NegSum(chunks, i) + Fall(At(last, i))
  {
    assert (chunks + [last])[..|chunks|] == chunks;
  }

  lemma {:induction false} NegativeSums(chunks: seq<seq<int16>>, i: nat)
    ensures PosSum(Negative(chunks, i), i) == 0 && NegSum(Negative(chunks, i), i) == NegSum(chunks, i)
  {
    if chunks != [] {
      var most, last := chunks[..|chunks| - 1], chunks[|chunks| - 1];
      NegativeSums(most, i);
      if At(last, i) < 0 {
        SumsOfOneMore(Negative(most, i), last, i);
      } else {
        assert Negative(chunks, i) == Negative(most, i);
      }
    }
  }

  lemma {:induction false} NonNegativeSums(chunks: seq<seq<int16>>, i: nat)
    ensures NegSum(NonNegative(chunks, i), i) == 0 && PosSum(NonNegative(chunks, i), i) == PosSum(chunks, i)
  {
    if chunks != [] {
      var most, last := chunks[..|chunks| - 1], chunks[|chunks| - 1];
      NonNegativeSums(most, i);
      if At(last, i) < 0 {
        assert NonNegative(chunks, i) == NonNegative(most, i);
      } else {
        SumsOfOneMore(NonNegative(most, i), last, i);
      }
    }
  }

  lemma OneMoreOfEither(down: seq<seq<int16>>, up: seq<seq<int16>>, last: seq<int16>)
    ensures multiset(down + [last]) + multiset(up) == multiset(down) + multiset(up + [last])
            == multiset(down) + multiset(up) + multiset{last}
  {
  }

  lemma {:induction false} SignsSplit(chunks: seq<seq<int16>>, i: nat)
    ensures multiset(Negative(chunks, i)) + multiset(NonNegative(chunks, i)) == multiset(chunks)
  {
    if chunks != [] {
      var most, last := chunks[..|chunks| - 1], chunks[|chunks| - 1];
      SignsSplit(most, i);
      assert chunks == most + [last];
      OneMoreOfEither(Negative(most, i), NonNegative(most, i), last);
      if At(last, i) < 0 {
        assert NonNegative(chunks, i) == NonNegative(most, i);
      } else {
        assert Negative(chunks, i) == Negative(most, i);
      }
    }
  }

  lemma UpThenDownIsLess(p: nat, n: nat)
    requires p > 0 && n > 0 && (p > INT16_MAX || n > -INT16_MIN)
    ensures Saturate(Saturate(p) - n) < Saturate(Saturate(0 - n) + p)
  {
  }

  /** Otherwise visiting the negative samples first gives more than visiting them last. */
  lemma OrdersDiffer(chunks: seq<seq<int16>>, i: nat)
    requires !OrderFree(chunks, i)
    ensures At(MixAll(NonNegative(chunks, i) + Negative(chunks, i)), i)
            < At(MixAll(Negative(chunks, i) + NonNegative(chunks, i)), i)
  {
    var down, up := Negative(chunks, i), NonNegative(chunks, i);
    NegativeSums(chunks, i);
    NonNegativeSums(chunks, i);
    UpThenDown(up, down, i);
    DownThenUp(down, up, i);
    UpThenDownIsLess(PosSum(chunks, i), NegSum(chunks, i));
    MixAllIsFold(up + down, i);
    MixAllIsFold(down + up, i);
  }

  lemma UpThenDown(up: seq<seq<int16>>, down: seq<seq<int16>>, i: nat)
    requires NegSum(up, i) == 0 && PosSum(down, i) == 0
    ensures FoldAt(up + down, i) == Saturate(Saturate(PosSum(up, i)) - NegSum(down, i))
  {
    OneSignFold(up, i);
    ThenFalls(up, down, i);
  }

  lemma DownThenUp(down: seq<seq<int16>>, up: seq<seq<int16>>, i: nat)
    requires PosSum(down, i) == 0 && NegSum(up, i) == 0
    ensures FoldAt(down + up, i) == Saturate(Saturate(0 - NegSum(down, i)) + PosSum(up, i))
  {
    OneSignFold(down, i);
    ThenRises(down, up, i);
  }

  /** The order in which the pipelines are visited does not matter for the sample at `i` exactly if the
      positive samples add up to at most 32767 and the negative ones to at least -32768, or there are
      none of one of the two signs. */
  lemma SampleIgnoresOrder(chunks: seq<seq<int16>>, i: nat)
    ensures (forall b :: multiset(b) == multiset(chunks) ==> At(MixAll(b), i) == At(MixAll(chunks), i))
            <==> OrderFree(chunks, i)
  {
    if OrderFree(chunks, i) {
      forall b | multiset(b) == multiset(chunks)
        ensures At(MixAll(b), i) == At(MixAll(chunks), i)
      {
        SameSample(chunks, b, i);
      }
    } else {
      var down, up := Negative(chunks, i), NonNegative(chunks, i);
      OrdersDiffer(chunks, i);
      SignsSplit(chunks, i);
      assert multiset(up + down) == multiset(chunks) && multiset(down + up) == multiset(chunks);
    }
  }

  /** The same for a whole tick. */
  lemma MixIgnoresOrder(chunks: seq<seq<int16>>)
    ensures (forall b :: multiset(b) == multiset(chunks) ==> MixAll(b) == MixAll(chunks))
            <==> (forall i :: 0 <= i < MaxLength(chunks) ==> OrderFree(chunks, i))
  {
    if forall i :: 0 <= i < MaxLength(chunks) ==> OrderFree(chunks, i) {
      forall b | multiset(b) == multiset(chunks)
        ensures MixAll(b) == MixAll(chunks)
      {
        SameMix(chunks, b);
      }
    } else {
      var i :| 0 <= i < MaxLength(chunks) && !OrderFree(chunks, i);
      SampleIgnoresOrder(chunks, i);
    }
  }

  lemma SameMix(a: seq<seq<int16>>, b: seq<seq<int16>>)
    requires multiset(b) == multiset(a)
    requires forall i :: 0 <= i < MaxLength(a) ==> OrderFree(a, i)
    ensures MixAll(b) == MixAll(a)
  {
    PartsIgnoreOrder(a, b, 0);
    MixAllIsFold(a, 0);
    MixAllIsFold(b, 0);
    forall i | 0 <= i < MaxLength(a)
      ensures MixAll(b)[i] == MixAll(a)[i]
    {
      SameSample(a, b, i);
    }
  }

  /** In particular it does not matter while the absolute values add up to at most 32767. */
  lemma SmallMixesIgnoreOrder(a: seq<seq<int16>>, b: seq<seq<int16>>)
    requires multiset(a) == multiset(b)
    requires forall i :: 0 <= i < MaxLength(a) ==> AbsSum(a, i) <= INT16_MAX
    ensures MixAll(a) == MixAll(b)
  {
    forall i | 0 <= i < MaxLength(a)
      ensures OrderFree(a, i)
    {
      SumOfParts(a, i);
    }
    SameMix(a, b);
  }

  /** Three pipelines for which it does: saturation on the way is not undone. */
  lemma OrderMatters()
    ensures At(MixAll([[30000], [30000], [-30000]]), 0) == 2767
    ensures At(MixAll([[30000], [-30000], [30000]]), 0) == 30000
  {
    FoldOfThree([30000], [30000], [-30000]);
    FoldOfThree([30000], [-30000], [30000]);
  }

  lemma FoldOfThree(a: seq<int16>, b: seq<int16>, c: seq<int16>)
    ensures At(MixAll([a, b, c]), 0) == Saturate(Saturate(At(a, 0) + At(b, 0)) + At(c, 0))
  {
    assert [a, b, c][..2] == [a, b];
    TwoPipelinesClamp(a, b, 0);
  }
}
