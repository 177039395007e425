/**
 The Internet checksum of dhcp/common/socket.cpp: a 32-bit accumulator over 16-bit words whose
 carries are folded back at the end of every call.  Sections 1 and 2 of RFC 1071 promise that the
 result does not depend on byte order, that sums over parts can be chained, and that a receiver
 that sums the data together with its checksum field obtains all ones.
 */
module Checksum {
  import opened Bytes

  /** Sum of the 16-bit little-endian words of `b`; an odd last byte is a word of its own. */
  function WordSum(b: seq<byte>): nat
  {
    if |b| == 0 then 0
    else if |b| == 1 then b[0]
    else Word(b[0], b[1]) + WordSum(b[2..])
  }

  /** The same on a big-endian machine, where an odd last byte is the high half of a word. */
  function WordSumBigEndian(b: seq<byte>): nat
  {
    if |b| == 0 then 0
    else if |b| == 1 then Word(0, b[0])
    else Word(b[1], b[0]) + WordSumBigEndian(b[2..])
  }

  /** Add the upper words of `sum` back into its lower 16 bits until nothing is left to add. */
  function Fold(sum: nat): word16
  {
    if sum < 0x1_0000 then sum else Fold(sum % 0x1_0000 + sum / 0x1_0000)
  }

  /** Exchange the two bytes of a word. */
  function Swap(w: word16): word16 { w % 0x100 * 0x100 + w / 0x100 }

  lemma MultiplesVanish(x: nat, k: int)
    ensures (x + 0xFFFF * k) % 0xFFFF == x % 0xFFFF
  {
  }

  /** The folded sum is the representative of the sum modulo 65535 in 0..65535 that is 0 only for
      the zero sum; `FoldIsUnique` says that there is only one. */
  lemma {:induction false} FoldIsCanonical(sum: nat)
    ensures Fold(sum) % 0xFFFF == sum % 0xFFFF
    ensures Fold(sum) == 0 <==> sum == 0
  {
    if sum >= 0x1_0000 {
      var q, r := sum / 0x1_0000, sum % 0x1_0000;
      FoldIsCanonical(r + q);
      MultiplesVanish(r + q, q);
    }
  }

  lemma FoldIsUnique(sum: nat, w: word16)
    requires w % 0xFFFF == sum % 0xFFFF && (w == 0 <==> sum == 0)
    ensures Fold(sum) == w
  {
    FoldIsCanonical(sum);
  }

  /** Folding early does not change a later fold. */
  lemma FoldThenAdd(a: nat, b: nat)
    ensures Fold(Fold(a) + b) == Fold(a + b)
  {
    FoldIsCanonical(a);
    FoldIsCanonical(a + b);
    var m := a / 0xFFFF - Fold(a) / 0xFFFF;
    assert a + b == Fold(a) + b + 0xFFFF * m;
    MultiplesVanish(Fold(a) + b, m);
    FoldIsUnique(Fold(a) + b, Fold(a + b));
  }

  lemma {:induction false} WordSumOfParts(a: seq<byte>, b: seq<byte>)
    requires |a| % 2 == 0
    ensures WordSum(a + b) == WordSum(a) + WordSum(b)
  {
    if a == [] {
      assert a + b == b;
    } else {
      assert (a + b)[2..] == a[2..] + b;
      WordSumOfParts(a[2..], b);
    }
  }

  /** One more part is added to a folded sum. */
  lemma ExtendSum(a: seq<byte>, b: seq<byte>)
    requires |a| % 2 == 0
    ensures Fold(Fold(WordSum(a)) + WordSum(b)) == Fold(WordSum(a + b))
  {
    WordSumOfParts(a, b);
    FoldThenAdd(WordSum(a), WordSum(b));
  }

  lemma {:induction false} WordSumBounded(b: seq<byte>)
    ensures WordSum(b) <= 0xFFFF * ((|b| + 1) / 2)
  {
    if |b| > 1 {
      WordSumBounded(b[2..]);
    }
  }

  lemma AdditionWraps(x: nat, w: nat)
    ensures (x % TWO_TO_THE_32 + w) % TWO_TO_THE_32 == (x + w) % TWO_TO_THE_32
  {
  }

  /** `addChecksum`: the accumulator has 32 bits, so the addition is modulo 2^32. */
  method AddChecksum(buffer: seq<byte>, initial: word32) returns (checksum: word32)
    ensures checksum == Fold((initial + WordSum(buffer)) % TWO_TO_THE_32)
    ensures initial < 0x1_0000 && |buffer| <= 0x1_FFFE ==> checksum == Fold(initial + WordSum(buffer))
  {
    if initial < 0x1_0000 && |buffer| <= 0x1_FFFE {
      AccumulatorSuffices(buffer, initial);
    }
    checksum := initial;
    ghost var exact: nat := initial;
    var data, size := 0, |buffer|;
    while size > 1
      invariant 0 <= data && 0 <= size && data + size == |buffer|
      invariant checksum == exact % TWO_TO_THE_32
      invariant exact + WordSum(buffer[data..]) == initial + WordSum(buffer)
    {
      assert buffer[data..][2..] == buffer[data + 2..];
      var w := Word(buffer[data], buffer[data + 1]);
      AdditionWraps(exact, w);
      checksum := (checksum + w) % TWO_TO_THE_32;
      exact := exact + w;
      data, size := data + 2, size - 2;
    }
    if size > 0 {
      AdditionWraps(exact, buffer[data]);
      checksum := (checksum + buffer[data]) % TWO_TO_THE_32;
    }
    ghost var total := checksum;
    assert total == (initial + WordSum(buffer)) % TWO_TO_THE_32;
    while checksum / 0x1_0000 != 0
      invariant Fold(checksum) == Fold(total)
      decreases checksum
    {
      checksum := checksum % 0x1_0000 + checksum / 0x1_0000;
    }
  }

  /** With a folded accumulator no addition overflows for up to 131070 bytes, far above the capacity
      of a message. */
  lemma AccumulatorSuffices(buffer: seq<byte>, initial: word16)
    requires |buffer| <= 0x1_FFFE
    ensures (initial + WordSum(buffer)) % TWO_TO_THE_32 == initial + WordSum(buffer)
  {
    WordSumBounded(buffer);
  }

  /** `finishChecksum`: complement and keep the lower 16 bits. */
  function FinishChecksum(checksum: word32): word16 { 0xFFFF - checksum % 0x1_0000 }

  /** What successive calls of `addChecksum` leave in the accumulator. */
  function Chained(parts: seq<seq<byte>>, initial: word16): word16
  {
    if parts == [] then initial else Chained(parts[1..], Fold(initial + WordSum(parts[0])))
  }

  function Concat(parts: seq<seq<byte>>): seq<byte>
  {
    if parts == [] then [] else parts[0] + Concat(parts[1..])
  }

  /** Chaining calls over parts that are all of even length, except possibly the last one, is one
      call over their concatenation. */
  lemma {:induction false} ChainingIsOneSum(parts: seq<seq<byte>>, initial: word16)
    requires forall k :: 0 <= k < |parts| - 1 ==> |parts[k]| % 2 == 0
    ensures Chained(parts, initial) == Fold(initial + WordSum(Concat(parts)))
  {
    if |parts| == 1 {
      assert Concat(parts) == parts[0] + Concat(parts[1..]) == parts[0];
    } else if |parts| > 1 {
      var rest := parts[1..];
      ChainingIsOneSum(rest, Fold(initial + WordSum(parts[0])));
      WordSumOfParts(parts[0], Concat(rest));
      FoldThenAdd(initial + WordSum(parts[0]), WordSum(Concat(rest)));
    }
  }

  /** The big-endian sum is 256 times the little-endian one, up to a multiple of 65535. */
  lemma {:induction false} BigEndianIsTimes256(b: seq<byte>) returns (k: nat)
    ensures 0x100 * WordSum(b) == WordSumBigEndian(b) + 0xFFFF * k
    ensures WordSum(b) == 0 <==> WordSumBigEndian(b) == 0
  {
    k := 0;
    if |b| > 1 {
      k := BigEndianIsTimes256(b[2..]);
      k := k + b[1];
    }
  }

  lemma SwapRepresents(le: nat, be: nat, k: nat)
    requires 0x100 * le == be + 0xFFFF * k && (le == 0 <==> be == 0)
    ensures Fold(be) == Swap(Fold(le))
  {
    var f: int := Fold(le);
    FoldIsCanonical(le);
    SwapIsTimes256(f);
    var j := f / 0x100 + 0x100 * (le / 0xFFFF - f / 0xFFFF) - k;
    assert be == Swap(f) + 0xFFFF * j;
    MultiplesVanish(Swap(f), j);
    FoldIsUnique(be, Swap(f));
  }

  /** Byte-order independence, section 2 of RFC 1071, for every byte sequence including those of
      odd length: the two folded sums are byte swaps of each other, so that the two machines store
      the same two bytes into the check field. */
  lemma ByteOrderIndependence(b: seq<byte>)
    ensures Fold(WordSumBigEndian(b)) == Swap(Fold(WordSum(b)))
    ensures Le16Bytes(FinishChecksum(Fold(WordSum(b)))) == Be16Bytes(FinishChecksum(Fold(WordSumBigEndian(b))))
  {
    var k := BigEndianIsTimes256(b);
    SwapRepresents(WordSum(b), WordSumBigEndian(b), k);
    StoredBytesAgree(Fold(WordSum(b)));
  }

  lemma StoredBytesAgree(f: word16)
    ensures Le16Bytes(FinishChecksum(f)) == Be16Bytes(FinishChecksum(Swap(f)))
  {
    var high, low := f / 0x100, f % 0x100;
    assert FinishChecksum(f) == Word(0xFF - low, 0xFF - high);
    assert FinishChecksum(Swap(f)) == Word(0xFF - high, 0xFF - low);
  }

  lemma SwapIsTimes256(w: word16)
    ensures Swap(w) + 0xFFFF * (w / 0x100) == 0x100 * (w as int)
    ensures Swap(w) == 0 <==> w == 0
  {
  }

  /** Section 1 of RFC 1071: once the complement of the sum is stored in a check field that was zero
      and lies at an even offset, the sum over everything folds to all ones. */
  lemma StoredChecksumVerifies(before: seq<byte>, after: seq<byte>)
    requires |before| % 2 == 0
    ensures var check := Le16Bytes(FinishChecksum(Fold(WordSum(before + [0, 0] + after))));
            Fold(WordSum(before + check + after)) == 0xFFFF
  {
    var sum := WordSum(before) + WordSum(after);
    var check := FinishChecksum(Fold(sum));
    SumAround(before, 0, after);
    SumAround(before, check, after);
    ComplementFoldsToOnes(sum);
  }

  lemma ComplementFoldsToOnes(sum: nat)
    ensures Fold(sum + FinishChecksum(Fold(sum))) == 0xFFFF
  {
    FoldIsCanonical(sum);
    var m := sum / 0xFFFF - Fold(sum) / 0xFFFF;
    assert sum + FinishChecksum(Fold(sum)) == 0xFFFF + 0xFFFF * m;
    MultiplesVanish(0xFFFF, m);
    FoldIsUnique(sum + FinishChecksum(Fold(sum)), 0xFFFF);
  }

  lemma SumAround(before: seq<byte>, w: word16, after: seq<byte>)
    requires |before| % 2 == 0
    ensures WordSum(before + Le16Bytes(w) + after) == WordSum(before) + w + WordSum(after)
  {
    assert before + Le16Bytes(w) + after == before + (Le16Bytes(w) + after);
    WordSumOfParts(before, Le16Bytes(w) + after);
    assert (Le16Bytes(w) + after)[2..] == after;
  }
}
