/**
 The ring buffer of hals/audio/driver/audio_vbuffer.c: frames of a fixed size in a byte array that is
 filled at `head` and emptied at `tail`, both of which wrap around.  It behaves as a bounded queue of
 bytes, whose units are whole frames.
 */
module AudioVbuffer {
  import opened Bytes

  const INT_MAX: int := 0x7FFF_FFFF

  /** `len` bytes of the array from `start` on, continued at its beginning when they reach its end. */
  function Window(d: seq<byte>, start: nat, len: nat): (w: seq<byte>)
    requires start <= |d| && len <= |d|
    ensures |w| == len
  {
    if start + len <= |d| then d[start..start + len] else d[start..] + d[..start + len - |d|]
  }

  /** The size in bytes of `n` frames, which the code writes as a product. */
  function Size(n: nat, frameSize: nat): nat
  {
    if n == 0 then 0 else Size(n - 1, frameSize) + frameSize
  }

  lemma {:induction false} SizeIsProduct(n: nat, frameSize: nat)
    ensures Size(n, frameSize) == n * frameSize
  {
    if n > 0 {
      SizeIsProduct(n - 1, frameSize);
    }
  }

  /** Where `at + n` lies after wrapping around. */
  function Wrap(at: nat, n: nat, size: nat): nat
    requires at <= size && n <= size
  {
    if at + n < size then at + n else at + n - size
  }

  lemma WrapIsModulo(at: nat, n: nat, size: nat)
    requires at < size && n <= size
    ensures Wrap(at, n, size) == (at + n) % size
  {
    var x := at + n;
    var q := x / size;
    assert x == q * size + x % size;
    assert q >= 2 ==> q * size >= 2 * size;
  }

  /** A store of `bytes` at the wrapped end of a window, in one contiguous piece, appends them. */
  lemma StoreAppends(d: seq<byte>, start: nat, len: nat, at: nat, bytes: seq<byte>)
    requires start <= |d| && len + |bytes| <= |d|
    requires at == Wrap(start, len, |d|) && at + |bytes| <= |d|
    ensures Window(Splice(d, at, bytes), start, len + |bytes|) == Window(d, start, len) + bytes
  {
    var e := Splice(d, at, bytes);
    var end := at + |bytes|;
    SpliceAppends(d, at, bytes);
    if start + len < |d| {
      assert e[start..end] == e[..end][start..] == d[..at][start..] + bytes;
    } else {
      assert e[start..] == d[start..];
      assert e[start..] + e[..end] == d[start..] + d[..at] + bytes;
    }
  }

  /** The first `n` bytes of a window that lie in one contiguous piece are its start, and the rest is a
      window again. */
  lemma LoadDrops(d: seq<byte>, start: nat, len: nat, n: nat)
    requires start <= |d| && n <= len <= |d| && start + n <= |d|
    ensures d[start..start + n] == Window(d, start, len)[..n]
    ensures Window(d, Wrap(start, n, |d|), len - n) == Window(d, start, len)[n..]
  {
    if start + len <= |d| {
      LoadWithin(d, start, len, n);
    } else {
      LoadAcross(d, start, len, n);
    }
  }

  lemma LoadWithin(d: seq<byte>, start: nat, len: nat, n: nat)
    requires n <= len && start + len <= |d|
    ensures d[start..start + n] == Window(d, start, len)[..n]
    ensures Window(d, Wrap(start, n, |d|), len - n) == Window(d, start, len)[n..]
  {
    SliceOfSlice(d, start, start + len, 0, n);
    SliceOfSlice(d, start, start + len, n, len);
  }

  lemma LoadAcross(d: seq<byte>, start: nat, len: nat, n: nat)
    requires start <= |d| && n <= len <= |d| && start + n <= |d| < start + len
    ensures d[start..start + n] == Window(d, start, len)[..n]
    ensures Window(d, Wrap(start, n, |d|), len - n) == Window(d, start, len)[n..]
  {
    var front, back := d[start..], d[..start + len - |d|];
    DropOfConcat(front, back, n);
    SliceOfSlice(d, start, |d|, 0, n);
    WindowAfter(d, start, len, n);
  }

  lemma WindowAfter(d: seq<byte>, start: nat, len: nat, n: nat)
    requires start <= |d| && n <= len <= |d| && start + n <= |d| < start + len
    ensures Window(d, Wrap(start, n, |d|), len - n) == d[start..][n..] + d[..start + len - |d|]
  {
    var back := d[..start + len - |d|];
    SliceOfSlice(d, start, |d|, n, |d| - start);
    if start + n == |d| {
      assert d[start..][n..] == [];
      assert [] + back == back == d[0..len - n];
    } else {
      assert start + n + (len - n) > |d|;
    }
  }

  lemma DropOfConcat(front: seq<byte>, back: seq<byte>, n: nat)
    requires n <= |front|
    ensures (front + back)[..n] == front[..n] && (front + back)[n..] == front[n..] + back
  {
  }

  class Vbuffer {
    const data: array<byte>
    const frameSize: nat
    const frameCount: nat
    var head: nat
    var tail: nat
    var live: nat

    ghost predicate Valid()
      reads this
    {
      && 0 < frameCount <= INT_MAX
      && data.Length == Size(frameCount, frameSize)
      && tail < frameCount && live <= frameCount
      && head == Wrap(tail, live, frameCount)
    }

    /** The bytes of the live frames, oldest first. */
    ghost function Contents(): (s: seq<byte>)
      reads this, data
      requires Valid()
      ensures |s| == Size(live, frameSize)
    {
      FitsBytes(live, frameCount, frameSize);
      FitsBytes(tail, frameCount, frameSize);
      Window(data[..], Size(tail, frameSize), Size(live, frameSize))
    }

    /** `audio_vbuffer_init` when the allocation succeeds. */
    constructor (frameCount: nat, frameSize: nat)
      requires 0 < frameCount <= INT_MAX
      ensures Valid() && fresh(data) && Contents() == []
      ensures this.frameCount == frameCount && this.frameSize == frameSize
    {
      this.frameCount, this.frameSize := frameCount, frameSize;
      SizeIsProduct(frameCount, frameSize);
      data := new byte[frameCount * frameSize](_ => 0);
      head, tail, live := 0, 0, 0;
    }

    /** `audio_vbuffer_live` and `audio_vbuffer_dead`. */
    function Live(): nat
      reads this
    {
      live
    }

    function Dead(): int
      reads this
    {
      frameCount - live
    }

    /** `audio_vbuffer_write`: appends the first `min(n, free)` frames of the buffer and says how many,
        with at most two copies. */
    method Write(buffer: seq<byte>, n: nat) returns (framesWritten: nat, ghost chunks: nat)
      requires Valid() && Size(n, frameSize) <= |buffer|
      modifies this, data
      ensures Valid()
      ensures framesWritten == Min(n, frameCount - old(live)) && live == old(live) + framesWritten
      ensures Size(framesWritten, frameSize) <= |buffer|
      ensures Contents() == old(Contents()) + buffer[..Size(framesWritten, frameSize)]
      ensures chunks <= 2
    {
      framesWritten, chunks := 0, 0;
      NothingAppended(Contents(), buffer);
      var left: nat, at: nat := n, 0;
      while left != 0
        invariant Valid()
        invariant framesWritten + left == n
        invariant live == old(live) + framesWritten
        invariant at == Size(framesWritten, frameSize) <= |buffer|
        invariant Contents() == old(Contents()) + buffer[..at]
        invariant chunks <= 2
        invariant chunks == 1 ==> left == 0 || live == frameCount || (live > 0 && head < tail)
        invariant chunks == 2 ==> left == 0 || live == frameCount
        decreases left
      {
        PieceFits(framesWritten, left, n, frameSize);
        var frames := WriteChunk(buffer, at, left);
        PrefixGrows(old(Contents()), buffer, at, Size(frames, frameSize));
        if frames == 0 {
          break;
        }
        PieceFits(framesWritten, frames, n, frameSize);
        framesWritten, left, chunks := framesWritten + frames, left - frames, chunks + 1;
        at := at + Size(frames, frameSize);
      }
    }

    /** The body of the loop: as many frames as fit in one piece, none when the buffer is full. */
    method WriteChunk(buffer: seq<byte>, at: nat, left: nat) returns (frames: nat)
      requires Valid() && left > 0 && at + Size(left, frameSize) <= |buffer|
      modifies this, data
      ensures Valid() && live == old(live) + frames && frames <= left
      ensures frames == 0 <==> old(live) == frameCount
      ensures at + Size(frames, frameSize) <= |buffer|
      ensures Contents() == old(Contents()) + buffer[at..at + Size(frames, frameSize)]
      ensures frames == left || live == frameCount || (live > 0 && head < tail)
      ensures old(live > 0 && head < tail) ==> frames == left || live == frameCount
    {
      if live == 0 || head > tail {
        frames := Min(left, frameCount - head);
      } else if head < tail {
        frames := Min(left, tail - head);
      } else {
        assert buffer[at..at] == [];
        return 0;
      }
      FitsBytes(frames, left, frameSize);
      Store(buffer[at..at + Size(frames, frameSize)], frames);
    }

    /** One copy: `frames` frames go to `head`, where there is room for them in one piece. */
    method Store(piece: seq<byte>, frames: nat)
      requires Valid() && frames <= frameCount - head && frames <= frameCount - live
      requires |piece| == Size(frames, frameSize)
      modifies this, data
      ensures Valid() && tail == old(tail)
      ensures live == old(live) + frames
      ensures head == Wrap(old(head), frames, frameCount)
      ensures Contents() == old(Contents()) + piece
    {
      StoreFrames(data[..], frameCount, frameSize, tail, live, head, frames, piece);
      Memcpy(data, Size(head, frameSize), piece);
      live := live + frames;
      head := Advance(head, frames);
    }

    method Advance(at: nat, frames: nat) returns (r: nat)
      requires at < frameCount && frames <= frameCount
      ensures r == Wrap(at, frames, frameCount)
    {
      WrapIsModulo(at, frames, frameCount);
      r := (at + frames) % frameCount;
    }

    /** `audio_vbuffer_read`: removes the oldest `min(n, live)` frames, copies them to the start of the
        buffer and says how many, with at most two copies.  `bytes` is what those frames hold. */
    method Read(buffer: array<byte>, n: nat) returns (framesRead: nat, ghost bytes: seq<byte>, ghost chunks: nat)
      requires Valid() && Size(n, frameSize) <= buffer.Length && buffer != data
      modifies this, buffer
      ensures Valid()
      ensures framesRead == Min(n, old(live)) && live == old(live) - framesRead
      ensures |bytes| == Size(framesRead, frameSize) <= buffer.Length
      ensures old(Contents()) == bytes + Contents()
      ensures Copied(buffer[..], bytes, old(buffer[..]))
      ensures chunks <= 2
    {
      framesRead, bytes, chunks := 0, [], 0;
      NothingCopied(buffer[..]);
      NothingRead(Contents());
      var left: nat, at: nat := n, 0;
      while left != 0
        invariant Valid()
        invariant framesRead + left == n
        invariant live + framesRead == old(live)
        invariant at == |bytes| == Size(framesRead, frameSize) <= buffer.Length
        invariant old(Contents()) == bytes + Contents()
        invariant Copied(buffer[..], bytes, old(buffer[..]))
        invariant chunks <= 2
        invariant chunks == 1 ==> left == 0 || live == 0 || tail < head
        invariant chunks == 2 ==> left == 0 || live == 0
        decreases left
      {
        PieceFits(framesRead, left, n, frameSize);
        ghost var piece;
        var frames;
        frames, piece := ReadChunk(buffer, at, left, bytes, old(buffer[..]));
        ConcatIsAssociative(bytes, piece, Contents());
        bytes := bytes + piece;
        if frames == 0 {
          break;
        }
        PieceFits(framesRead, frames, n, frameSize);
        framesRead, left, chunks := framesRead + frames, left - frames, chunks + 1;
        at := at + Size(frames, frameSize);
      }
    }

    /** The body of the loop: as many frames as lie in one piece, none when the ring is empty, go to
        the buffer behind the `bytes` that have been copied before. */
    method ReadChunk(buffer: array<byte>, at: nat, left: nat, ghost bytes: seq<byte>, ghost original: seq<byte>)
      returns (frames: nat, ghost piece: seq<byte>)
      requires Valid() && left > 0 && buffer != data
      requires at == |bytes| && at + Size(left, frameSize) <= |original| == buffer.Length
      requires Copied(buffer[..], bytes, original)
      modifies this, buffer
      ensures Valid() && live == old(live) - frames && frames <= left
      ensures frames == 0 <==> old(live) == 0
      ensures |piece| == Size(frames, frameSize) <= Size(left, frameSize)
      ensures old(Contents()) == piece + Contents()
      ensures Copied(buffer[..], bytes + piece, original)
      ensures frames == left || live == 0 || tail < head
      ensures old(tail < head) ==> frames == left || live == 0
    {
      if live == frameCount || tail > head {
        frames := Min(left, frameCount - tail);
      } else if tail < head {
        frames := Min(left, head - tail);
      } else {
        NothingRead(Contents());
        assert bytes + [] == bytes;
        return 0, [];
      }
      FitsBytes(frames, left, frameSize);
      var loaded := Load(frames);
      piece := loaded;
      CopyOut(buffer, at, bytes, loaded, original);
    }

    /** One copy out: `frames` live frames lie at `tail` in one piece. */
    method Load(frames: nat) returns (piece: seq<byte>)
      requires Valid() && frames <= frameCount - tail && frames <= live
      modifies this
      ensures Valid() && head == old(head)
      ensures live == old(live) - frames
      ensures tail == Wrap(old(tail), frames, frameCount)
      ensures |piece| == Size(frames, frameSize)
      ensures old(Contents()) == piece + Contents()
    {
      LoadFrames(data[..], frameCount, frameSize, tail, live, frames);
      WrapInSteps(tail, frames, live, frameCount);
      piece := data[Size(tail, frameSize)..Size(tail, frameSize) + Size(frames, frameSize)];
      live := live - frames;
      tail := Advance(tail, frames);
    }
  }

  lemma WrapInSteps(at: nat, n: nat, m: nat, size: nat)
    requires at < size && n <= m <= size && at + n <= size
    ensures Wrap(at, n, size) < size && Wrap(Wrap(at, n, size), m - n, size) == Wrap(at, m, size)
  {
  }

  lemma NothingAppended(contents: seq<byte>, buffer: seq<byte>)
    ensures contents + buffer[..0] == contents
  {
  }

  lemma PrefixGrows(contents: seq<byte>, buffer: seq<byte>, at: nat, n: nat)
    requires at + n <= |buffer|
    ensures (contents + buffer[..at]) + buffer[at..at + n] == contents + buffer[..at + n]
  {
  }

  /** `now` is `original` with its start overwritten by `bytes`. */
  ghost predicate Copied(now: seq<byte>, bytes: seq<byte>, original: seq<byte>)
  {
    |bytes| <= |original| && now == bytes + original[|bytes|..]
  }

  lemma NothingCopied(buffer: seq<byte>)
    ensures Copied(buffer, [], buffer)
  {
  }

  lemma NothingRead(contents: seq<byte>)
    ensures [] + contents == contents
  {
  }

  /** Copy a piece behind the bytes that have been copied before. */
  method CopyOut(buffer: array<byte>, at: nat, ghost bytes: seq<byte>, piece: seq<byte>, ghost original: seq<byte>)
    requires at == |bytes| && at + |piece| <= |original| == buffer.Length
    requires Copied(buffer[..], bytes, original)
    modifies buffer
    ensures Copied(buffer[..], bytes + piece, original)
  {
    Memcpy(buffer, at, piece);
  }

  // ----- From frames to bytes --------------------------------------------------------------------

  lemma PieceFits(done: nat, frames: nat, n: nat, frameSize: nat)
    requires done + frames <= n
    ensures Size(done, frameSize) + Size(frames, frameSize) == Size(done + frames, frameSize) <= Size(n, frameSize)
  {
    SumOfBytes(done, frames, frameSize);
    FitsBytes(done + frames, n, frameSize);
  }

  lemma StoreFrames(d: seq<byte>, frameCount: nat, frameSize: nat, tail: nat, live: nat, head: nat, frames: nat,
                    piece: seq<byte>)
    requires |d| == Size(frameCount, frameSize) && |piece| == Size(frames, frameSize)
    requires tail <= frameCount && live + frames <= frameCount && head == Wrap(tail, live, frameCount)
    requires head + frames <= frameCount
    ensures Size(tail, frameSize) <= |d| && Size(live, frameSize) <= Size(live + frames, frameSize) <= |d|
    ensures Size(head, frameSize) + |piece| <= |d|
    ensures Window(Splice(d, Size(head, frameSize), piece), Size(tail, frameSize), Size(live + frames, frameSize))
            == Window(d, Size(tail, frameSize), Size(live, frameSize)) + piece
  {
    PieceFits(head, frames, frameCount, frameSize);
    PieceFits(live, frames, frameCount, frameSize);
    WrapScales(tail, live, frameCount, frameSize);
    StoreAppends(d, Size(tail, frameSize), Size(live, frameSize), Size(head, frameSize), piece);
  }

  lemma LoadFrames(d: seq<byte>, frameCount: nat, frameSize: nat, tail: nat, live: nat, frames: nat)
    requires |d| == Size(frameCount, frameSize)
    requires frames <= live <= frameCount && tail + frames <= frameCount
    ensures Size(tail, frameSize) + Size(frames, frameSize) <= |d| && Size(live, frameSize) <= |d|
    ensures Size(Wrap(tail, frames, frameCount), frameSize) <= |d| && Size(live - frames, frameSize) <= |d|
    ensures Window(d, Size(tail, frameSize), Size(live, frameSize))
            == d[Size(tail, frameSize)..Size(tail, frameSize) + Size(frames, frameSize)]
               + Window(d, Size(Wrap(tail, frames, frameCount), frameSize), Size(live - frames, frameSize))
  {
    PieceFits(tail, frames, frameCount, frameSize);
    PieceFits(live - frames, frames, frameCount, frameSize);
    WrapScales(tail, frames, frameCount, frameSize);
    FitsBytes(live, frameCount, frameSize);
    var w := Window(d, Size(tail, frameSize), Size(live, frameSize));
    LoadDrops(d, Size(tail, frameSize), Size(live, frameSize), Size(frames, frameSize));
    assert w == w[..Size(frames, frameSize)] + w[Size(frames, frameSize)..];
  }

  /** Frames that fit in frames also fit in bytes. */
  lemma FitsBytes(n: nat, m: nat, frameSize: nat)
    requires n <= m
    ensures Size(n, frameSize) <= Size(m, frameSize)
  {
    SumOfBytes(n, m - n, frameSize);
  }

  lemma {:induction false} SumOfBytes(n: nat, m: nat, frameSize: nat)
    ensures Size(n + m, frameSize) == Size(n, frameSize) + Size(m, frameSize)
  {
    if m > 0 {
      SumOfBytes(n, m - 1, frameSize);
    }
  }

  lemma {:induction false} SizeGrows(n: nat, m: nat, frameSize: nat)
    requires n < m
    ensures frameSize == 0 ==> Size(n, frameSize) == Size(m, frameSize) == 0
    ensures frameSize > 0 ==> Size(n, frameSize) < Size(m, frameSize)
  {
    SumOfBytes(n, m - n - 1, frameSize);
    if frameSize == 0 {
      SizeIsProduct(n, 0);
      SizeIsProduct(m, 0);
    }
  }

  lemma WrapScales(at: nat, n: nat, size: nat, frameSize: nat)
    requires at <= size && n <= size
    ensures Size(at, frameSize) <= Size(size, frameSize) && Size(n, frameSize) <= Size(size, frameSize)
    ensures Size(Wrap(at, n, size), frameSize) == Wrap(Size(at, frameSize), Size(n, frameSize), Size(size, frameSize))
  {
    FitsBytes(at, size, frameSize);
    FitsBytes(n, size, frameSize);
    SumOfBytes(at, n, frameSize);
    if at + n < size {
      SizeGrows(at + n, size, frameSize);
      WrapBelow(Size(at, frameSize), Size(n, frameSize), Size(size, frameSize));
    } else {
      SumOfBytes(size, at + n - size, frameSize);
      WrapAbove(Size(at, frameSize), Size(n, frameSize), Size(size, frameSize));
    }
  }

  lemma WrapBelow(at: nat, n: nat, size: nat)
    requires at + n < size || at + n == size == 0
    ensures Wrap(at, n, size) == at + n
  {
  }

  lemma WrapAbove(at: nat, n: nat, size: nat)
    requires at <= size && n <= size && size <= at + n
    ensures Wrap(at, n, size) == at + n - size
  {
  }
}
