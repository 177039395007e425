/**
 Bytes, words and memory copies.

 The machine is little-endian: a 16-bit or 32-bit load takes its least significant byte from the
 lowest address.  IP addresses are never computed with and stay the four bytes that are stored.
 */
module Bytes {

  type byte = x: int | 0 <= x < 0x100
  type word16 = x: int | 0 <= x < 0x1_0000
  type word32 = x: int | 0 <= x < 0x1_0000_0000

  /** An `in_addr_t` in memory. */
  type address = s: seq<byte> | |s| == 4 witness [0, 0, 0, 0]

  const NO_ADDRESS: address := [0, 0, 0, 0]
  const INADDR_BROADCAST: address := [0xFF, 0xFF, 0xFF, 0xFF]

  const TWO_TO_THE_32: int := 0x1_0000_0000

  function Min(a: nat, b: nat): nat { if a < b then a else b }

  function Le16Bytes(w: word16): (s: seq<byte>) { [w % 0x100, w / 0x100] }

  function Be16Bytes(w: word16): (s: seq<byte>) { [w / 0x100, w % 0x100] }

  /** The 16-bit word with the given low and high bytes. */
  function Word(low: int, high: int): int { low + 0x100 * high }

  /** `ntohl` of four stored bytes. */
  function Be32(s: seq<byte>): word32
    requires |s| == 4
  {
    Word(s[3], Word(s[2], Word(s[1], s[0])))
  }

  /** The bytes stored for `htonl(w)`. */
  function Be32Bytes(w: word32): (s: seq<byte>)
    ensures |s| == 4 && Be32(s) == w
  {
    var w1: int := w / 0x100;
    var w2: int := w1 / 0x100;
    [w2 / 0x100, w2 % 0x100, w1 % 0x100, w % 0x100]
  }

  /** `memory` after `bytes` is stored at `at`. */
  function Splice<T>(memory: seq<T>, at: nat, bytes: seq<T>): (m: seq<T>)
    requires at + |bytes| <= |memory|
    ensures |m| == |memory|
    ensures forall k :: 0 <= k < |m| ==>
              m[k] == if at <= k < at + |bytes| then bytes[k - at] else memory[k]
  {
    memory[..at] + bytes + memory[at + |bytes|..]
  }

  lemma ConcatIsAssociative<T>(a: seq<T>, b: seq<T>, c: seq<T>)
    ensures a + (b + c) == (a + b) + c
  {
  }

  lemma SpliceAppends<T>(memory: seq<T>, at: nat, bytes: seq<T>)
    requires at + |bytes| <= |memory|
    ensures Splice(memory, at, bytes)[..at + |bytes|] == memory[..at] + bytes
  {
  }

  lemma SliceOfSlice<T>(s: seq<T>, at: nat, end: nat, lo: nat, hi: nat)
    requires lo <= hi && at + hi <= end <= |s|
    ensures s[at..end][lo..hi] == s[at + lo..at + hi]
  {
    var t := s[at..end];
    assert forall k :: 0 <= k < hi - lo ==> t[lo..hi][k] == t[lo + k] == s[at + lo + k] == s[at + lo..at + hi][k];
  }

  /** `memcpy(&target[at], bytes, |bytes|)`. */
  method Memcpy<T>(target: array<T>, at: nat, bytes: seq<T>)
    requires at + |bytes| <= target.Length
    modifies target
    ensures target[..] == Splice(old(target[..]), at, bytes)
  {
    forall k | 0 <= k < |bytes| {
      target[at + k] := bytes[k];
    }
  }
}
