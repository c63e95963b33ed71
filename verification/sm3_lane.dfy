/**
 * One lane of the 16-lane SM3 streaming update, as values.
 *
 * A lane is an independent SM3 computation: a one-block buffer, the number of valid
 * bytes in that buffer, and the digest. The digest is represented by the bytes it has
 * absorbed so far, which is all the batched compression primitive does with it: it
 * compresses whole 64-byte blocks, in order, into the lane's running hash value.
 *
 * The functions below follow the three phases of one call for one lane (top-up of a
 * partially filled buffer, bulk compression of whole blocks, buffering of the tail);
 * the lemmas state what the phases preserve together.
 */
module Sm3Lane {

  /** SM3_MSG_BLOCK_SIZE: SM3 compresses 512-bit (64-byte) message blocks. */
  const BLOCK_SIZE: int := 64

  type byte = b: int | 0 <= b < 0x100

  /** A lane as the update sees it: its block buffer, the index of the first free byte
      in it, and the bytes its digest has absorbed. */
  datatype Lane = Lane(buf: seq<byte>, idx: int, absorbed: seq<byte>)

  /** What holds of a lane at rest between calls: a full buffer is always compressed at
      once, so the index stays below the block size, and the digest only ever absorbs
      whole blocks. */
  predicate Valid(l: Lane)
  {
    |l.buf| == BLOCK_SIZE && 0 <= l.idx < BLOCK_SIZE && |l.absorbed| % BLOCK_SIZE == 0
  }

  /** Every byte the lane has been fed: the compressed ones, then the buffered ones. */
  function Stream(l: Lane): seq<byte>
    requires 0 <= l.idx <= |l.buf|
  {
    l.absorbed + l.buf[..l.idx]
  }

  /** n zero bytes. */
  function Zeros(n: nat): seq<byte>
  {
    seq(n, _ => 0)
  }

  /** `loc_len & -SM3_MSG_BLOCK_SIZE`: clearing the six low bits of a two's complement
      integer rounds it down to a multiple of 64, which is x - x % 64 with Dafny's
      Euclidean remainder, for negative x too. */
  function WholeBlocks(x: int): (r: int)
    ensures r % BLOCK_SIZE == 0 && r <= x < r + BLOCK_SIZE
  {
    x - x % BLOCK_SIZE
  }

  /** Whole blocks followed by whole blocks are whole blocks. */
  lemma BlockMultiplesAdd(a: int, b: int)
    requires a % BLOCK_SIZE == 0 && b % BLOCK_SIZE == 0
    ensures (a + b) % BLOCK_SIZE == 0
  {
  }

  /** The per-lane `proc_len` of the top-up: the free room in the buffer, or the whole
      input when it is shorter (a masked select on `loc_len - empty < 0`). */
  function TopUpCount(idx: int, n: int): (p: int)
    ensures p <= n && p <= BLOCK_SIZE - idx
    ensures p == n || p == BLOCK_SIZE - idx
  {
    if n - (BLOCK_SIZE - idx) < 0 then n else BLOCK_SIZE - idx
  }

  /** Top-up of one lane: the bytes that fit are copied to the buffer at its index, and
      a buffer that becomes full is compressed and its index reset. */
  function TopUp(l: Lane, data: seq<byte>): (r: Lane)
    requires Valid(l)
    ensures |r.buf| == BLOCK_SIZE
    ensures var p := TopUpCount(l.idx, |data|);
      && 0 <= p <= |data|
      && r.buf[l.idx..l.idx + p] == data[..p]
      && (forall k :: 0 <= k < BLOCK_SIZE && !(l.idx <= k < l.idx + p) ==> r.buf[k] == l.buf[k])
      && (l.idx + p == BLOCK_SIZE ==> r.idx == 0 && r.absorbed == l.absorbed + r.buf)
      && (l.idx + p < BLOCK_SIZE ==> r.idx == l.idx + p && r.absorbed == l.absorbed)
  {
    CompressIfFull(CopyIn(l, data))
  }

  /** The copy of the top-up: the bytes that fit land in the buffer at the index, which
      advances past them. */
  function CopyIn(l: Lane, data: seq<byte>): Lane
    requires 0 <= l.idx < |l.buf| == BLOCK_SIZE
  {
    var p := TopUpCount(l.idx, |data|);
    Lane(l.buf[..l.idx] + data[..p] + l.buf[l.idx + p..], l.idx + p, l.absorbed)
  }

  /** The end of the top-up: a full buffer is compressed and its index reset. */
  function CompressIfFull(l: Lane): Lane
  {
    if l.idx == BLOCK_SIZE then Lane(l.buf, 0, l.absorbed + l.buf) else l
  }

  /** Bulk phase of one lane: every whole block left in the input is compressed directly
      from the input; buffer and index are untouched, and a lane with no whole block
      left is not touched at all. */
  function Bulk(l: Lane, rest: seq<byte>): (r: Lane)
  {
    var p := WholeBlocks(|rest|);
    if p > 0 then Lane(l.buf, l.idx, l.absorbed + rest[..p]) else l
  }

  /** Remainder phase of one lane: a non-empty tail (shorter than a block) is loaded into
      the buffer with a zero-masked load, so the bytes after it become zero. */
  function Remainder(l: Lane, tail: seq<byte>): (r: Lane)
    requires |tail| < BLOCK_SIZE
  {
    if |tail| > 0 then Lane(tail + Zeros(BLOCK_SIZE - |tail|), l.idx + |tail|, l.absorbed)
    else l
  }

  /** The bulk and remainder phases of one lane, on the input left after the top-up.
      When input is left, the top-up has emptied the buffer (or did not run because it
      was empty), so the tail fits into it. */
  function BulkThenRemainder(l: Lane, rest: seq<byte>): (r: Lane)
    requires Valid(l) && (|rest| > 0 ==> l.idx == 0)
    ensures Valid(r)
  {
    var q := WholeBlocks(|rest|);
    BlockMultiplesAdd(|l.absorbed|, q);
    Remainder(Bulk(l, rest), rest[q..])
  }

  /** One call for one lane that takes `data` (its first `len` input bytes, or none when
      the lane is inactive). `topUp` says whether the top-up phase runs, which the call
      decides from all lanes' indices; it cannot be false while this lane holds bytes. */
  function Update(l: Lane, data: seq<byte>, topUp: bool): (r: Lane)
    requires Valid(l) && (!topUp ==> l.idx == 0)
    ensures Valid(r)
  {
    if topUp then
      var p := TopUpCount(l.idx, |data|);
      var l1 := TopUp(l, data);
      assert p < |data| ==> l1.idx == 0;
      BulkThenRemainder(l1, data[p..])
    else
      BulkThenRemainder(l, data)
  }

  /** The call reads a lane's input through a pointer that each phase advances past the
      bytes it took: the top-up takes `off` bytes, the bulk phase the whole blocks after
      them, and the remainder phase what is left of the first `n` bytes. Read that way,
      the phases compute Update on those `n` bytes. */
  lemma PointerPhasesMakeUpdate(l: Lane, src: seq<byte>, n: int, topUp: bool, off: int, locLen: int,
                                l1: Lane, off2: int, locLen2: int, l2: Lane, l3: Lane)
    requires Valid(l) && (!topUp ==> l.idx == 0) && 0 <= n <= |src|
    requires off == (if topUp then TopUpCount(l.idx, n) else 0) && locLen == n - off
    requires l1 == if topUp then TopUp(l, src[..n]) else l
    requires off2 == off + WholeBlocks(locLen) && locLen2 == locLen - WholeBlocks(locLen)
    requires l2 == Bulk(l1, src[off..off + locLen])
    requires l3 == Remainder(l2, src[off2..off2 + locLen2])
    ensures l3 == Update(l, src[..n], topUp)
  {
    var rest := if topUp then src[..n][off..] else src[..n];
    assert rest == src[off..off + locLen];
    assert rest[WholeBlocks(|rest|)..] == src[off2..off2 + locLen2];
  }

  /** Headline property: a call appends exactly the lane's input to the lane's stream,
      whether or not the top-up phase runs, and leaves the index at the stream's length
      modulo the block size. */
  lemma {:induction false} UpdateExtendsStream(l: Lane, data: seq<byte>, topUp: bool)
    requires Valid(l) && (!topUp ==> l.idx == 0)
    ensures Stream(Update(l, data, topUp)) == Stream(l) + data
    ensures Update(l, data, topUp).idx == (l.idx + |data|) % BLOCK_SIZE
  {
    if topUp {
      ToppedUpExtendsStream(l, data);
    } else {
      TailExtendsStream(l, data);
    }
    IndexFollowsStream(l, Update(l, data, topUp), data);
  }

  /** A well-formed lane whose stream is another's extended by `data` has its index at
      the old index plus the length of `data`, modulo the block size. */
  lemma IndexFollowsStream(l: Lane, r: Lane, data: seq<byte>)
    requires Valid(l) && Valid(r) && Stream(r) == Stream(l) + data
    ensures r.idx == (l.idx + |data|) % BLOCK_SIZE
  {
    BlockDecomposition(|r.absorbed|, r.idx, |l.absorbed|, l.idx + |data|);
  }

  /** A call in which the top-up runs appends the lane's input to its stream: the top-up
      takes the first bytes, bulk and remainder the rest. */
  lemma ToppedUpExtendsStream(l: Lane, data: seq<byte>)
    requires Valid(l)
    ensures Stream(Update(l, data, true)) == Stream(l) + data
  {
    var p := TopUpCount(l.idx, |data|);
    var l1 := TopUp(l, data);
    TopUpExtendsStream(l, data);
    var rest := data[p..];
    TailExtendsStream(l1, rest);
    if p > 0 {
      assert data[..p] + rest == data;
    } else {
      assert data == [] && rest == [];
    }
  }

  /** The top-up phase appends to the stream the bytes it copies. */
  lemma TopUpExtendsStream(l: Lane, data: seq<byte>)
    requires Valid(l)
    ensures var p := TopUpCount(l.idx, |data|);
      var r := TopUp(l, data);
      Valid(r) && Stream(r) == Stream(l) + data[..p] && (p < |data| ==> r.idx == 0)
  {
    var p := TopUpCount(l.idx, |data|);
    var r := TopUp(l, data);
    if l.idx + p == BLOCK_SIZE {
      assert r.buf == l.buf[..l.idx] + data[..p];
    } else {
      assert r.buf[..r.idx] == l.buf[..l.idx] + data[..p];
    }
  }

  /** The bulk and remainder phases append to the stream everything that is left. */
  lemma TailExtendsStream(l: Lane, rest: seq<byte>)
    requires Valid(l) && (|rest| > 0 ==> l.idx == 0)
    ensures Stream(BulkThenRemainder(l, rest)) == Stream(l) + rest
  {
    var q := WholeBlocks(|rest|);
    var tail := rest[q..];
    var b := Bulk(l, rest);
    assert Stream(b) == Stream(l) + rest[..q] by {
      if q > 0 {
        assert l.buf[..l.idx] == [];
      } else {
        assert rest[..q] == [];
      }
    }
    if q > 0 {
      assert rest[..q] + tail == rest;
    } else {
      assert tail == rest;
    }
    if |tail| > 0 {
      assert b.idx == 0 && b.absorbed == Stream(l) + rest[..q];
      assert Remainder(b, tail).buf[..|tail|] == tail;
    } else {
      assert tail == [];
    }
  }

  /** A length that is a whole number of blocks plus less than one block splits in only
      one way. */
  lemma BlockDecomposition(a: int, b: int, c: int, d: int)
    requires a % BLOCK_SIZE == 0 && c % BLOCK_SIZE == 0 && 0 <= b < BLOCK_SIZE && 0 <= d
    requires a + b == c + d
    ensures b == d % BLOCK_SIZE
  {
  }

  /** The stream determines everything a lane's future depends on: the digest's absorbed
      bytes, the index and the buffered bytes. */
  lemma StreamDeterminesLane(a: Lane, b: Lane)
    requires Valid(a) && Valid(b) && Stream(a) == Stream(b)
    ensures a.absorbed == b.absorbed && a.idx == b.idx && a.buf[..a.idx] == b.buf[..b.idx]
  {
    var s := Stream(a);
    BlockDecomposition(|a.absorbed|, a.idx, 0, |s|);
    BlockDecomposition(|b.absorbed|, b.idx, 0, |s|);
    assert a.absorbed == s[..|a.absorbed|];
    assert b.absorbed == s[..|b.absorbed|];
  }

  /** Chunking invariance: feeding d1 then d2 in two calls leaves the lane with the same
      digest input, index and buffered bytes as feeding d1 + d2 in one call. */
  lemma ChunkingInvariance(l: Lane, d1: seq<byte>, d2: seq<byte>, t1: bool, t2: bool, t: bool)
    requires Valid(l) && (!t1 ==> l.idx == 0) && (!t ==> l.idx == 0)
    requires !t2 ==> Update(l, d1, t1).idx == 0
    ensures var two := Update(Update(l, d1, t1), d2, t2);
      var one := Update(l, d1 + d2, t);
      two.absorbed == one.absorbed && two.idx == one.idx && two.buf[..two.idx] == one.buf[..one.idx]
  {
    var mid := Update(l, d1, t1);
    UpdateExtendsStream(l, d1, t1);
    UpdateExtendsStream(mid, d2, t2);
    UpdateExtendsStream(l, d1 + d2, t);
    SameInputSameLane(l, Update(mid, d2, t2), Update(l, d1 + d2, t), Stream(mid), d1, d2);
  }

  /** Two valid lanes whose streams both extend a lane's stream by d1 then d2 agree. */
  lemma SameInputSameLane(l: Lane, a: Lane, b: Lane, mid: seq<byte>, d1: seq<byte>, d2: seq<byte>)
    requires Valid(l) && Valid(a) && Valid(b)
    requires mid == Stream(l) + d1 && Stream(a) == mid + d2 && Stream(b) == Stream(l) + (d1 + d2)
    ensures a.absorbed == b.absorbed && a.idx == b.idx && a.buf[..a.idx] == b.buf[..b.idx]
  {
    assert Stream(a) == Stream(b);
    StreamDeterminesLane(a, b);
  }

  /** Lane independence: whether the top-up phase runs depends on the other lanes, but
      for a lane with an empty buffer it changes neither what its digest absorbs nor its
      index nor its buffered bytes. */
  lemma TopUpDecisionIsInvisible(l: Lane, data: seq<byte>)
    requires Valid(l) && l.idx == 0
    ensures var a := Update(l, data, true);
      var b := Update(l, data, false);
      a.absorbed == b.absorbed && a.idx == b.idx && a.buf[..a.idx] == b.buf[..b.idx]
  {
    UpdateExtendsStream(l, data, true);
    UpdateExtendsStream(l, data, false);
    StreamDeterminesLane(Update(l, data, true), Update(l, data, false));
  }

  /** An inactive lane (no input bytes) is left exactly as it was. */
  lemma EmptyInputChangesNothing(l: Lane, topUp: bool)
    requires Valid(l) && (!topUp ==> l.idx == 0)
    ensures Update(l, [], topUp) == l
  {
    if topUp {
      if l.idx > 0 {
        assert l.buf[..l.idx] + l.buf[l.idx..] == l.buf;
      } else {
        assert l.buf[..l.idx] == [] && l.buf[l.idx..] == l.buf;
      }
    }
  }

  /** What the buffer holds after its index: the old bytes when the input only partly
      tops up the buffer, zeros when a tail went through the remainder phase. */
  lemma BufferBeyondIndex(l: Lane, data: seq<byte>, topUp: bool)
    requires Valid(l) && (!topUp ==> l.idx == 0)
    ensures var r := Update(l, data, topUp);
      && (topUp && |data| < BLOCK_SIZE - l.idx ==> r.buf[r.idx..] == l.buf[r.idx..])
      && ((!topUp || |data| >= BLOCK_SIZE - l.idx) && (l.idx + |data|) % BLOCK_SIZE != 0 ==>
            r.buf[r.idx..] == Zeros(BLOCK_SIZE - r.idx))
  {
    var r := Update(l, data, topUp);
    UpdateExtendsStream(l, data, topUp);
    if topUp && |data| < BLOCK_SIZE - l.idx {
      assert r == TopUp(l, data);
    } else if (l.idx + |data|) % BLOCK_SIZE != 0 {
      var p := if topUp then TopUpCount(l.idx, |data|) else 0;
      var rest := if topUp then data[p..] else data;
      assert (|rest| - WholeBlocks(|rest|)) % BLOCK_SIZE == (l.idx + |data|) % BLOCK_SIZE;
    }
  }

  /** The bytes after the index depend on the other lanes: with identical input, a lane
      whose buffer is empty keeps its stale bytes when another lane forces the top-up
      phase, and gets zeros otherwise. */
  lemma StaleBytesDependOnOtherLanes(l: Lane, b: byte)
    requires Valid(l) && l.idx == 0 && l.buf[1] != 0
    ensures Update(l, [b], true).buf[1] == l.buf[1]
    ensures Update(l, [b], false).buf[1] == 0
  {
    StaleByteKept(l, b);
    ZeroByteLoaded(l, b);
  }

  /** The first half of StaleBytesDependOnOtherLanes: with the top-up running, the byte
      after a one-byte input is the old one. */
  lemma StaleByteKept(l: Lane, b: byte)
    requires Valid(l) && l.idx == 0
    ensures Update(l, [b], true).buf[1] == l.buf[1]
  {
    var a := Update(l, [b], true);
    UpdateExtendsStream(l, [b], true);
    BufferBeyondIndex(l, [b], true);
    assert a.idx == 1;
    assert a.buf[1] == a.buf[a.idx..][0] == l.buf[a.idx..][0];
  }

  /** The second half of StaleBytesDependOnOtherLanes: without the top-up, the byte after
      a one-byte input is 0. */
  lemma ZeroByteLoaded(l: Lane, b: byte)
    requires Valid(l) && l.idx == 0
    ensures Update(l, [b], false).buf[1] == 0
  {
    var z := Update(l, [b], false);
    UpdateExtendsStream(l, [b], false);
    BufferBeyondIndex(l, [b], false);
    assert z.idx == 1;
    assert z.buf[1] == z.buf[z.idx..][0] == Zeros(BLOCK_SIZE - 1)[0];
  }

  /** Two calls on a fresh lane: 100 bytes, then 28 more. The first leaves 36 bytes
      buffered after one compressed block; the second completes the second block from
      the buffer. A second lane that gets 64 bytes while the top-up phase runs sends
      them through its buffer. */
  lemma TwoCallScenario(m0: seq<byte>, m1: seq<byte>)
    requires |m0| == 128 && |m1| == 64
    ensures var empty := Lane(Zeros(BLOCK_SIZE), 0, []);
      var a1 := Update(empty, m0[..100], false);
      var a2 := Update(a1, m0[100..], true);
      var b2 := Update(empty, m1, true);
      && a1.idx == 36 && a1.absorbed == m0[..64] && a1.buf[..36] == m0[64..100]
      && a2.idx == 0 && a2.absorbed == m0
      && b2.idx == 0 && b2.absorbed == m1 && b2.buf == m1
  {
    var empty := Lane(Zeros(BLOCK_SIZE), 0, []);
    var a1 := Update(empty, m0[..100], false);
    UpdateExtendsStream(empty, m0[..100], false);
    assert Stream(a1) == m0[..100];
    assert a1.absorbed == Stream(a1)[..64];
    assert a1.buf[..36] == Stream(a1)[64..];
    UpdateExtendsStream(a1, m0[100..], true);
    assert m0[..64] + m0[64..100] + m0[100..] == m0;
    assert TopUp(empty, m1).buf == m1;
    UpdateExtendsStream(empty, m1, true);
  }
}
