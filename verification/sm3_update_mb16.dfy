/**
 * mbx_sm3_update_mb16: one streaming update of 16 independent SM3 computations.
 *
 * The context holds, per lane, a 64-byte block buffer, the buffer index, the total
 * message length and the digest. The update masks out lanes without input, tops up
 * partially filled buffers (compressing those that become full), compresses every
 * whole block left in the input directly, parks the tail in the buffer, and commits
 * the lengths and indices of the active lanes.
 *
 * The SIMD registers of the source become sequences of 16 values that are computed
 * lane-wise in one step; the two scalar loops over the lanes stay loops. The digest is
 * represented by the ghost bytes each lane has absorbed (see module Sm3Lane). Each
 * phase is specified by a function on all 16 lanes as values, so that the lanes of the
 * context before and after the phase are related by one equation.
 */
module Sm3UpdateMb16 {
  import opened Sm3Lane

  /** SM3_NUM_BUFFERS */
  const NUM_BUFFERS: int := 16
  /** MSG_LEN counts bytes in an unsigned 64-bit integer. */
  const MSG_LEN_MODULUS: int := 0x1_0000_0000_0000_0000

  type int32 = x: int | -0x8000_0000 <= x < 0x8000_0000
  type uint64 = x: int | 0 <= x < 0x1_0000_0000_0000_0000

  /** A C pointer that may be null. */
  datatype Option<T> = None | Some(value: T)

  /** The status of one lane in mbx_status16. */
  datatype LaneStatus = StatusOk | NullParamErr

  /** A register or status word with the same value in every lane (MBX_SET_STS16_ALL,
      _mm512_set1_epi32). */
  function Splat<T>(v: T): seq<T>
  {
    seq(NUM_BUFFERS, _ => v)
  }

  /** The 64 zero bytes of `zero_buffer`, whose address inactive lanes read from. */
  const ZERO_BUFFER: seq<byte> := Zeros(BLOCK_SIZE)

  /** A lane is active when its message pointer is not null and its length is not 0. */
  predicate Active(msg: Option<seq<byte>>, n: int)
  {
    n != 0 && msg.Some?
  }

  /** The bytes a lane is fed by one call: its first n bytes when it is active, none
      otherwise. */
  function Fed(msg: Option<seq<byte>>, n: int): (data: seq<byte>)
    requires msg.Some? ==> 0 <= n <= |msg.value|
    ensures |data| == if Active(msg, n) then n else 0
  {
    if Active(msg, n) then msg.value[..n] else []
  }

  /** What the caller must pass per lane: a non-negative length, no bytes for a null
      pointer, and at least `len` readable bytes behind a non-null one. */
  predicate LanesWellFormed(msgPa: seq<Option<seq<byte>>>, len: seq<int32>)
  {
    |msgPa| == NUM_BUFFERS && |len| == NUM_BUFFERS &&
    forall i :: 0 <= i < NUM_BUFFERS ==>
      0 <= len[i] && (msgPa[i].None? ==> len[i] == 0) &&
      (msgPa[i].Some? ==> len[i] <= |msgPa[i].value|)
  }

  /** The bytes every lane is fed by one call. */
  function FedAll(msgPa: seq<Option<seq<byte>>>, len: seq<int32>): seq<seq<byte>>
    requires LanesWellFormed(msgPa, len)
  {
    seq(NUM_BUFFERS, i requires 0 <= i < NUM_BUFFERS => Fed(msgPa[i], len[i]))
  }

  /** A 16-bit lane mask is non-zero. */
  predicate Any(mask: seq<bool>)
  {
    exists i :: 0 <= i < |mask| && mask[i]
  }

  /** Per lane, `locLen[i]` source bytes from offset `off[i]` are readable: the window a
      phase reads through the lane's advanced pointer. */
  predicate Window(src: seq<seq<byte>>, off: seq<int>, locLen: seq<int>)
  {
    |src| == NUM_BUFFERS && |off| == NUM_BUFFERS && |locLen| == NUM_BUFFERS &&
    forall i :: 0 <= i < NUM_BUFFERS ==> 0 <= off[i] && 0 <= locLen[i] && off[i] + locLen[i] <= |src[i]|
  }

  /** Per lane, the first `len[i]` source bytes are readable. */
  predicate Prefixes(src: seq<seq<byte>>, len: seq<int>)
  {
    |src| == NUM_BUFFERS && |len| == NUM_BUFFERS &&
    forall i :: 0 <= i < NUM_BUFFERS ==> 0 <= len[i] <= |src[i]|
  }

  /** The first `len[i]` bytes of every lane's source. */
  function Prefix(src: seq<seq<byte>>, len: seq<int>): seq<seq<byte>>
    requires Prefixes(src, len)
  {
    seq(NUM_BUFFERS, i requires 0 <= i < NUM_BUFFERS => src[i][..len[i]])
  }

  /** The buffer index register holds a valid index for every lane. */
  predicate Indices(idx: seq<int>)
  {
    |idx| == NUM_BUFFERS && forall i :: 0 <= i < NUM_BUFFERS ==> 0 <= idx[i] < BLOCK_SIZE
  }

  /** The contents of HASH_BUFF: one 64-byte block per lane. */
  predicate BlockRows(rows: seq<seq<byte>>)
  {
    |rows| == NUM_BUFFERS && forall i :: 0 <= i < NUM_BUFFERS ==> |rows[i]| == BLOCK_SIZE
  }

  /** The 16 lanes of a context with blocks `rows`, indices `idx` and absorbed bytes `abs`. */
  function LanesOf(rows: seq<seq<byte>>, idx: seq<int>, abs: seq<seq<byte>>): (r: seq<Lane>)
    requires BlockRows(rows) && |idx| == NUM_BUFFERS && |abs| == NUM_BUFFERS
    ensures |r| == NUM_BUFFERS
    ensures Indices(idx) && (forall i :: 0 <= i < NUM_BUFFERS ==> |abs[i]| % BLOCK_SIZE == 0) ==> AllValid(r)
  {
    seq(NUM_BUFFERS, i requires 0 <= i < NUM_BUFFERS => Lane(rows[i], idx[i], abs[i]))
  }

  predicate AllValid(ls: seq<Lane>)
  {
    |ls| == NUM_BUFFERS && forall i :: 0 <= i < NUM_BUFFERS ==> Sm3Lane.Valid(ls[i])
  }

  /** Some lane holds buffered bytes; line 84 then runs the top-up phase for all lanes. */
  predicate AnyPartial(ls: seq<Lane>)
  {
    exists j :: 0 <= j < |ls| && ls[j].idx != 0
  }

  /** The copy of the top-up, on all 16 lanes. */
  function CopyInAll(ls: seq<Lane>, data: seq<seq<byte>>): seq<Lane>
    requires AllValid(ls) && |data| == NUM_BUFFERS
  {
    seq(NUM_BUFFERS, i requires 0 <= i < NUM_BUFFERS => CopyIn(ls[i], data[i]))
  }

  /** The compression of full buffers, on all 16 lanes. */
  function CompressAll(ls: seq<Lane>): seq<Lane>
    requires |ls| == NUM_BUFFERS
  {
    seq(NUM_BUFFERS, i requires 0 <= i < NUM_BUFFERS => CompressIfFull(ls[i]))
  }

  /** The top-up, on all 16 lanes. */
  function TopUpAll(ls: seq<Lane>, data: seq<seq<byte>>): seq<Lane>
    requires AllValid(ls) && |data| == NUM_BUFFERS
  {
    seq(NUM_BUFFERS, i requires 0 <= i < NUM_BUFFERS => TopUp(ls[i], data[i]))
  }

  /** The bulk phase on all 16 lanes, lane i taking locLen[i] bytes from off[i]. */
  function BulkAll(ls: seq<Lane>, src: seq<seq<byte>>, off: seq<int>, locLen: seq<int>): seq<Lane>
    requires |ls| == NUM_BUFFERS && Window(src, off, locLen)
  {
    seq(NUM_BUFFERS, i requires 0 <= i < NUM_BUFFERS => Bulk(ls[i], src[i][off[i]..off[i] + locLen[i]]))
  }

  /** The remainder phase on all 16 lanes. */
  function RemainderAll(ls: seq<Lane>, src: seq<seq<byte>>, off: seq<int>, locLen: seq<int>): seq<Lane>
    requires |ls| == NUM_BUFFERS && Window(src, off, locLen)
    requires forall i :: 0 <= i < NUM_BUFFERS ==> locLen[i] < BLOCK_SIZE
  {
    seq(NUM_BUFFERS, i requires 0 <= i < NUM_BUFFERS => Remainder(ls[i], src[i][off[i]..off[i] + locLen[i]]))
  }

  /** Every lane's Update, all taking the same top-up decision. */
  function UpdateAll(ls: seq<Lane>, data: seq<seq<byte>>, topUp: bool): (r: seq<Lane>)
    requires AllValid(ls) && |data| == NUM_BUFFERS
    requires !topUp ==> forall i :: 0 <= i < NUM_BUFFERS ==> ls[i].idx == 0
    ensures AllValid(r)
  {
    seq(NUM_BUFFERS, i requires 0 <= i < NUM_BUFFERS => Update(ls[i], data[i], topUp))
  }

  /** What the compression primitive does to the absorbed bytes of all lanes: lane i
      absorbs the first counts[i] bytes of data[i] when that count is positive. */
  function Appended(abs: seq<seq<byte>>, data: seq<seq<byte>>, counts: seq<int>): seq<seq<byte>>
    requires |abs| == NUM_BUFFERS && |data| == NUM_BUFFERS && |counts| == NUM_BUFFERS
    requires forall i :: 0 <= i < NUM_BUFFERS ==> 0 <= counts[i] <= |data[i]|
  {
    seq(NUM_BUFFERS, i requires 0 <= i < NUM_BUFFERS =>
      if counts[i] > 0 then abs[i] + data[i][..counts[i]] else abs[i])
  }

  /** A masked store into a block: `bytes` land at offset `at`, every other byte keeps
      its value; a store of a whole block replaces it. */
  function Splice(b: seq<byte>, at: int, bytes: seq<byte>): (r: seq<byte>)
    requires 0 <= at && at + |bytes| <= |b|
    ensures |r| == |b|
  {
    if |bytes| == |b| then bytes else b[..at] + bytes + b[at + |bytes|..]
  }

  /** Byte k of a spliced area. */
  lemma SpliceAt(b: seq<byte>, at: int, bytes: seq<byte>, k: int)
    requires 0 <= at && at + |bytes| <= |b| && 0 <= k < |b|
    ensures Splice(b, at, bytes)[k] == if at <= k < at + |bytes| then bytes[k - at] else b[k]
  {
  }

  /** What a loop of masked stores over the lanes may write: lane i of the mask writes
      `w[i]` into its own block from offset `at[i]`. */
  predicate StoreBounds(rows: seq<seq<byte>>, mask: seq<bool>, at: seq<int>, w: seq<seq<byte>>)
  {
    BlockRows(rows) && |mask| == NUM_BUFFERS && |at| == NUM_BUFFERS && |w| == NUM_BUFFERS &&
    forall i :: 0 <= i < NUM_BUFFERS && mask[i] ==> 0 <= at[i] && at[i] + |w[i]| <= BLOCK_SIZE
  }

  /** The blocks after the first n iterations of such a loop. */
  function Stored(rows: seq<seq<byte>>, mask: seq<bool>, at: seq<int>, w: seq<seq<byte>>, n: int): (r: seq<seq<byte>>)
    requires StoreBounds(rows, mask, at, w) && 0 <= n <= NUM_BUFFERS
    ensures BlockRows(r)
    decreases n
  {
    if n == 0 then rows
    else
      var prev := Stored(rows, mask, at, w, n - 1);
      if mask[n - 1] then prev[n - 1 := Splice(prev[n - 1], at[n - 1], w[n - 1])] else prev
  }

  /** After n iterations of the store loop, lane l's block has been written by its own
      store when l is among the first n lanes and in the mask, and is untouched
      otherwise. */
  lemma {:induction false} StoredBlock(rows: seq<seq<byte>>, mask: seq<bool>, at: seq<int>, w: seq<seq<byte>>, n: int, l: int)
    requires StoreBounds(rows, mask, at, w) && 0 <= n <= NUM_BUFFERS && 0 <= l < NUM_BUFFERS
    ensures Stored(rows, mask, at, w, n)[l] ==
      if l < n && mask[l] then Splice(rows[l], at[l], w[l]) else rows[l]
    decreases n
  {
    if n > 0 {
      StoredBlock(rows, mask, at, w, n - 1, l);
    }
  }

  /** The masked store of line 100, seen on one lane: the block with the first p bytes
      of the input written at the index, and the index advanced by p, is CopyIn. */
  lemma CopiedLane(l: Lane, data: seq<byte>, active: bool, n: int, row: seq<byte>)
    requires 0 <= l.idx < |l.buf| == BLOCK_SIZE && 0 <= n <= |data|
    requires !active ==> n == 0
    requires row == if active then Splice(l.buf, l.idx, data[..TopUpCount(l.idx, n)]) else l.buf
    ensures Lane(row, l.idx + TopUpCount(l.idx, n), l.absorbed) == CopyIn(l, data[..n])
  {
    assert data[..n][..TopUpCount(l.idx, n)] == data[..TopUpCount(l.idx, n)];
    if !active {
      assert l.buf[..l.idx] + l.buf[l.idx..] == l.buf;
    }
  }

  /** The copy of the top-up on the whole buffer area: the stores of lines 97-102, with
      the indices advanced, are CopyIn of every lane. */
  lemma CopiedLanes(b0: seq<seq<byte>>, idx: seq<int>, abs: seq<seq<byte>>, mask: seq<bool>,
                    src: seq<seq<byte>>, locLen: seq<int>, procLen: seq<int>, w: seq<seq<byte>>, idx': seq<int>)
    requires Indices(idx) && |abs| == NUM_BUFFERS
    requires forall i :: 0 <= i < NUM_BUFFERS ==> |abs[i]| % BLOCK_SIZE == 0
    requires Prefixes(src, locLen) && |procLen| == NUM_BUFFERS && |idx'| == NUM_BUFFERS
    requires forall i :: 0 <= i < NUM_BUFFERS ==>
      procLen[i] == TopUpCount(idx[i], locLen[i]) && idx'[i] == idx[i] + procLen[i]
    requires StoreBounds(b0, mask, idx, w)
    requires forall i :: 0 <= i < NUM_BUFFERS ==>
      (!mask[i] ==> locLen[i] == 0) && (mask[i] ==> 0 <= procLen[i] <= locLen[i] && w[i] == src[i][..procLen[i]])
    ensures LanesOf(Stored(b0, mask, idx, w, NUM_BUFFERS), idx', abs) == CopyInAll(LanesOf(b0, idx, abs), Prefix(src, locLen))
  {
    var b1 := Stored(b0, mask, idx, w, NUM_BUFFERS);
    forall i | 0 <= i < NUM_BUFFERS
      ensures LanesOf(b1, idx', abs)[i] == CopyInAll(LanesOf(b0, idx, abs), Prefix(src, locLen))[i]
    {
      StoredBlock(b0, mask, idx, w, NUM_BUFFERS, i);
      CopiedLane(LanesOf(b0, idx, abs)[i], src[i], mask[i], locLen[i], b1[i]);
    }
  }

  /** The zero-masked load of line 137, seen on one lane: the block holding the tail and
      zeros, with the index advanced by the tail length, is Remainder. */
  lemma TailLane(l: Lane, tail: seq<byte>, row: seq<byte>)
    requires |l.buf| == BLOCK_SIZE && |tail| < BLOCK_SIZE
    requires row == if |tail| > 0 then Splice(l.buf, 0, tail + Zeros(BLOCK_SIZE - |tail|)) else l.buf
    ensures Lane(row, l.idx + |tail|, l.absorbed) == Remainder(l, tail)
  {
    if |tail| > 0 {
      assert Splice(l.buf, 0, tail + Zeros(BLOCK_SIZE - |tail|)) == tail + Zeros(BLOCK_SIZE - |tail|);
    }
  }

  /** The tail stores of lines 134-139, with the indices advanced by the tail lengths,
      are Remainder of every lane. */
  lemma StoredTails(b0: seq<seq<byte>>, idx: seq<int>, abs: seq<seq<byte>>, src: seq<seq<byte>>, off: seq<int>,
                    locLen: seq<int>, mask: seq<bool>, at: seq<int>, w: seq<seq<byte>>, idx': seq<int>)
    requires |idx| == NUM_BUFFERS && |abs| == NUM_BUFFERS && |idx'| == NUM_BUFFERS
    requires Window(src, off, locLen) && StoreBounds(b0, mask, at, w)
    requires forall i :: 0 <= i < NUM_BUFFERS ==>
      locLen[i] < BLOCK_SIZE && mask[i] == (locLen[i] > 0) && at[i] == 0 && idx'[i] == idx[i] + locLen[i] &&
      (mask[i] ==> w[i] == src[i][off[i]..off[i] + locLen[i]] + Zeros(BLOCK_SIZE - locLen[i]))
    ensures LanesOf(Stored(b0, mask, at, w, NUM_BUFFERS), idx', abs) == RemainderAll(LanesOf(b0, idx, abs), src, off, locLen)
  {
    forall i | 0 <= i < NUM_BUFFERS
      ensures LanesOf(Stored(b0, mask, at, w, NUM_BUFFERS), idx', abs)[i] == RemainderAll(LanesOf(b0, idx, abs), src, off, locLen)[i]
    {
      StoredTailOnLane(b0, idx, abs, src, off, locLen, mask, at, w, idx', i);
    }
  }

  /** StoredTails on lane i. */
  lemma StoredTailOnLane(b0: seq<seq<byte>>, idx: seq<int>, abs: seq<seq<byte>>, src: seq<seq<byte>>, off: seq<int>,
                         locLen: seq<int>, mask: seq<bool>, at: seq<int>, w: seq<seq<byte>>, idx': seq<int>, i: int)
    requires |idx| == NUM_BUFFERS && |abs| == NUM_BUFFERS && |idx'| == NUM_BUFFERS
    requires Window(src, off, locLen) && StoreBounds(b0, mask, at, w)
    requires forall i :: 0 <= i < NUM_BUFFERS ==>
      locLen[i] < BLOCK_SIZE && mask[i] == (locLen[i] > 0) && at[i] == 0 && idx'[i] == idx[i] + locLen[i] &&
      (mask[i] ==> w[i] == src[i][off[i]..off[i] + locLen[i]] + Zeros(BLOCK_SIZE - locLen[i]))
    requires 0 <= i < NUM_BUFFERS
    ensures LanesOf(Stored(b0, mask, at, w, NUM_BUFFERS), idx', abs)[i] == RemainderAll(LanesOf(b0, idx, abs), src, off, locLen)[i]
  {
    var l0 := Lane(b0[i], idx[i], abs[i]);
    var tail := src[i][off[i]..off[i] + locLen[i]];
    var row := Stored(b0, mask, at, w, NUM_BUFFERS)[i];
    StoredBlock(b0, mask, at, w, NUM_BUFFERS, i);
    assert |tail| == locLen[i];
    assert row == if |tail| > 0 then Splice(l0.buf, 0, tail + Zeros(BLOCK_SIZE - |tail|)) else l0.buf;
    TailLane(l0, tail, row);
    RemainderAllAt(LanesOf(b0, idx, abs), src, off, locLen, i);
  }

  /** Lane i of RemainderAll. */
  lemma RemainderAllAt(ls: seq<Lane>, src: seq<seq<byte>>, off: seq<int>, locLen: seq<int>, i: int)
    requires |ls| == NUM_BUFFERS && Window(src, off, locLen)
    requires forall i :: 0 <= i < NUM_BUFFERS ==> locLen[i] < BLOCK_SIZE
    requires 0 <= i < NUM_BUFFERS
    ensures RemainderAll(ls, src, off, locLen)[i] == Remainder(ls[i], src[i][off[i]..off[i] + locLen[i]])
  {
  }

  /** Line 125, seen on one lane: compressing the first p = loc_len & -64 bytes read
      through the pointer advanced by off is Bulk on the window of n bytes there. */
  lemma BulkLane(l: Lane, s: seq<byte>, off: int, n: int, from: seq<byte>, p: int)
    requires 0 <= off && 0 <= n && off + n <= |s| && from == s[off..]
    requires p == WholeBlocks(n) && 0 <= p <= |from|
    ensures Lane(l.buf, l.idx, if p > 0 then l.absorbed + from[..p] else l.absorbed) == Bulk(l, s[off..off + n])
  {
    assert from[..p] == s[off..off + n][..p];
  }

  /** The bulk phase is the compression primitive fed, per lane, from the advanced
      pointer with the whole blocks of what is left. */
  lemma BulkAppends(buf: seq<seq<byte>>, idx: seq<int>, abs: seq<seq<byte>>, src: seq<seq<byte>>,
                    off: seq<int>, locLen: seq<int>, from: seq<seq<byte>>, procLen: seq<int>)
    requires BlockRows(buf) && |idx| == NUM_BUFFERS && |abs| == NUM_BUFFERS
    requires Window(src, off, locLen) && |from| == NUM_BUFFERS && |procLen| == NUM_BUFFERS
    requires forall i :: 0 <= i < NUM_BUFFERS ==>
      from[i] == src[i][off[i]..] && procLen[i] == WholeBlocks(locLen[i]) && 0 <= procLen[i] <= |from[i]|
    ensures LanesOf(buf, idx, Appended(abs, from, procLen)) == BulkAll(LanesOf(buf, idx, abs), src, off, locLen)
  {
    forall i | 0 <= i < NUM_BUFFERS
      ensures LanesOf(buf, idx, Appended(abs, from, procLen))[i] == BulkAll(LanesOf(buf, idx, abs), src, off, locLen)[i]
    {
      BulkAppendsOnLane(buf, idx, abs, src, off, locLen, from, procLen, i);
    }
  }

  /** BulkAppends on lane i. */
  lemma BulkAppendsOnLane(buf: seq<seq<byte>>, idx: seq<int>, abs: seq<seq<byte>>, src: seq<seq<byte>>,
                          off: seq<int>, locLen: seq<int>, from: seq<seq<byte>>, procLen: seq<int>, i: int)
    requires BlockRows(buf) && |idx| == NUM_BUFFERS && |abs| == NUM_BUFFERS
    requires Window(src, off, locLen) && |from| == NUM_BUFFERS && |procLen| == NUM_BUFFERS
    requires forall i :: 0 <= i < NUM_BUFFERS ==>
      from[i] == src[i][off[i]..] && procLen[i] == WholeBlocks(locLen[i]) && 0 <= procLen[i] <= |from[i]|
    requires 0 <= i < NUM_BUFFERS
    ensures LanesOf(buf, idx, Appended(abs, from, procLen))[i] == BulkAll(LanesOf(buf, idx, abs), src, off, locLen)[i]
  {
    BulkLane(LanesOf(buf, idx, abs)[i], src[i], off[i], locLen[i], from[i], procLen[i]);
  }

  /** The three phases, with the registers the call keeps between them, compute every
      lane's Update. */
  lemma PhasesComposeToUpdate(w0: seq<Lane>, src: seq<seq<byte>>, len: seq<int>, topUp: bool,
                              off: seq<int>, locLen: seq<int>, w1: seq<Lane>,
                              off2: seq<int>, locLen2: seq<int>, w2: seq<Lane>, w3: seq<Lane>)
    requires PhaseRegisters(w0, src, len, topUp, off, locLen, w1, off2, locLen2, w2, w3)
    ensures w3 == UpdateAll(w0, Prefix(src, len), topUp)
  {
    forall i | 0 <= i < NUM_BUFFERS
      ensures w3[i] == UpdateAll(w0, Prefix(src, len), topUp)[i]
    {
      PhasesComposeOnLane(w0, src, len, topUp, off, locLen, w1, off2, locLen2, w2, w3, i);
    }
  }

  /** The registers and lanes between the phases of one call: the top-up (when it runs)
      takes `off` bytes of every lane's first len[i], the bulk phase the whole blocks of
      the locLen[i] bytes after them, and the remainder phase what is left. */
  predicate PhaseRegisters(w0: seq<Lane>, src: seq<seq<byte>>, len: seq<int>, topUp: bool,
                           off: seq<int>, locLen: seq<int>, w1: seq<Lane>,
                           off2: seq<int>, locLen2: seq<int>, w2: seq<Lane>, w3: seq<Lane>)
  {
    AllValid(w0) && Prefixes(src, len) &&
    (!topUp ==> forall i :: 0 <= i < NUM_BUFFERS ==> w0[i].idx == 0) &&
    |off| == NUM_BUFFERS && |locLen| == NUM_BUFFERS && |off2| == NUM_BUFFERS && |locLen2| == NUM_BUFFERS &&
    (forall i :: 0 <= i < NUM_BUFFERS ==>
      off[i] == (if topUp then TopUpCount(w0[i].idx, len[i]) else 0) && locLen[i] == len[i] - off[i] &&
      off2[i] == off[i] + WholeBlocks(locLen[i]) && locLen2[i] == locLen[i] - WholeBlocks(locLen[i])) &&
    w1 == (if topUp then TopUpAll(w0, Prefix(src, len)) else w0) &&
    Window(src, off, locLen) && w2 == BulkAll(w1, src, off, locLen) &&
    Window(src, off2, locLen2) &&
    (forall i :: 0 <= i < NUM_BUFFERS ==> locLen2[i] < BLOCK_SIZE) && w3 == RemainderAll(w2, src, off2, locLen2)
  }

  /** PhasesComposeToUpdate on lane i. */
  lemma PhasesComposeOnLane(w0: seq<Lane>, src: seq<seq<byte>>, len: seq<int>, topUp: bool,
                            off: seq<int>, locLen: seq<int>, w1: seq<Lane>,
                            off2: seq<int>, locLen2: seq<int>, w2: seq<Lane>, w3: seq<Lane>, i: int)
    requires PhaseRegisters(w0, src, len, topUp, off, locLen, w1, off2, locLen2, w2, w3)
    requires 0 <= i < NUM_BUFFERS
    ensures w3[i] == UpdateAll(w0, Prefix(src, len), topUp)[i]
  {
    PointerPhasesMakeUpdate(w0[i], src[i], len[i], topUp, off[i], locLen[i], w1[i], off2[i], locLen2[i], w2[i], w3[i]);
  }

  /** One call, all lanes: every lane's stream grows by exactly the bytes it is fed and
      its index ends at the new stream length modulo the block size. */
  lemma {:induction false} UpdateAllExtendsStreams(ls: seq<Lane>, data: seq<seq<byte>>, topUp: bool)
    requires AllValid(ls) && |data| == NUM_BUFFERS
    requires !topUp ==> forall i :: 0 <= i < NUM_BUFFERS ==> ls[i].idx == 0
    ensures forall i :: 0 <= i < NUM_BUFFERS ==>
      Stream(UpdateAll(ls, data, topUp)[i]) == Stream(ls[i]) + data[i] &&
      UpdateAll(ls, data, topUp)[i].idx == (ls[i].idx + |data[i]|) % BLOCK_SIZE
  {
    forall i | 0 <= i < NUM_BUFFERS
      ensures Stream(UpdateAll(ls, data, topUp)[i]) == Stream(ls[i]) + data[i]
      ensures UpdateAll(ls, data, topUp)[i].idx == (ls[i].idx + |data[i]|) % BLOCK_SIZE
    {
      UpdateAllExtendsStreamOnLane(ls, data, topUp, i);
    }
  }

  /** UpdateAllExtendsStreams on lane i. */
  lemma UpdateAllExtendsStreamOnLane(ls: seq<Lane>, data: seq<seq<byte>>, topUp: bool, i: int)
    requires AllValid(ls) && |data| == NUM_BUFFERS
    requires !topUp ==> forall i :: 0 <= i < NUM_BUFFERS ==> ls[i].idx == 0
    requires 0 <= i < NUM_BUFFERS
    ensures Stream(UpdateAll(ls, data, topUp)[i]) == Stream(ls[i]) + data[i]
    ensures UpdateAll(ls, data, topUp)[i].idx == (ls[i].idx + |data[i]|) % BLOCK_SIZE
  {
    UpdateAllAt(ls, data, topUp, i);
    UpdateExtendsStream(ls[i], data[i], topUp);
  }

  /** Lane i of UpdateAll. */
  lemma UpdateAllAt(ls: seq<Lane>, data: seq<seq<byte>>, topUp: bool, i: int)
    requires AllValid(ls) && |data| == NUM_BUFFERS
    requires !topUp ==> forall i :: 0 <= i < NUM_BUFFERS ==> ls[i].idx == 0
    requires 0 <= i < NUM_BUFFERS
    ensures UpdateAll(ls, data, topUp)[i] == Update(ls[i], data[i], topUp)
  {
  }

  /** One call, all lanes: a lane fed no bytes is left exactly as it was. */
  lemma {:induction false} UpdateAllKeepsIdleLanes(ls: seq<Lane>, data: seq<seq<byte>>, topUp: bool)
    requires AllValid(ls) && |data| == NUM_BUFFERS
    requires !topUp ==> forall i :: 0 <= i < NUM_BUFFERS ==> ls[i].idx == 0
    ensures forall i :: 0 <= i < NUM_BUFFERS && data[i] == [] ==> UpdateAll(ls, data, topUp)[i] == ls[i]
  {
    forall i | 0 <= i < NUM_BUFFERS && data[i] == []
      ensures UpdateAll(ls, data, topUp)[i] == ls[i]
    {
      EmptyInputChangesNothing(ls[i], topUp);
    }
  }

  /** A masked register load or store: lanes in the mask take `a`, the others keep `b`. */
  function Select(mask: seq<bool>, a: seq<int>, b: seq<int>): seq<int>
    requires |mask| == NUM_BUFFERS && |a| == NUM_BUFFERS && |b| == NUM_BUFFERS
  {
    seq(NUM_BUFFERS, i requires 0 <= i < NUM_BUFFERS => if mask[i] then a[i] else b[i])
  }

  /** Lane-wise addition of two registers (_mm512_add_epi32 / _mm512_add_epi64 on
      values that stay in range). */
  function LaneAdd(a: seq<int>, b: seq<int>): seq<int>
    requires |a| == NUM_BUFFERS && |b| == NUM_BUFFERS
  {
    seq(NUM_BUFFERS, i requires 0 <= i < NUM_BUFFERS => a[i] + b[i])
  }

  /** Lane-wise subtraction of two registers (_mm512_sub_epi32 on values that stay in
      range). */
  function LaneSub(a: seq<int>, b: seq<int>): seq<int>
    requires |a| == NUM_BUFFERS && |b| == NUM_BUFFERS
  {
    seq(NUM_BUFFERS, i requires 0 <= i < NUM_BUFFERS => a[i] - b[i])
  }

  /** Line 121: every lane's length rounded down to whole blocks. */
  function BlockPortions(locLen: seq<int>): seq<int>
    requires |locLen| == NUM_BUFFERS && forall i :: 0 <= i < NUM_BUFFERS ==> 0 <= locLen[i]
  {
    seq(NUM_BUFFERS, i requires 0 <= i < NUM_BUFFERS => WholeBlocks(locLen[i]))
  }

  /** Line 122: the mask of lanes whose register value is not less than zero. */
  function NonNegative(v: seq<int>): seq<bool>
    requires |v| == NUM_BUFFERS
  {
    seq(NUM_BUFFERS, i requires 0 <= i < NUM_BUFFERS => v[i] >= 0)
  }

  /** Line 84: the mask of lanes whose register value is not zero. */
  function NonZero(v: seq<int>): seq<bool>
    requires |v| == NUM_BUFFERS
  {
    seq(NUM_BUFFERS, i requires 0 <= i < NUM_BUFFERS => v[i] != 0)
  }

  /** Line 131: the mask of lanes whose register value is greater than zero. */
  function Positive(v: seq<int>): seq<bool>
    requires |v| == NUM_BUFFERS
  {
    seq(NUM_BUFFERS, i requires 0 <= i < NUM_BUFFERS => v[i] > 0)
  }

  /** Line 137: for a lane in the mask, the 64 bytes a zero-masked load of its
      remaining locLen[i] bytes produces; nothing for the other lanes. */
  function Tails(src: seq<seq<byte>>, off: seq<int>, locLen: seq<int>, mask: seq<bool>): seq<seq<byte>>
    requires Window(src, off, locLen) && |mask| == NUM_BUFFERS
    requires forall i :: 0 <= i < NUM_BUFFERS ==> locLen[i] <= BLOCK_SIZE
  {
    seq(NUM_BUFFERS, i requires 0 <= i < NUM_BUFFERS =>
      if mask[i] then src[i][off[i]..off[i] + locLen[i]] + Zeros(BLOCK_SIZE - locLen[i]) else [])
  }

  /** The lanes' source pointers advanced by `off` bytes. */
  function Advanced(src: seq<seq<byte>>, off: seq<int>): seq<seq<byte>>
    requires |src| == NUM_BUFFERS && |off| == NUM_BUFFERS
    requires forall i :: 0 <= i < NUM_BUFFERS ==> 0 <= off[i] <= |src[i]|
  {
    seq(NUM_BUFFERS, i requires 0 <= i < NUM_BUFFERS => src[i][off[i]..])
  }

  /** MSG_LEN after a call: an active lane adds its length, modulo 2^64; the others
      keep theirs. */
  function LengthsAfter(lens: seq<int>, msgPa: seq<Option<seq<byte>>>, len: seq<int32>): seq<int>
    requires |lens| == NUM_BUFFERS && LanesWellFormed(msgPa, len)
  {
    seq(NUM_BUFFERS, i requires 0 <= i < NUM_BUFFERS =>
      if Active(msgPa[i], len[i]) then (lens[i] + len[i]) % MSG_LEN_MODULUS else lens[i])
  }

  /** Lines 73-87 and 144-145: the sums start as the lengths, the active lanes add their
      old MSG_LEN, and only the active lanes' sums are stored. */
  lemma {:induction false} CommittedLengths(lens: seq<int>, msgPa: seq<Option<seq<byte>>>, len: seq<int32>,
                                             mask: seq<bool>, sum: seq<int>)
    requires |lens| == NUM_BUFFERS && LanesWellFormed(msgPa, len)
    requires mask == ActiveMask(msgPa, len) && sum == SumMsgLen(lens, len, mask)
    ensures Select(mask, sum, lens) == LengthsAfter(lens, msgPa, len)
  {
    forall i | 0 <= i < NUM_BUFFERS
      ensures Select(mask, sum, lens)[i] == LengthsAfter(lens, msgPa, len)[i]
    {
    }
  }

  /** mb_mask16 (lines 48-56): the lanes whose length is not 0 and whose pointer is not
      null. */
  function ActiveMask(msgPa: seq<Option<seq<byte>>>, len: seq<int32>): (m: seq<bool>)
    requires |msgPa| == NUM_BUFFERS && |len| == NUM_BUFFERS
    ensures |m| == NUM_BUFFERS
    ensures forall i :: 0 <= i < NUM_BUFFERS ==> (m[i] <==> len[i] != 0 && msgPa[i].Some?)
  {
    seq(NUM_BUFFERS, i requires 0 <= i < NUM_BUFFERS => Active(msgPa[i], len[i]))
  }

  /** Lines 62-64: the pointer each lane reads from; an inactive lane reads the zero
      buffer. */
  function Sources(msgPa: seq<Option<seq<byte>>>, mask: seq<bool>): seq<seq<byte>>
    requires |msgPa| == NUM_BUFFERS && |mask| == NUM_BUFFERS
    requires forall i :: 0 <= i < NUM_BUFFERS && mask[i] ==> msgPa[i].Some?
  {
    seq(NUM_BUFFERS, i requires 0 <= i < NUM_BUFFERS => if mask[i] then msgPa[i].value else ZERO_BUFFER)
  }

  /** Lines 73-87: the 64-bit sums, the length of every lane plus, for an active lane,
      its old MSG_LEN, modulo 2^64. */
  function SumMsgLen(lens: seq<int>, len: seq<int32>, mask: seq<bool>): seq<int>
    requires |lens| == NUM_BUFFERS && |len| == NUM_BUFFERS && |mask| == NUM_BUFFERS
  {
    seq(NUM_BUFFERS, i requires 0 <= i < NUM_BUFFERS =>
      if mask[i] then (lens[i] + len[i]) % MSG_LEN_MODULUS else len[i] as int)
  }

  /** Lines 62-64: with inactive lanes reading the zero buffer, the first len[i] bytes
      read through every lane's pointer are the bytes it is fed. */
  lemma FedThroughPointers(msgPa: seq<Option<seq<byte>>>, len: seq<int32>, mask: seq<bool>, src: seq<seq<byte>>)
    requires LanesWellFormed(msgPa, len) && mask == ActiveMask(msgPa, len)
    requires src == Sources(msgPa, mask)
    ensures Prefixes(src, len) && Prefix(src, len) == FedAll(msgPa, len)
    ensures forall i :: 0 <= i < NUM_BUFFERS && !mask[i] ==> len[i] == 0
  {
    forall i | 0 <= i < NUM_BUFFERS
      ensures 0 <= len[i] <= |src[i]| && (!mask[i] ==> len[i] == 0)
    {
    }
    forall i | 0 <= i < NUM_BUFFERS
      ensures Prefix(src, len)[i] == FedAll(msgPa, len)[i]
    {
    }
  }

  /** No byte at or beyond len[i] matters: two calls whose message arrays have the same
      null pointers and agree on the first len[i] bytes of every lane feed every lane
      the same bytes, so they leave the context in the same state. */
  lemma {:induction false} BytesBeyondLengthUnread(msgPa: seq<Option<seq<byte>>>, msgPb: seq<Option<seq<byte>>>,
                                                    len: seq<int32>)
    requires LanesWellFormed(msgPa, len) && LanesWellFormed(msgPb, len)
    requires forall i :: 0 <= i < NUM_BUFFERS ==>
      msgPa[i].Some? == msgPb[i].Some? && (msgPa[i].Some? ==> msgPa[i].value[..len[i]] == msgPb[i].value[..len[i]])
    ensures FedAll(msgPa, len) == FedAll(msgPb, len)
    ensures ActiveMask(msgPa, len) == ActiveMask(msgPb, len)
  {
    forall i | 0 <= i < NUM_BUFFERS
      ensures FedAll(msgPa, len)[i] == FedAll(msgPb, len)[i]
      ensures ActiveMask(msgPa, len)[i] == ActiveMask(msgPb, len)[i]
    {
    }
  }

  /** With no active lane, no length changes. */
  lemma NothingActiveKeepsLengths(lens: seq<int>, msgPa: seq<Option<seq<byte>>>, len: seq<int32>, mask: seq<bool>)
    requires |lens| == NUM_BUFFERS && LanesWellFormed(msgPa, len) && mask == ActiveMask(msgPa, len) && !Any(mask)
    ensures LengthsAfter(lens, msgPa, len) == lens
  {
    forall i | 0 <= i < NUM_BUFFERS
      ensures LengthsAfter(lens, msgPa, len)[i] == lens[i]
    {
      assert !mask[i];
    }
  }

  /** A lane outside the mask of lines 48-56 is fed nothing. */
  lemma InactiveLanesFedNothing(msgPa: seq<Option<seq<byte>>>, len: seq<int32>, mask: seq<bool>)
    requires LanesWellFormed(msgPa, len) && |mask| == NUM_BUFFERS
    requires forall i :: 0 <= i < NUM_BUFFERS ==> mask[i] == Active(msgPa[i], len[i])
    ensures forall i :: 0 <= i < NUM_BUFFERS && !mask[i] ==> FedAll(msgPa, len)[i] == []
  {
    forall i | 0 <= i < NUM_BUFFERS && !mask[i]
      ensures FedAll(msgPa, len)[i] == []
    {
      assert FedAll(msgPa, len)[i] == Fed(msgPa[i], len[i]);
    }
  }

  /** With an all-zero mask (line 61) no lane is fed anything, so every lane is already
      what the update would make of it. */
  lemma {:induction false} NothingFedNothingChanges(ls: seq<Lane>, data: seq<seq<byte>>, topUp: bool, mask: seq<bool>)
    requires AllValid(ls) && |data| == NUM_BUFFERS && |mask| == NUM_BUFFERS
    requires !topUp ==> forall i :: 0 <= i < NUM_BUFFERS ==> ls[i].idx == 0
    requires !Any(mask) && forall i :: 0 <= i < NUM_BUFFERS && !mask[i] ==> data[i] == []
    ensures UpdateAll(ls, data, topUp) == ls
  {
    UpdateAllKeepsIdleLanes(ls, data, topUp);
    forall i | 0 <= i < NUM_BUFFERS
      ensures UpdateAll(ls, data, topUp)[i] == ls[i]
    {
      assert !mask[i];
    }
  }

  /** Writing back only the indices of the lanes in the mask (line 146) leaves every lane
      at the index the update computed, because a lane outside the mask is fed nothing
      and keeps its index. */
  lemma {:induction false} IdleIndicesKept(ls: seq<Lane>, msgPa: seq<Option<seq<byte>>>, len: seq<int32>, topUp: bool,
                                            mask: seq<bool>, idx: seq<int>, rows: seq<seq<byte>>, abs: seq<seq<byte>>,
                                            idx': seq<int>)
    requires AllValid(ls) && LanesWellFormed(msgPa, len) && mask == ActiveMask(msgPa, len)
    requires !topUp ==> forall i :: 0 <= i < NUM_BUFFERS ==> ls[i].idx == 0
    requires |idx| == NUM_BUFFERS && forall i :: 0 <= i < NUM_BUFFERS ==> ls[i].idx == idx[i]
    requires BlockRows(rows) && |abs| == NUM_BUFFERS && |idx'| == NUM_BUFFERS
    requires LanesOf(rows, idx', abs) == UpdateAll(ls, FedAll(msgPa, len), topUp)
    ensures Select(mask, idx', idx) == idx'
  {
    var fed := FedAll(msgPa, len);
    InactiveLanesFedNothing(msgPa, len, mask);
    UpdateAllKeepsIdleLanes(ls, fed, topUp);
    forall i | 0 <= i < NUM_BUFFERS
      ensures Select(mask, idx', idx)[i] == idx'[i]
    {
      assert idx'[i] == LanesOf(rows, idx', abs)[i].idx;
    }
  }

  /** SM3_CTX_mb16 */
  class Sm3CtxMb16 {
    /** HASH_BUFF: one block of BLOCK_SIZE bytes per lane. */
    const msgBuffer: array2<byte>
    /** HASH_BUFFIDX: the number of valid bytes in each lane's block. */
    const buffIdx: array<int>
    /** MSG_LEN: the number of message bytes each lane has been fed. */
    const msgLen: array<uint64>
    /** HASH_VALUE, represented by the bytes each lane's digest has absorbed. */
    ghost var absorbed: seq<seq<byte>>

    ghost predicate Valid()
      reads this, buffIdx
    {
      msgBuffer.Length0 == NUM_BUFFERS && msgBuffer.Length1 == BLOCK_SIZE && buffIdx.Length == NUM_BUFFERS &&
      msgLen.Length == NUM_BUFFERS && |absorbed| == NUM_BUFFERS &&
      forall i :: 0 <= i < NUM_BUFFERS ==>
        0 <= buffIdx[i] < BLOCK_SIZE && |absorbed[i]| % BLOCK_SIZE == 0
    }

    /** The blocks of HASH_BUFF as values. */
    ghost function Blocks(): (r: seq<seq<byte>>)
      reads this, msgBuffer
      requires msgBuffer.Length0 == NUM_BUFFERS && msgBuffer.Length1 == BLOCK_SIZE
      ensures BlockRows(r)
      ensures forall i, j :: 0 <= i < NUM_BUFFERS && 0 <= j < BLOCK_SIZE ==> r[i][j] == msgBuffer[i, j]
    {
      var a := msgBuffer;
      seq(NUM_BUFFERS, i requires 0 <= i < NUM_BUFFERS reads a =>
        seq(BLOCK_SIZE, j requires 0 <= j < BLOCK_SIZE reads a => a[i, j]))
    }

    /** All lanes while the update keeps their buffer indices in the register idx. */
    ghost function WorkLanes(idx: seq<int>): (r: seq<Lane>)
      reads this, msgBuffer
      requires msgBuffer.Length0 == NUM_BUFFERS && msgBuffer.Length1 == BLOCK_SIZE
      requires |absorbed| == NUM_BUFFERS && |idx| == NUM_BUFFERS
      ensures |r| == NUM_BUFFERS
    {
      LanesOf(Blocks(), idx, absorbed)
    }

    /** The lanes as stored in the context. */
    ghost function Lanes(): (r: seq<Lane>)
      reads this, msgBuffer, buffIdx
      requires Valid()
      ensures AllValid(r)
    {
      WorkLanes(buffIdx[..])
    }

    /** A freshly initialised context: empty buffers, zero lengths, nothing absorbed. */
    constructor ()
      ensures Valid() && fresh(msgBuffer) && fresh(buffIdx) && fresh(msgLen)
      ensures forall i :: 0 <= i < NUM_BUFFERS ==>
        Lanes()[i] == Lane(Zeros(BLOCK_SIZE), 0, []) && msgLen[i] == 0
    {
      msgBuffer := new byte[NUM_BUFFERS, BLOCK_SIZE]((_, _) => 0);
      buffIdx := new int[NUM_BUFFERS](_ => 0);
      msgLen := new uint64[NUM_BUFFERS](_ => 0);
      absorbed := seq(NUM_BUFFERS, _ => []);
      new;
      forall i | 0 <= i < NUM_BUFFERS
        ensures Lanes()[i] == Lane(Zeros(BLOCK_SIZE), 0, [])
      {
        assert Blocks()[i] == Zeros(BLOCK_SIZE);
      }
    }

    /** sm3_avx512_mb16 (lines 115 and 125), whose body is not part of this model: for
        every lane with a positive count it compresses that many bytes, read from the
        lane's pointer, into the lane's digest; a lane with count 0 is left alone. */
    method Compress(ghost data: seq<seq<byte>>, counts: seq<int>)
      requires |absorbed| == NUM_BUFFERS && |data| == NUM_BUFFERS && |counts| == NUM_BUFFERS
      requires forall i :: 0 <= i < NUM_BUFFERS ==>
        0 <= counts[i] <= |data[i]| && counts[i] % BLOCK_SIZE == 0
      modifies this`absorbed
      ensures absorbed == Appended(old(absorbed), data, counts)
      ensures forall i :: 0 <= i < NUM_BUFFERS && |old(absorbed[i])| % BLOCK_SIZE == 0 ==>
        |absorbed[i]| % BLOCK_SIZE == 0
    {
      ghost var before := absorbed;
      absorbed := Appended(before, data, counts);
      forall i | 0 <= i < NUM_BUFFERS && |before[i]| % BLOCK_SIZE == 0
        ensures |absorbed[i]| % BLOCK_SIZE == 0
      {
        BlockMultiplesAdd(|before[i]|, counts[i]);
      }
    }

    /** The masked 64-byte store of one lane (lines 100 and 137): `bytes` land in lane
        i's block from offset `at`; every other byte of every block keeps its value. */
    method StoreBytes(i: int, at: int, bytes: seq<byte>)
      requires msgBuffer.Length0 == NUM_BUFFERS && msgBuffer.Length1 == BLOCK_SIZE && 0 <= i < NUM_BUFFERS
      requires 0 <= at && at + |bytes| <= BLOCK_SIZE
      modifies msgBuffer
      ensures Blocks() == old(Blocks())[i := Splice(old(Blocks())[i], at, bytes)]
    {
      for j := 0 to |bytes|
        invariant forall r, c :: 0 <= r < NUM_BUFFERS && 0 <= c < BLOCK_SIZE ==>
          msgBuffer[r, c] == if r == i && at <= c < at + j then bytes[c - at] else old(msgBuffer[r, c])
      {
        msgBuffer[i, at + j] := bytes[j];
      }
      ghost var want := old(Blocks())[i := Splice(old(Blocks())[i], at, bytes)];
      forall r | 0 <= r < NUM_BUFFERS
        ensures Blocks()[r] == want[r]
      {
        forall c | 0 <= c < BLOCK_SIZE
          ensures Blocks()[r][c] == want[r][c]
        {
          if r == i {
            SpliceAt(old(Blocks())[i], at, bytes, c);
          }
        }
      }
    }

    /** Lines 97-102 and 134-139: the loop over the lanes in which every lane of the mask
        stores w[i] into its own block from offset at[i]. */
    method StoreLanes(mask: seq<bool>, at: seq<int>, w: seq<seq<byte>>)
      requires msgBuffer.Length0 == NUM_BUFFERS && msgBuffer.Length1 == BLOCK_SIZE
      requires StoreBounds(Blocks(), mask, at, w)
      modifies msgBuffer
      ensures Blocks() == Stored(old(Blocks()), mask, at, w, NUM_BUFFERS)
    {
      ghost var rows := Blocks();
      for i := 0 to NUM_BUFFERS
        invariant Blocks() == Stored(rows, mask, at, w, i)
      {
        if mask[i] {
          StoreBytes(i, at[i], w[i]);
        }
      }
    }

    /** Lines 92-108: the copy of the top-up, with the index and length registers advanced
        by the number of bytes copied. */
    method CopyPhase(mbMask: seq<bool>, src: seq<seq<byte>>, locLen: seq<int>, idx: seq<int>)
      returns (idx': seq<int>, locLen': seq<int>, procLen: seq<int>)
      requires Valid() && |mbMask| == NUM_BUFFERS
      requires Prefixes(src, locLen) && Indices(idx)
      requires forall i :: 0 <= i < NUM_BUFFERS && !mbMask[i] ==> locLen[i] == 0
      modifies msgBuffer
      ensures |idx'| == NUM_BUFFERS && |locLen'| == NUM_BUFFERS && |procLen| == NUM_BUFFERS
      ensures forall i :: 0 <= i < NUM_BUFFERS ==>
        procLen[i] == TopUpCount(idx[i], locLen[i]) && locLen'[i] == locLen[i] - procLen[i] &&
        0 <= idx'[i] <= BLOCK_SIZE
      ensures WorkLanes(idx') == CopyInAll(old(WorkLanes(idx)), Prefix(src, locLen))
    {
      var empty := LaneSub(Splat(BLOCK_SIZE), idx);
      procLen := seq(NUM_BUFFERS, i requires 0 <= i < NUM_BUFFERS =>
        if locLen[i] - empty[i] < 0 then locLen[i] else empty[i]);
      var w := seq(NUM_BUFFERS, i requires 0 <= i < NUM_BUFFERS =>
        if mbMask[i] then src[i][..procLen[i]] else []);
      ghost var before := Blocks();
      StoreLanes(mbMask, idx, w);
      idx' := LaneAdd(idx, procLen);
      locLen' := LaneSub(locLen, procLen);
      CopiedLanes(before, idx, absorbed, mbMask, src, locLen, procLen, w, idx');
    }

    /** Lines 110-117: the lanes whose block became full are compressed from their
        buffers and their index is reset to 0. */
    method CompressFullBlocks(idx: seq<int>) returns (idx': seq<int>)
      requires Valid() && |idx| == NUM_BUFFERS
      requires forall i :: 0 <= i < NUM_BUFFERS ==> 0 <= idx[i] <= BLOCK_SIZE
      modifies this`absorbed
      ensures Valid() && Indices(idx')
      ensures WorkLanes(idx') == CompressAll(old(WorkLanes(idx)))
    {
      var full := seq(NUM_BUFFERS, i requires 0 <= i < NUM_BUFFERS => idx[i] == BLOCK_SIZE);
      var blockLen := seq(NUM_BUFFERS, i requires 0 <= i < NUM_BUFFERS => if full[i] then BLOCK_SIZE else 0);
      idx' := idx;
      ghost var rows := Blocks();
      if Any(full) {
        Compress(rows, blockLen);
        idx' := seq(NUM_BUFFERS, i requires 0 <= i < NUM_BUFFERS => if !(blockLen[i] <= 0) then 0 else idx[i]);
      }
      forall i | 0 <= i < NUM_BUFFERS
        ensures 0 <= idx'[i] < BLOCK_SIZE
        ensures WorkLanes(idx')[i] == CompressAll(old(WorkLanes(idx)))[i]
      {
        assert rows[i][..blockLen[i]] == if full[i] then rows[i] else [];
      }
    }

    /** Lines 90-118: every active lane copies what fits of its input into its block at
        its index; blocks that become full are compressed and their index reset. */
    method TopUpPhase(mbMask: seq<bool>, src: seq<seq<byte>>, locLen: seq<int>, idx: seq<int>)
      returns (idx': seq<int>, locLen': seq<int>, procLen: seq<int>)
      requires Valid() && |mbMask| == NUM_BUFFERS
      requires Prefixes(src, locLen) && Indices(idx)
      requires forall i :: 0 <= i < NUM_BUFFERS && !mbMask[i] ==> locLen[i] == 0
      modifies msgBuffer, this`absorbed
      ensures Valid() && Indices(idx')
      ensures |locLen'| == NUM_BUFFERS && |procLen| == NUM_BUFFERS
      ensures forall i :: 0 <= i < NUM_BUFFERS ==>
        procLen[i] == TopUpCount(idx[i], locLen[i]) && locLen'[i] == locLen[i] - procLen[i]
      ensures WorkLanes(idx') == TopUpAll(old(WorkLanes(idx)), Prefix(src, locLen))
    {
      ghost var w0 := WorkLanes(idx);
      idx', locLen', procLen := CopyPhase(mbMask, src, locLen, idx);
      idx' := CompressFullBlocks(idx');
      assert CompressAll(CopyInAll(w0, Prefix(src, locLen))) == TopUpAll(w0, Prefix(src, locLen));
    }

    /** Lines 121-130: every lane compresses the whole blocks left in its input, read
        directly from its advanced pointer. */
    method BulkPhase(src: seq<seq<byte>>, off: seq<int>, locLen: seq<int>, ghost idx: seq<int>)
      returns (off': seq<int>, locLen': seq<int>)
      requires Valid() && Window(src, off, locLen) && Indices(idx)
      modifies this`absorbed
      ensures Valid()
      ensures |off'| == NUM_BUFFERS && |locLen'| == NUM_BUFFERS
      ensures forall i :: 0 <= i < NUM_BUFFERS ==>
        off'[i] == off[i] + WholeBlocks(locLen[i]) && locLen'[i] == locLen[i] - WholeBlocks(locLen[i]) &&
        0 <= off'[i] && 0 <= locLen'[i] < BLOCK_SIZE && off'[i] + locLen'[i] == off[i] + locLen[i]
      ensures WorkLanes(idx) == BulkAll(old(WorkLanes(idx)), src, off, locLen)
    {
      var procLen := BlockPortions(locLen);
      var from := Advanced(src, off);
      var started := NonNegative(procLen);
      assert started[0];
      if Any(started) {
        Compress(from, procLen);
      } else {
        assert false;
      }
      locLen' := LaneSub(locLen, procLen);
      off' := LaneAdd(off, procLen);
      BulkAppends(Blocks(), idx, old(absorbed), src, off, locLen, from, procLen);
    }

    /** Lines 131-141: a lane with bytes left loads them into its block with a zero-masked
        load and advances its index by their number. */
    method RemainderPhase(src: seq<seq<byte>>, off: seq<int>, locLen: seq<int>, idx: seq<int>)
      returns (idx': seq<int>)
      requires Valid() && Window(src, off, locLen) && Indices(idx)
      requires forall i :: 0 <= i < NUM_BUFFERS ==> locLen[i] < BLOCK_SIZE
      modifies msgBuffer
      ensures Valid() && |idx'| == NUM_BUFFERS
      ensures WorkLanes(idx') == RemainderAll(old(WorkLanes(idx)), src, off, locLen)
    {
      var rest := Positive(locLen);
      var at := Splat(0);
      var w := Tails(src, off, locLen, rest);
      forall i | 0 <= i < NUM_BUFFERS
        ensures rest[i] == (locLen[i] > 0) && at[i] == 0
        ensures rest[i] ==> w[i] == src[i][off[i]..off[i] + locLen[i]] + Zeros(BLOCK_SIZE - locLen[i])
      {
      }
      ghost var before := Blocks();
      StoreLanes(rest, at, w);
      idx' := LaneAdd(idx, locLen);
      StoredTails(before, idx, absorbed, src, off, locLen, rest, at, w, idx');
    }

    /** Lines 84 and 90-118: the top-up runs, for every lane, when some lane (active or
        not) holds buffered bytes; otherwise the registers start the bulk phase at offset
        0 with the whole length. */
    method TopUpIfPartial(mbMask: seq<bool>, src: seq<seq<byte>>, len: seq<int>, idx: seq<int>)
      returns (idx1: seq<int>, off: seq<int>, locLen: seq<int>)
      requires Valid() && |mbMask| == NUM_BUFFERS
      requires Prefixes(src, len) && Indices(idx)
      requires forall i :: 0 <= i < NUM_BUFFERS && !mbMask[i] ==> len[i] == 0
      modifies msgBuffer, this`absorbed
      ensures Valid() && Indices(idx1) && |off| == NUM_BUFFERS && |locLen| == NUM_BUFFERS
      ensures forall i :: 0 <= i < NUM_BUFFERS ==>
        off[i] == (if AnyPartial(old(WorkLanes(idx))) then TopUpCount(idx[i], len[i]) else 0) &&
        locLen[i] == len[i] - off[i]
      ensures WorkLanes(idx1) ==
        if AnyPartial(old(WorkLanes(idx))) then TopUpAll(old(WorkLanes(idx)), Prefix(src, len)) else old(WorkLanes(idx))
    {
      ghost var w0 := WorkLanes(idx);
      var partial := NonZero(idx);
      assert Any(partial) == AnyPartial(w0) by {
        if AnyPartial(w0) {
          var j :| 0 <= j < NUM_BUFFERS && w0[j].idx != 0;
          assert partial[j];
        }
        if Any(partial) {
          var j :| 0 <= j < NUM_BUFFERS && partial[j];
          assert w0[j].idx != 0;
        }
      }
      off := Splat(0);
      locLen := len;
      idx1 := idx;
      if Any(partial) {
        var procLen;
        idx1, locLen, procLen := TopUpPhase(mbMask, src, len, idx);
        off := procLen;
      }
    }

    /** Lines 84-141: the three phases in order; each lane takes its first len[i] source
        bytes exactly as one lane's update does. */
    method ProcessLanes(mbMask: seq<bool>, src: seq<seq<byte>>, len: seq<int>, idx: seq<int>)
      returns (idx': seq<int>)
      requires Valid() && |mbMask| == NUM_BUFFERS
      requires Prefixes(src, len) && Indices(idx)
      requires forall i :: 0 <= i < NUM_BUFFERS && !mbMask[i] ==> len[i] == 0
      modifies msgBuffer, this`absorbed
      ensures Valid() && |idx'| == NUM_BUFFERS
      ensures WorkLanes(idx') == UpdateAll(old(WorkLanes(idx)), Prefix(src, len), AnyPartial(old(WorkLanes(idx))))
    {
      ghost var w0 := WorkLanes(idx);
      ghost var topUp := AnyPartial(w0);
      var idx1, off, locLen := TopUpIfPartial(mbMask, src, len, idx);
      ghost var w1 := WorkLanes(idx1);
      var off2, locLen2 := BulkPhase(src, off, locLen, idx1);
      ghost var w2 := WorkLanes(idx1);
      idx' := RemainderPhase(src, off2, locLen2, idx1);
      PhasesComposeToUpdate(w0, src, len, topUp, off, locLen, w1, off2, locLen2, w2, WorkLanes(idx'));
    }

    /** Lines 144-146: the lengths and buffer indices of the lanes in the mask are
        written back; the other lanes keep theirs. */
    method Commit(mbMask: seq<bool>, idx: seq<int>, sumMsgLen: seq<int>)
      requires Valid() && |mbMask| == NUM_BUFFERS && |idx| == NUM_BUFFERS && |sumMsgLen| == NUM_BUFFERS
      requires forall i :: 0 <= i < NUM_BUFFERS && mbMask[i] ==>
        0 <= idx[i] < BLOCK_SIZE && 0 <= sumMsgLen[i] < MSG_LEN_MODULUS
      modifies buffIdx, msgLen
      ensures Valid()
      ensures buffIdx[..] == Select(mbMask, idx, old(buffIdx[..]))
      ensures msgLen[..] == Select(mbMask, sumMsgLen, old(msgLen[..]))
    {
      forall i | 0 <= i < NUM_BUFFERS && mbMask[i] {
        msgLen[i] := sumMsgLen[i];
      }
      forall i | 0 <= i < NUM_BUFFERS && mbMask[i] {
        buffIdx[i] := idx[i];
      }
    }

    /** Lines 43-147, the call once its parameters are known not to be null. A lane is
        active when its pointer is not null and its length not 0 (lines 43-58); when no
        lane is, nothing changes (line 61). */
    method Absorb(msgPa: seq<Option<seq<byte>>>, len: seq<int32>)
      requires Valid() && LanesWellFormed(msgPa, len)
      modifies msgBuffer, buffIdx, msgLen, this`absorbed
      ensures Valid()
      ensures Lanes() == UpdateAll(old(Lanes()), FedAll(msgPa, len), old(AnyPartial(Lanes())))
      ensures msgLen[..] == LengthsAfter(old(msgLen[..]), msgPa, len)
    {
      var mbMask := ActiveMask(msgPa, len);
      if !Any(mbMask) {
        ghost var before := Lanes();
        InactiveLanesFedNothing(msgPa, len, mbMask);
        NothingFedNothingChanges(before, FedAll(msgPa, len), AnyPartial(before), mbMask);
        NothingActiveKeepsLengths(msgLen[..], msgPa, len, mbMask);
        return;
      }
      AbsorbActive(msgPa, len, mbMask);
    }

    /** Lines 62-146, with at least one active lane: inactive lanes read from the zero
        buffer with length 0 (lines 62-64), every lane takes the bytes it is fed as Update
        describes, with the top-up decided by all 16 buffer indices (line 84), and only
        active lanes get their length and index written back (lines 73-87, 144-146). */
    method AbsorbActive(msgPa: seq<Option<seq<byte>>>, len: seq<int32>, mbMask: seq<bool>)
      requires Valid() && LanesWellFormed(msgPa, len) && mbMask == ActiveMask(msgPa, len)
      modifies msgBuffer, buffIdx, msgLen, this`absorbed
      ensures Valid()
      ensures Lanes() == UpdateAll(old(Lanes()), FedAll(msgPa, len), old(AnyPartial(Lanes())))
      ensures msgLen[..] == LengthsAfter(old(msgLen[..]), msgPa, len)
    {
      ghost var before := Lanes();
      ghost var topUp := AnyPartial(before);
      var src := Sources(msgPa, mbMask);
      var idx := buffIdx[..];
      FedThroughPointers(msgPa, len, mbMask, src);
      assert WorkLanes(idx) == before;
      var idx' := ProcessLanes(mbMask, src, len, idx);
      WriteBack(msgPa, len, mbMask, idx, idx', before, topUp);
    }

    /** Lines 73-87 and 143-146: the active lanes get their new index and their length
        sum written back, the others keep both, and the lanes the registers describe
        become the lanes of the context. */
    method WriteBack(msgPa: seq<Option<seq<byte>>>, len: seq<int32>, mbMask: seq<bool>,
                     idx: seq<int>, idx': seq<int>, ghost before: seq<Lane>, ghost topUp: bool)
      requires Valid() && LanesWellFormed(msgPa, len) && mbMask == ActiveMask(msgPa, len)
      requires AllValid(before) && (!topUp ==> forall i :: 0 <= i < NUM_BUFFERS ==> before[i].idx == 0)
      requires buffIdx[..] == idx && forall i :: 0 <= i < NUM_BUFFERS ==> before[i].idx == idx[i]
      requires |idx'| == NUM_BUFFERS && WorkLanes(idx') == UpdateAll(before, FedAll(msgPa, len), topUp)
      modifies buffIdx, msgLen
      ensures Valid()
      ensures Lanes() == UpdateAll(before, FedAll(msgPa, len), topUp)
      ensures msgLen[..] == LengthsAfter(old(msgLen[..]), msgPa, len)
    {
      var oldLen := msgLen[..];
      var sumMsgLen := SumMsgLen(oldLen, len, mbMask);
      forall i | 0 <= i < NUM_BUFFERS
        ensures 0 <= idx'[i] < BLOCK_SIZE && 0 <= sumMsgLen[i] < MSG_LEN_MODULUS
      {
        assert WorkLanes(idx')[i].idx == idx'[i];
      }
      IdleIndicesKept(before, msgPa, len, topUp, mbMask, idx, Blocks(), absorbed, idx');
      CommittedLengths(oldLen, msgPa, len, mbMask, sumMsgLen);
      Commit(mbMask, idx', sumMsgLen);
      assert buffIdx[..] == idx';
    }
  }

  /** mbx_sm3_update_mb16 (lines 30-41 and 149): with a null message array, length array
      or context every lane reports a null-parameter error and nothing changes; otherwise
      every lane reports success and the context takes one Update per lane (the top-up
      decided by all 16 indices) and the new message lengths. What that means per lane
      is stated by UpdateAllExtendsStreams, UpdateAllKeepsIdleLanes and
      LengthsFollowStreams. */
  method UpdateMb16(msgPa: Option<seq<Option<seq<byte>>>>, len: Option<seq<int32>>, state: Sm3CtxMb16?)
    returns (status: seq<LaneStatus>)
    requires state != null ==> state.Valid()
    requires msgPa.Some? && len.Some? && state != null ==> LanesWellFormed(msgPa.value, len.value)
    modifies if state == null then {} else {state, state.msgBuffer, state.buffIdx, state.msgLen}
    ensures |status| == NUM_BUFFERS
    ensures msgPa.None? || len.None? || state == null ==>
      status == Splat(NullParamErr) &&
      (state != null ==> unchanged(state) && unchanged(state.msgBuffer, state.buffIdx, state.msgLen))
    ensures msgPa.Some? && len.Some? && state != null ==>
      status == Splat(StatusOk) && state.Valid() &&
      state.Lanes() == UpdateAll(old(state.Lanes()), FedAll(msgPa.value, len.value), old(AnyPartial(state.Lanes()))) &&
      state.msgLen[..] == LengthsAfter(old(state.msgLen[..]), msgPa.value, len.value)
  {
    if msgPa.None? || len.None? || state == null {
      status := Splat(NullParamErr);
      return;
    }
    state.Absorb(msgPa.value, len.value);
    status := Splat(StatusOk);
  }

  /** Lines 38-40 come before any lane is looked at: a null context with 16 null lane
      pointers and non-zero lengths, lanes that a non-null context would reject, still
      gets the null-parameter status in every lane. */
  method NullContextIgnoresLanes() returns (status: seq<LaneStatus>)
    ensures status == Splat(NullParamErr)
  {
    status := UpdateMb16(Some(seq(NUM_BUFFERS, _ => None)), Some(seq(NUM_BUFFERS, _ => 5)), null);
  }

  /** Lines 73-87 and 144-145 against the streams: a lane whose MSG_LEN counted its
      stream modulo 2^64 still counts it after the call. */
  lemma {:induction false} LengthsFollowStreams(ls: seq<Lane>, lens: seq<int>, msgPa: seq<Option<seq<byte>>>,
                                                len: seq<int32>, topUp: bool)
    requires AllValid(ls) && |lens| == NUM_BUFFERS && LanesWellFormed(msgPa, len)
    requires !topUp ==> forall i :: 0 <= i < NUM_BUFFERS ==> ls[i].idx == 0
    ensures forall i :: 0 <= i < NUM_BUFFERS && lens[i] == |Stream(ls[i])| % MSG_LEN_MODULUS ==>
      LengthsAfter(lens, msgPa, len)[i] == |Stream(UpdateAll(ls, FedAll(msgPa, len), topUp)[i])| % MSG_LEN_MODULUS
  {
    forall i | 0 <= i < NUM_BUFFERS && lens[i] == |Stream(ls[i])| % MSG_LEN_MODULUS
      ensures LengthsAfter(lens, msgPa, len)[i] == |Stream(UpdateAll(ls, FedAll(msgPa, len), topUp)[i])| % MSG_LEN_MODULUS
    {
      LengthFollowsOnLane(ls, lens, msgPa, len, topUp, i);
    }
  }

  /** LengthsFollowStreams on lane i. */
  lemma LengthFollowsOnLane(ls: seq<Lane>, lens: seq<int>, msgPa: seq<Option<seq<byte>>>,
                            len: seq<int32>, topUp: bool, i: int)
    requires AllValid(ls) && |lens| == NUM_BUFFERS && LanesWellFormed(msgPa, len)
    requires !topUp ==> forall i :: 0 <= i < NUM_BUFFERS ==> ls[i].idx == 0
    requires 0 <= i < NUM_BUFFERS && lens[i] == |Stream(ls[i])| % MSG_LEN_MODULUS
    ensures LengthsAfter(lens, msgPa, len)[i] == |Stream(UpdateAll(ls, FedAll(msgPa, len), topUp)[i])| % MSG_LEN_MODULUS
  {
    var fed := FedAll(msgPa, len);
    FedAllAt(msgPa, len, i);
    UpdateAllAt(ls, fed, topUp, i);
    LengthsAfterAt(lens, msgPa, len, i);
    LaneLengthFollows(ls[i], lens[i], msgPa[i], len[i], topUp);
  }

  /** Lane i of FedAll. */
  lemma FedAllAt(msgPa: seq<Option<seq<byte>>>, len: seq<int32>, i: int)
    requires LanesWellFormed(msgPa, len) && 0 <= i < NUM_BUFFERS
    ensures FedAll(msgPa, len)[i] == Fed(msgPa[i], len[i])
  {
  }

  /** Lane i of LengthsAfter. */
  lemma LengthsAfterAt(lens: seq<int>, msgPa: seq<Option<seq<byte>>>, len: seq<int32>, i: int)
    requires |lens| == NUM_BUFFERS && LanesWellFormed(msgPa, len) && 0 <= i < NUM_BUFFERS
    ensures LengthsAfter(lens, msgPa, len)[i] ==
      if Active(msgPa[i], len[i]) then (lens[i] + len[i]) % MSG_LEN_MODULUS else lens[i]
  {
  }

  /** LengthsFollowStreams on one lane. */
  lemma LaneLengthFollows(l: Lane, count: int, msg: Option<seq<byte>>, n: int, topUp: bool)
    requires Sm3Lane.Valid(l) && (!topUp ==> l.idx == 0) && 0 <= n && (msg.Some? ==> n <= |msg.value|)
    requires count == |Stream(l)| % MSG_LEN_MODULUS
    ensures (if Active(msg, n) then (count + n) % MSG_LEN_MODULUS else count) ==
      |Stream(Update(l, Fed(msg, n), topUp))| % MSG_LEN_MODULUS
  {
    var d := Fed(msg, n);
    UpdateExtendsStream(l, d, topUp);
    if Active(msg, n) {
      LengthWraps(|Stream(l)|, n);
    }
  }

  /** The unsigned 64-bit length sum: adding to a count taken modulo 2^64 counts the sum. */
  lemma LengthWraps(total: int, n: int)
    requires 0 <= total && 0 <= n
    ensures (total % MSG_LEN_MODULUS + n) % MSG_LEN_MODULUS == (total + n) % MSG_LEN_MODULUS
  {
  }

  /** The 32-bit registers of one lane never wrap. The index stays in [0, 64] (line
      104); the free room of line 92 is in [1, 64] and the difference at line 93 in
      [-64, len); `proc_len` and `loc_len` stay in [0, len] through lines 94, 105, 121
      and 127, while line 111 sets `proc_len` to 0 or 64; and the tail added to the
      index at line 141 is less than a block. With len below 2^31 every one of these
      values is an int32. */
  lemma RegistersStayInRange(idx: int, n: int32, topUp: bool)
    requires 0 <= idx < BLOCK_SIZE && 0 <= n
    ensures 1 <= BLOCK_SIZE - idx <= BLOCK_SIZE
    ensures -BLOCK_SIZE <= n - (BLOCK_SIZE - idx) < n
    ensures var p := if topUp then TopUpCount(idx, n) else 0;
      var locLen := n - p;
      && 0 <= p <= n && idx + p <= BLOCK_SIZE
      && 0 <= WholeBlocks(locLen) <= locLen <= n
      && 0 <= locLen - WholeBlocks(locLen) < BLOCK_SIZE
  {
  }

  /** MSG_LEN in the two-call scenario of Sm3Lane.TwoCallScenario: on a fresh context,
      lane 0 is fed 100 and then 28 bytes, lane 1 nothing and then 64 bytes, so their
      lengths end at 128 and 64. */
  lemma TwoCallLengths(lens: seq<int>, msgA: seq<Option<seq<byte>>>, lenA: seq<int32>,
                       msgB: seq<Option<seq<byte>>>, lenB: seq<int32>)
    requires |lens| == NUM_BUFFERS && forall i :: 0 <= i < NUM_BUFFERS ==> lens[i] == 0
    requires LanesWellFormed(msgA, lenA) && LanesWellFormed(msgB, lenB)
    requires msgA[0].Some? && lenA[0] == 100 && lenA[1] == 0
    requires msgB[0].Some? && lenB[0] == 28 && msgB[1].Some? && lenB[1] == 64
    ensures LengthsAfter(LengthsAfter(lens, msgA, lenA), msgB, lenB)[0] == 128
    ensures LengthsAfter(LengthsAfter(lens, msgA, lenA), msgB, lenB)[1] == 64
  {
  }
}
