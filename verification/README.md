# SM3 multi-buffer update (16 lanes), modelled in Dafny

`mbx_sm3_update_mb16` feeds up to 16 independent messages into 16 SM3 hash
computations in one call. Every lane of the context `SM3_CTX_mb16` has:

- a 64-byte block buffer (`HASH_BUFF`);
- the number of bytes waiting in that buffer (`HASH_BUFFIDX`);
- the total message length (`MSG_LEN`, an unsigned 64-bit count);
- the digest (`HASH_VALUE`).

A call does the following:

1. It rejects null parameters.
2. It marks a lane active when its pointer is not null and its length is not 0.
3. When some lane holds buffered bytes, it tops up the buffers and compresses
   those that become full.
4. It compresses every whole block left in the input directly from the input.
5. It parks the tail in the buffer.
6. It writes back the index and the length of the active lanes.

The project has two modules.

- `Sm3Lane` (`sm3_lane.dfy`) describes one lane as a value. A `Lane` holds:
  - `buf`, the block buffer;
  - `idx`, the buffer index;
  - `absorbed`, the bytes the digest has compressed so far. This stands in for
    the digest state, because the compression function is not part of this
    model.

  The phases of a call are the functions `TopUp`, `Bulk` and `Remainder`
  (`BulkThenRemainder` is the last two together), and `Update` is one call on
  one lane. A lane's stream is
  `absorbed + buf[..idx]`. The central lemma, `UpdateExtendsStream`, proves that
  a call appends exactly the lane's input to its stream and leaves the index at
  the stream length modulo 64.
- `Sm3UpdateMb16` (`sm3_update_mb16.dfy`) is the imperative side.
  - The class `Sm3CtxMb16` holds the context: the buffers as a 16×64 byte
    array, the index and length arrays, and the ghost digest bytes.
  - Its methods follow the source phase by phase. The two loops over the lanes
    (lines 97-102 and 134-139) stay loops of masked byte stores.
  - Every method is proved against a function on the 16 lanes as values. For
    example, `ProcessLanes` leaves the lanes equal to `UpdateAll` of the old
    ones, which is `Update` lane by lane.
  - The entry point is the module-level method `UpdateMb16`, where a null
    pointer is `None` or `null`.

The SIMD registers of the source (`idx`, `loc_len`, `loc_src`, `proc_len`,
`sum_msg_len`) become sequences of 16 integers, computed lane-wise in one step.
`loc_len & -64` is written as `x - x % 64`, which is the same value for every
integer.

Where a plain reading of the library's intent and the code differ, the model
follows the code:

- The top-up copy (lines 97-98) is masked by the active-lane mask, not by
  `idx != 0`. Once any lane holds buffered bytes, an active lane with an empty
  buffer also copies `min(len, 64)` bytes through its buffer.
  `TopUpDecisionIsInvisible` proves that this never changes the lane's digest
  input, index or buffered bytes.
- The bulk compression is guarded by `proc_len >= 0` (line 122). That holds
  for every lane, so the primitive is always called and must leave lanes with
  count 0 alone.
- The remainder load (line 137) is zero-masked, so the buffer bytes after the
  tail become 0. Whether the bytes after the index are old bytes or zeros
  depends on the other lanes (`StaleBytesDependOnOtherLanes`).
- In a two-call scenario with 100 bytes, then 28 bytes on lane 0 and 64 bytes
  on lane 1, lane 1's block goes through its buffer, not through the bulk path,
  because lane 0 forces the top-up (`TwoCallScenario`).

## Model

| member | source | states |
|---|---|---|
| `Sm3Lane.WholeBlocks` | sources/ippcp/crypto_mb/src/sm3/sm3_update_mb16.c:121 | `loc_len & -64`: a multiple of 64, not above the length, and less than one block below it |
| `Sm3Lane.TopUpCount` | sources/ippcp/crypto_mb/src/sm3/sm3_update_mb16.c:92-94 | the top-up count is the smaller of the length and the free room `64 - idx`: at most both, and equal to one of them |
| `Sm3Lane.TopUp` | sources/ippcp/crypto_mb/src/sm3/sm3_update_mb16.c:90-117 | the copied bytes land at `[idx, idx+p)` and every other buffer byte is unchanged; a full block is compressed from the buffer and its index reset to 0, otherwise the index advances by `p` |
| `Sm3Lane.CopyIn` | sources/ippcp/crypto_mb/src/sm3/sm3_update_mb16.c:97-108 | the copy of the top-up; `CopiedLane` and `CopiedLanes` prove that the masked store loop with the index advanced equals it, and through `TopUp` it lands the copied bytes at `[idx, idx+p)` and keeps every other byte |
| `Sm3Lane.CompressIfFull` | sources/ippcp/crypto_mb/src/sm3/sm3_update_mb16.c:110-117 | the end of the top-up; `CompressFullBlocks` proves that the masked compression with the index reset equals it on all lanes, and through `TopUp` a full block is absorbed and its index reset while any other lane keeps its index |
| `Sm3Lane.Bulk` | sources/ippcp/crypto_mb/src/sm3/sm3_update_mb16.c:121-130 | the bulk phase; `BulkLane` and `BulkAppends` prove that the line-125 compression from the advanced pointer equals it, and `TailExtendsStream` that with `Remainder` it appends all remaining bytes to the stream |
| `Sm3Lane.Remainder` | sources/ippcp/crypto_mb/src/sm3/sm3_update_mb16.c:131-141 | the remainder phase; `TailLane` and `StoredTails` prove that the zero-masked tail loop equals it, `TailExtendsStream` that the stream grows by the tail, and `BufferBeyondIndex` that the bytes after the new index are zeros |
| `Sm3Lane.BulkThenRemainder` | sources/ippcp/crypto_mb/src/sm3/sm3_update_mb16.c:121-141 | the bulk and remainder phases leave a well-formed lane well formed when its buffer is empty or no input is left |
| `Sm3Lane.Update` | sources/ippcp/crypto_mb/src/sm3/sm3_update_mb16.c:84-141 | one call on one lane leaves it well formed: index in `[0, 64)`, whole blocks absorbed |
| `Sm3Lane.PointerPhasesMakeUpdate` | sources/ippcp/crypto_mb/src/sm3/sm3_update_mb16.c:104-141 | reading the input through a pointer that each phase advances past what it took (lines 107-108 and 129-130), the three phases compute `Update` on the lane's first `len` bytes |
| `Sm3Lane.UpdateExtendsStream` | sources/ippcp/crypto_mb/src/sm3/sm3_update_mb16.c:89-146 | stream preservation: `absorbed' + buf'[..idx'] == absorbed + buf[..idx] + input[..len]`, and `idx' == (idx + len) % 64` |
| `Sm3Lane.ToppedUpExtendsStream` | sources/ippcp/crypto_mb/src/sm3/sm3_update_mb16.c:90-141 | when the top-up runs, the top-up followed by bulk and remainder appends exactly the lane's input to its stream |
| `Sm3Lane.IndexFollowsStream` | sources/ippcp/crypto_mb/src/sm3/sm3_update_mb16.c:141 | a well-formed lane whose stream grew by `data` has its index at `(idx + |data|) % 64` |
| `Sm3Lane.TopUpExtendsStream` | sources/ippcp/crypto_mb/src/sm3/sm3_update_mb16.c:90-117 | the top-up appends the copied bytes to the stream and empties the buffer when input is left over |
| `Sm3Lane.TailExtendsStream` | sources/ippcp/crypto_mb/src/sm3/sm3_update_mb16.c:121-141 | the bulk and remainder phases append all remaining bytes to the stream |
| `Sm3Lane.StreamDeterminesLane` | sources/ippcp/crypto_mb/src/sm3/sm3_update_mb16.c:141-146 | two well-formed lanes with the same stream have the same absorbed bytes, index and buffered bytes |
| `Sm3Lane.ChunkingInvariance` | sources/ippcp/crypto_mb/src/sm3/sm3_update_mb16.c:89-146 | feeding `d1` then `d2` in two calls gives the same absorbed bytes, index and buffered bytes as feeding `d1 + d2` in one |
| `Sm3Lane.TopUpDecisionIsInvisible` | sources/ippcp/crypto_mb/src/sm3/sm3_update_mb16.c:84-100 | for a lane with an empty buffer, whether the top-up runs (decided by the other lanes) changes neither its absorbed bytes, nor its index, nor its buffered bytes |
| `Sm3Lane.EmptyInputChangesNothing` | sources/ippcp/crypto_mb/src/sm3/sm3_update_mb16.c:92-141 | a lane fed no bytes is left exactly as it was, buffer included |
| `Sm3Lane.BufferBeyondIndex` | sources/ippcp/crypto_mb/src/sm3/sm3_update_mb16.c:100-137 | after a partial top-up the bytes after the index are the old ones; after a remainder load they are zeros |
| `Sm3Lane.StaleBytesDependOnOtherLanes` | sources/ippcp/crypto_mb/src/sm3/sm3_update_mb16.c:84-137 | with the same one-byte input, an empty lane keeps a stale byte when the top-up runs and gets 0 when it does not |
| `Sm3Lane.StaleByteKept` | sources/ippcp/crypto_mb/src/sm3/sm3_update_mb16.c:97-100 | with the top-up running, a one-byte input into an empty lane leaves the old byte after it |
| `Sm3Lane.ZeroByteLoaded` | sources/ippcp/crypto_mb/src/sm3/sm3_update_mb16.c:134-137 | without the top-up, a one-byte input into an empty lane goes through the zero-masked load, so the byte after it is 0 |
| `Sm3Lane.TwoCallScenario` | sources/ippcp/crypto_mb/src/sm3/sm3_update_mb16.c:89-141 | 100 bytes on a fresh lane give index 36 and one compressed block; 28 more complete the second block from the buffer; 64 bytes with the top-up running end up compressed from the buffer |
| `Sm3UpdateMb16.Fed` | sources/ippcp/crypto_mb/src/sm3/sm3_update_mb16.c:43-58 | an active lane is fed exactly `len` bytes, an inactive lane none |
| `Sm3UpdateMb16.ActiveMask` | sources/ippcp/crypto_mb/src/sm3/sm3_update_mb16.c:48-58 | a lane is in the mask exactly when its length is not 0 and its pointer is not null |
| `Sm3UpdateMb16.Splat` | sources/ippcp/crypto_mb/src/sm3/sm3_update_mb16.c:39 | the status word of `MBX_SET_STS16_ALL` (and the `set1` registers); `UpdateMb16` proves that every lane reports the null-parameter error on a null parameter and success otherwise |
| `Sm3UpdateMb16.Sources` | sources/ippcp/crypto_mb/src/sm3/sm3_update_mb16.c:62-64 | the pointer each lane reads from; `FedThroughPointers` proves that the first `len[i]` bytes behind it, with the zero buffer for an inactive lane, are exactly the bytes the lane is fed |
| `Sm3UpdateMb16.NonZero` | sources/ippcp/crypto_mb/src/sm3/sm3_update_mb16.c:84 | the lanes whose buffer holds bytes; `TopUpIfPartial` proves that this mask is non-zero exactly when some lane holds buffered bytes, which decides the top-up for all 16 lanes |
| `Sm3UpdateMb16.InactiveLanesFedNothing` | sources/ippcp/crypto_mb/src/sm3/sm3_update_mb16.c:48-58 | a lane outside the mask is fed no bytes |
| `Sm3UpdateMb16.FedThroughPointers` | sources/ippcp/crypto_mb/src/sm3/sm3_update_mb16.c:62-64 | with inactive lanes reading the zero buffer with length 0, the first `len[i]` bytes behind each lane's pointer are exactly the bytes it is fed |
| `Sm3UpdateMb16.BytesBeyondLengthUnread` | sources/ippcp/crypto_mb/src/sm3/sm3_update_mb16.c:43-64 | message arrays that agree on the first `len[i]` bytes of every lane give the same mask and feed the same bytes, so no byte at or beyond `len[i]` affects the call |
| `Sm3UpdateMb16.StoredBlock` | sources/ippcp/crypto_mb/src/sm3/sm3_update_mb16.c:97-102 | after `n` iterations of a store loop, a lane's block was written by its own store when it is among the first `n` lanes and in the mask, and is untouched otherwise |
| `Sm3UpdateMb16.CopiedLane` | sources/ippcp/crypto_mb/src/sm3/sm3_update_mb16.c:99-100 | the byte-masked store of the top-up on one lane, with the index advanced, is `CopyIn` of that lane; a lane outside the mask keeps its block |
| `Sm3UpdateMb16.CopiedLanes` | sources/ippcp/crypto_mb/src/sm3/sm3_update_mb16.c:97-105 | the copy loop with the indices advanced is `CopyIn` on all 16 lanes |
| `Sm3UpdateMb16.TailLane` | sources/ippcp/crypto_mb/src/sm3/sm3_update_mb16.c:136-137 | the zero-masked load on one lane, with the index advanced by the tail length, is `Remainder` of that lane |
| `Sm3UpdateMb16.StoredTails` | sources/ippcp/crypto_mb/src/sm3/sm3_update_mb16.c:131-141 | the tail loop with the indices advanced is `Remainder` on all 16 lanes |
| `Sm3UpdateMb16.StoredTailOnLane` | sources/ippcp/crypto_mb/src/sm3/sm3_update_mb16.c:131-141 | `StoredTails` for one lane of the 16 |
| `Sm3UpdateMb16.Tails` | sources/ippcp/crypto_mb/src/sm3/sm3_update_mb16.c:136-137 | the 64 bytes of each zero-masked load; `StoredTails` proves that storing them with the index advanced is `Remainder` on every lane |
| `Sm3UpdateMb16.Positive` | sources/ippcp/crypto_mb/src/sm3/sm3_update_mb16.c:131 | the lanes with a tail left; `RemainderPhase` and `StoredTails` prove that exactly these lanes get the tail store, which makes the phase `Remainder` on every lane |
| `Sm3UpdateMb16.BulkLane` | sources/ippcp/crypto_mb/src/sm3/sm3_update_mb16.c:121-125 | on one lane, compressing `loc_len & -64` bytes from the advanced pointer is `Bulk` on the window that is left |
| `Sm3UpdateMb16.BulkAppends` | sources/ippcp/crypto_mb/src/sm3/sm3_update_mb16.c:121-130 | the bulk compression call is `Bulk` on all 16 lanes |
| `Sm3UpdateMb16.BulkAppendsOnLane` | sources/ippcp/crypto_mb/src/sm3/sm3_update_mb16.c:121-130 | `BulkAppends` for one lane of the 16 |
| `Sm3UpdateMb16.BlockPortions` | sources/ippcp/crypto_mb/src/sm3/sm3_update_mb16.c:121 | `loc_len & -64` on all lanes; `BulkPhase` proves that pointers advance and lengths drop by it, leaving fewer than 64 bytes, and `BulkAppends` that compressing it is `Bulk` |
| `Sm3UpdateMb16.NonNegative` | sources/ippcp/crypto_mb/src/sm3/sm3_update_mb16.c:122 | the guard of line 124; `BulkPhase` proves that it always holds, so the primitive is always called and leaves lanes with count 0 alone |
| `Sm3UpdateMb16.Advanced` | sources/ippcp/crypto_mb/src/sm3/sm3_update_mb16.c:107-108 | the pointers advanced past the bytes a phase took (also lines 129-130); `PointerPhasesMakeUpdate` and `BulkLane` prove that reading through them gives `Update` on the lane's first `len` bytes |
| `Sm3UpdateMb16.PhasesComposeToUpdate` | sources/ippcp/crypto_mb/src/sm3/sm3_update_mb16.c:84-141 | the three phases, with the pointer and length registers kept between them, compute `Update` on every lane |
| `Sm3UpdateMb16.PhasesComposeOnLane` | sources/ippcp/crypto_mb/src/sm3/sm3_update_mb16.c:84-141 | `PhasesComposeToUpdate` for one lane of the 16 |
| `Sm3UpdateMb16.UpdateAll` | sources/ippcp/crypto_mb/src/sm3/sm3_update_mb16.c:84-141 | every lane's `Update` with one top-up decision leaves all 16 lanes well formed; `UpdateAllExtendsStreams` and `UpdateAllKeepsIdleLanes` state what it does per lane |
| `Sm3UpdateMb16.UpdateAllExtendsStreams` | sources/ippcp/crypto_mb/src/sm3/sm3_update_mb16.c:89-146 | for all 16 lanes at once, each stream grows by exactly the lane's bytes and each index ends at the new length modulo 64 |
| `Sm3UpdateMb16.UpdateAllExtendsStreamOnLane` | sources/ippcp/crypto_mb/src/sm3/sm3_update_mb16.c:89-146 | `UpdateAllExtendsStreams` for one lane of the 16 |
| `Sm3UpdateMb16.UpdateAllKeepsIdleLanes` | sources/ippcp/crypto_mb/src/sm3/sm3_update_mb16.c:97-139 | a lane fed nothing keeps its buffer, index and digest, whatever the other lanes do |
| `Sm3UpdateMb16.SumMsgLen` | sources/ippcp/crypto_mb/src/sm3/sm3_update_mb16.c:73-87 | the 64-bit length sums; `CommittedLengths` proves that storing them under the active mask gives `LengthsAfter` of the old lengths |
| `Sm3UpdateMb16.LengthsAfter` | sources/ippcp/crypto_mb/src/sm3/sm3_update_mb16.c:144-145 | `MSG_LEN` after a call; `CommittedLengths` ties it to the sums and the masked store, `LaneLengthFollows` and `LengthsFollowStreams` prove that it keeps counting each lane's stream modulo 2^64, and `NothingActiveKeepsLengths` that it changes nothing without an active lane |
| `Sm3UpdateMb16.CommittedLengths` | sources/ippcp/crypto_mb/src/sm3/sm3_update_mb16.c:73-87 | the length sums, stored under the active mask (lines 144-145), are the old lengths plus `len[i]` modulo 2^64 for active lanes and the old lengths for the others |
| `Sm3UpdateMb16.NothingActiveKeepsLengths` | sources/ippcp/crypto_mb/src/sm3/sm3_update_mb16.c:61 | with no active lane, no length changes |
| `Sm3UpdateMb16.NothingFedNothingChanges` | sources/ippcp/crypto_mb/src/sm3/sm3_update_mb16.c:61 | with no active lane, every lane already is what the update makes of it, so skipping the body is the update |
| `Sm3UpdateMb16.IdleIndicesKept` | sources/ippcp/crypto_mb/src/sm3/sm3_update_mb16.c:146 | storing back only the active lanes' indices leaves every lane at the index the update computed |
| `Sm3UpdateMb16.LengthsFollowStreams` | sources/ippcp/crypto_mb/src/sm3/sm3_update_mb16.c:144-145 | a lane whose `MSG_LEN` counted its stream modulo 2^64 still counts it after the call |
| `Sm3UpdateMb16.LengthFollowsOnLane` | sources/ippcp/crypto_mb/src/sm3/sm3_update_mb16.c:144-145 | `LengthsFollowStreams` for one lane of the 16 |
| `Sm3UpdateMb16.LaneLengthFollows` | sources/ippcp/crypto_mb/src/sm3/sm3_update_mb16.c:73-87 | an active lane's 64-bit length plus `len`, or an inactive lane's unchanged length, is the length of its new stream modulo 2^64 |
| `Sm3UpdateMb16.TwoCallLengths` | sources/ippcp/crypto_mb/src/sm3/sm3_update_mb16.c:144-145 | on a fresh context, 100 and then 28 bytes on lane 0 and nothing and then 64 bytes on lane 1 leave the lengths at 128 and 64 |
| `Sm3UpdateMb16.RegistersStayInRange` | sources/ippcp/crypto_mb/src/sm3/sm3_update_mb16.c:92-141 | one lane's 32-bit registers stay in range: the free room of line 92 in `[1, 64]`, the difference at line 93 in `[-64, len)`, the top-up count in `[0, len]` with `idx + count <= 64`, `loc_len` and its whole blocks in `[0, len]`, and the tail below 64 |
| `Sm3UpdateMb16.Sm3CtxMb16.Compress` | sources/ippcp/crypto_mb/src/sm3/sm3_update_mb16.c:115 | the compression primitive (also called at line 125): lanes with a positive count absorb that many bytes from their pointer, lanes with count 0 are untouched, and whole blocks stay whole |
| `Sm3UpdateMb16.Sm3CtxMb16.StoreBytes` | sources/ippcp/crypto_mb/src/sm3/sm3_update_mb16.c:100 | one byte-masked 64-byte store: the selected bytes land in the lane's block at the offset, and every other byte of every block is unchanged |
| `Sm3UpdateMb16.Sm3CtxMb16.StoreLanes` | sources/ippcp/crypto_mb/src/sm3/sm3_update_mb16.c:134-139 | the loop over the lanes (also lines 97-102) leaves the blocks as `Stored` describes |
| `Sm3UpdateMb16.Sm3CtxMb16.CopyPhase` | sources/ippcp/crypto_mb/src/sm3/sm3_update_mb16.c:92-108 | the counts are the top-up counts, the lengths drop by them, and the lanes become `CopyIn` of the old lanes |
| `Sm3UpdateMb16.Sm3CtxMb16.CompressFullBlocks` | sources/ippcp/crypto_mb/src/sm3/sm3_update_mb16.c:110-117 | full blocks are compressed from the buffers and their index reset, the others untouched |
| `Sm3UpdateMb16.Sm3CtxMb16.TopUpPhase` | sources/ippcp/crypto_mb/src/sm3/sm3_update_mb16.c:90-118 | the lanes become `TopUp` of the old lanes and the length registers drop by the top-up counts |
| `Sm3UpdateMb16.Sm3CtxMb16.TopUpIfPartial` | sources/ippcp/crypto_mb/src/sm3/sm3_update_mb16.c:84-118 | when some lane holds buffered bytes, the lanes become `TopUp` of the old lanes, the offsets are the top-up counts and the lengths drop by them; otherwise nothing changes, the offsets are 0 and the lengths are `len` |
| `Sm3UpdateMb16.Sm3CtxMb16.BulkPhase` | sources/ippcp/crypto_mb/src/sm3/sm3_update_mb16.c:121-130 | the lanes become `Bulk` of the old lanes; pointers advance and lengths drop by the whole blocks, leaving less than a block |
| `Sm3UpdateMb16.Sm3CtxMb16.RemainderPhase` | sources/ippcp/crypto_mb/src/sm3/sm3_update_mb16.c:131-141 | the lanes become `Remainder` of the old lanes |
| `Sm3UpdateMb16.Sm3CtxMb16.ProcessLanes` | sources/ippcp/crypto_mb/src/sm3/sm3_update_mb16.c:84-141 | with the top-up decided by all 16 indices, the lanes become `Update` of the old lanes on their first `len[i]` bytes |
| `Sm3UpdateMb16.Sm3CtxMb16.Commit` | sources/ippcp/crypto_mb/src/sm3/sm3_update_mb16.c:144-146 | active lanes take the new index and length sum, the others keep both |
| `Sm3UpdateMb16.Sm3CtxMb16.WriteBack` | sources/ippcp/crypto_mb/src/sm3/sm3_update_mb16.c:143-146 | after the masked write-back the context's lanes are the updated lanes and its lengths are `LengthsAfter` the old ones |
| `Sm3UpdateMb16.Sm3CtxMb16.AbsorbActive` | sources/ippcp/crypto_mb/src/sm3/sm3_update_mb16.c:62-146 | with at least one active lane, the context's lanes become `UpdateAll` of the old lanes on the fed bytes, and the lengths become `LengthsAfter` the old ones |
| `Sm3UpdateMb16.Sm3CtxMb16.Absorb` | sources/ippcp/crypto_mb/src/sm3/sm3_update_mb16.c:43-147 | the same for any non-null call; with no active lane the body is skipped (line 61), and the lemmas `NothingFedNothingChanges` and `NothingActiveKeepsLengths` show that this is the same update |
| `Sm3UpdateMb16.UpdateMb16` | sources/ippcp/crypto_mb/src/sm3/sm3_update_mb16.c:30-41 | a null parameter gives the null-parameter status in all 16 lanes and leaves the context unchanged; otherwise every lane reports success (line 149) and the context is updated as `Absorb` states |
| `Sm3UpdateMb16.NullContextIgnoresLanes` | sources/ippcp/crypto_mb/src/sm3/sm3_update_mb16.c:38-40 | the null check comes before any lane is read: a null context with null lane pointers and length 5 in every lane still yields the null-parameter status in all 16 lanes |

## Left out

- The SM3 compression function `sm3_avx512_mb16` is not part of this model. The
  digest is represented by the bytes each lane has absorbed, and
  `Sm3CtxMb16.Compress` only says which bytes those are.
- SIMD mechanics are not modelled: vector registers, mask registers and the
  64-byte read-modify-write at `p_buffer[i] + p_idx[i]` (line 100). That store
  may reach past the lane's own buffer but preserves the unselected bytes, so
  only the selected bytes inside the lane's block are modelled.
- The address of the stack `zero_buffer` used as a dummy pointer (lines 63-64) is
  modelled by its content, 64 zero bytes.
- The MSVC optimisation pragma (lines 24-27) is a compiler setting.
- `UpdateMb16` requires well-formed lanes once all three pointers are non-null;
  the null check of lines 38-40 comes first, so a null argument gives the
  null-parameter status whatever the lanes hold. Past that check the source
  accepts two inputs it does not handle, and both are excluded:
  - a null message pointer with a non-zero length, whose digest would absorb
    bytes of the dummy buffer or of the stale block;
  - a negative length, which the `!= 0` test makes active. When the top-up
    runs, line 94 takes the negative length as `proc_len` and the shift at
    line 99 is by more than 64 bits, which is undefined. Without the top-up,
    line 121 gives a negative `loc_len & -64`; the mask of line 122 is still
    non-zero when another lane's count is non-negative, so line 125 hands the
    negative count to the compression primitive, lines 129-130 advance the
    pointer by that count zero-extended (about 4 GiB), and line 137 loads the
    tail from there. The shift at line 136 stays defined (its count is in
    `[1, 63]`).
- `UpdateMb16` states its effect as `UpdateAll` of the old lanes and
  `LengthsAfter` of the old lengths. The per-lane consequences (stream growth,
  new index, length still counting the stream) are separate lemmas about those
  functions, not clauses of the method.
- The 32-bit wrap-around of the `idx`, `loc_len` and `proc_len` registers is
  not modelled, because no such register can wrap: `idx` stays in `[0, 64]`,
  the free room of line 92 is in `[1, 64]` and the difference at line 93 in
  `[-64, len[i])`, `loc_len` and `proc_len` stay in `[0, len[i]]` through
  lines 94, 105, 121 and 127, and line 111 sets `proc_len` to 0 or 64. `RegistersStayInRange` proves these bounds, and with
  `len[i]` below 2^31 every value fits a signed 32-bit register. The 64-bit
  wrap-around of `MSG_LEN` is modelled.
- `Sm3UpdateMb16.Sm3CtxMb16.constructor` stands in for context initialisation,
  which is not part of this model. Finalisation, padding and digest output are
  not part of this model either.
- sources/ippcp/pcpgfpectstpointinsubgroup.c and
  sources/ippcp/pcphashmethodset_sha512_224.c are not part of this model: they
  are unrelated argument checks and method tables.
