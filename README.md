# blockdedup: the single-file scanner, modelled in Dafny

blockdedup looks for duplicate 4096-byte blocks inside one file. `main`
computes the CRC of every block and keeps a hash index `hashes` with one
`Blockinfo { crc, block_number_plus_one }` slot per block. A CRC selects the
slot `crc % block_count`. A block whose CRC is 0 is treated as a hole and
skipped. When a block's CRC equals the CRC stored in its slot, `check_match`
re-reads both blocks and compares their bytes. If they are equal, it extends
the match backward and then forward, and returns the length of the run.
`main` counts the matches and their total length. After a match it skips the
match check for the next `matchlen - 1` non-hole blocks. Every non-hole block
overwrites its slot.

The model has three modules:

- `Blocks` (`blocks.dfy`): bytes, blocks, the u64 CRC type, `block_count`,
  and the u64 subtraction whose underflow the code can hit.
- `Matching` (`matching.dfy`): `check_match`. Each phase is a function. The
  backward loop is `ExtendBackward` and the forward loop is `ExtendForward`.
  `CheckMatch` runs the whole check. Each method is proved equal to its
  function. Lemmas state what the results mean.
- `Scan` (`scan.dfy`): `main`'s loop. `Step` is one iteration and
  `ScanUpTo` is the first `n` iterations. `Scan` runs the loop over an array
  `hashes` that it updates in place, one `VisitBlock` per block, and is proved
  equal to `Run`.

The central invariant is `IndexReflects`. After `n` iterations, every slot
holds the latest non-hole block before `n` whose CRC selects that slot, or is
empty if there is none. This holds whatever was matched or skipped.

The file is a sequence of blocks `b` with `|b| == file_size / 4096 + 1`.
Each read returns the full block. The CRC is a function parameter
`crc: Block -> u64`, so the proofs hold for any checksum.

## Model

| member | source | states |
|---|---|---|
| `Blocks.BlockCount` | src/main.rs:48 | `block_count = file_size/4096 + 1` is at least 1, and `(block_count-1)*4096 <= file_size < block_count*4096`. So `crc % block_count` never divides by zero. |
| `Blocks.CheckedSub` | src/main.rs:148-150 | u64 subtraction `a - b`: there is a result exactly when `b <= a`, and the result plus `b` is `a`. |
| `Matching.MaxBlocksBefore` | src/main.rs:144-151 | `max_blocks_before = min(new-old, old-1)`: there is no value (an underflow abort) exactly when `block_old == 0`. Otherwise the value is one of `old-1` and `new-old` and is at most both. |
| `Matching.BackwardScan` | src/main.rs:153-177 | Every step of the reversed loop leaves `blocks_before` at its incoming value or at an offset between 1 and the current offset. |
| `Matching.BlocksBefore` | src/main.rs:142-177 | After the backward loop, `blocks_before` is 0 or strictly below `max_blocks_before`. |
| `Matching.ForwardRun` | src/main.rs:194-216 | From offset `off`, the loop ends with `blocks_after == off-1` or with a value in `[off, max_blocks_after)`. |
| `Matching.BlocksAfter` | src/main.rs:181-216 | `blocks_after` is 0 or strictly below the exclusive bound `max_blocks_after`. |
| `Matching.MaxBlocksAfter` | src/main.rs:186-191 | `max_blocks_after = min(new-old-blocks_before, full_block_count-new)`: it is one of the two and at most both, so `max_blocks_after + blocks_before <= new - old` and `new + max_blocks_after <= full_block_count`. |
| `Matching.BackwardRunDown` | src/main.rs:153-177 | If the reversed loop enters offset `off` after a run of matches from the top offset down to `off+1`, it ends on the lowest offset of the run that continues down. Every offset from there to the top matched, and the offset just below it did not. |
| `Matching.BlocksBeforeIsLowestOfTopRun` | src/main.rs:147-177 | `blocks_before == 0` exactly when the farthest offset `max_blocks_before-1` is a hole or differs, or the range is empty. Otherwise it is the smallest `k` such that every offset from `k` to `max_blocks_before-1` matches (non-hole, byte-equal). `block_old - blocks_before >= 2`. |
| `Matching.BackwardSettlesOnOffsetOne` | src/main.rs:153-172 | When every offset of the range matches, `blocks_before` is 1, not the farthest matching offset. |
| `Matching.ForwardRunUp` | src/main.rs:194-216 | If the forward loop enters offset `off` after offsets 1 to `off-1` matched, every offset up to its result matched, and the next offset below the cap did not. |
| `Matching.BlocksAfterIsRunLength` | src/main.rs:181-216 | `blocks_after` is the length of the run of matching offsets 1, 2, …. It stops at the first hole or differing pair, stays strictly below `max_blocks_after`, and is 0 when that cap is at most 1. |
| `Matching.CheckMatchOutcomes` | src/main.rs:127-151 | `check_match` returns `Ok(0)` exactly when the anchor blocks differ. It aborts exactly when they are equal and `block_old == 0`. Any length it returns is at most `block_new - block_old`. |
| `Matching.ConfirmedRun` | src/main.rs:142-218 | A positive length is `blocks_before + 1 + blocks_after`. The old span `[old-bb, old+ba]` ends before the new span `[new-bb, new+ba]` begins. The forward blocks lie below `full_block_count` and are non-hole and byte-equal. The backward offsets from `bb` to the bound matched. The whole reported span is byte-identical when `bb <= 1`. |
| `Matching.CheckMatchSpec` | src/main.rs:108-220 | The value `check_match` computes. An abort happens only for equal anchors with `block_old == 0`. Any length, `Ok(0)` for differing anchors or `blocks_before + 1 + blocks_after`, never exceeds `block_new - block_old`. |
| `Matching.ReportedRunCoversHole` | src/main.rs:153-177 | A concrete 10-block file where `check_match(4, 8, 9)` returns 3, although block 3, inside the reported span, is a hole (CRC 0). |
| `Matching.ReportedRunCoversDifferingBlock` | src/main.rs:153-177 | A concrete 10-block file where `check_match(4, 8, 9)` returns 3, although block 3 differs from block 7. |
| `Matching.ExtendBackward` | src/main.rs:153-177 | The imperative reversed loop, with its two `break`s, computes `BlocksBefore`. |
| `Matching.ExtendForward` | src/main.rs:194-216 | The imperative forward loop, with its two `break`s, computes `BlocksAfter`. It is called with `block_new + max_blocks_after <= full_block_count`, and every block it reads, `block_old + offset` and `block_new + offset`, lies below `full_block_count`. |
| `Matching.CheckMatch` | src/main.rs:108-220 | Returns exactly `CheckMatchSpec`. 0 iff the anchors differ, abort iff equal anchors at block 0, any length at most `block_new - block_old`. |
| `Scan.InitialState` | src/main.rs:52-60 | The index starts with `block_count` slots, all empty (`block_number_plus_one == 0`), and `matches`, `total_matchsize` and `skip_match_check` start at 0. |
| `Scan.InitialStateConsistent` | src/main.rs:52-60 | The starting state satisfies the loop invariant: every slot is the latest block of its slot among no blocks, that is, empty. |
| `Scan.SlotOf` | src/main.rs:74 | `crc % block_count` is always a valid index into `hashes`. |
| `Scan.LatestInSlot` | src/main.rs:72-74 | Any block it names comes before `n`, has a non-zero CRC, and that CRC selects the slot. |
| `Scan.LatestInSlotIsLatest` | src/main.rs:72-99 | That block is the latest one: no later block before `n` belongs to the slot. None means no block before `n` belongs to it. |
| `Scan.SlotInvariant` | src/main.rs:82-99 | An empty slot is `(0, 0)`. A filled slot holds a non-zero CRC that selects that very slot, and an earlier block number whose CRC it is. |
| `Scan.Lookup` | src/main.rs:76-96 | The lookup half leaves the index alone and keeps `skip_match_check + matches <= total_matchsize`. It aborts only when `n > 0`, block 0 is not a hole, and block `n` has the same bytes as block 0. |
| `Scan.Step` | src/main.rs:64-102 | One iteration keeps the index invariant (`IndexReflects` for `n+1`) and the counter invariant. It aborts only when `n > 0`, block 0 is not a hole, and block `n` has the same bytes as block 0. |
| `Scan.ScanUpTo` | src/main.rs:56-102 | After any number of iterations that did not abort, the index holds the latest block of every slot and `skip_match_check + matches <= total_matchsize`. An abort within the first `n` blocks needs a non-hole block 0 whose bytes recur at some block `0 < k < n`. |
| `Scan.Run` | src/main.rs:64-102 | The whole loop over `block_count` blocks. On success the final index holds the latest non-hole block of every slot and `matches <= total_matchsize`. The run aborts only when block 0 is not a hole and its bytes recur later in the file. |
| `Scan.HoleBlockIgnored` | src/main.rs:72 | A block with CRC 0 is neither looked up nor stored. The iteration changes nothing. |
| `Scan.StepStoresBlock` | src/main.rs:98-99 | After a non-hole block `n`, its slot holds exactly `(crc, n+1)` and every other slot is unchanged, whether the check ran, found nothing, or was skipped. |
| `Scan.SkipBypassesLookup` | src/main.rs:76-79 | With a positive skip counter, a non-hole block decrements it by exactly 1, skips the lookup and leaves the counters alone. |
| `Scan.LookupHitChecksEarlierBlock` | src/main.rs:80-95 | `check_match` runs only when the counter is 0, the slot is filled, and the stored CRC equals the block's CRC. It then gets `old < new <= block_count-1` with equal CRCs. A positive length adds 1 to `matches`, adds the length to `total_matchsize`, and sets the counter to `matchlen-1`. A zero length, or a miss, changes no counter and leaves the skip counter at 0. An abort ends the run. |
| `Scan.AbortIsFinal` | src/main.rs:87 | Once the run has aborted, it stays aborted with the same error. |
| `Scan.RepeatedFirstBlockAborts` | src/main.rs:84-150 | A non-hole block 0 repeated as block 1 makes the whole run abort on the underflow of `block_old - 1`. |
| `Scan.LookupBlock` | src/main.rs:76-96 | The imperative lookup half (skip or look up, then `check_match`) computes `Lookup`. |
| `Scan.VisitBlock` | src/main.rs:66-101 | One loop body on the in-place array computes `Step`, writing the slot `hashes[crc % block_count]`. |
| `Scan.Scan` | src/main.rs:48-104 | `main`'s loop over every block returns exactly `Run`. On success the final index holds the latest block of every slot and `matches <= total_matchsize`. |

## Behaviour of the code

The model follows `src/main.rs` as written. These behaviours of the code
are easy to miss:

- The skip counter is set to `matchlen - 1`, which is
  `blocks_before + blocks_after` (src/main.rs:93). So after a match with
  `blocks_before > 0`, the match check is also bypassed for `blocks_before`
  non-hole blocks past the end of the run.
- The backward loop runs over `(1..max_blocks_before).rev()` and overwrites
  `blocks_before` on every success (src/main.rs:153-172). So it ends on the
  lowest offset of the run that starts at the farthest offset. It does not
  extend maximally from the anchor. `BackwardSettlesOnOffsetOne` shows it
  returns 1 when every offset matches.
- The reported length can cover blocks that do not match.
  `ReportedRunCoversDifferingBlock` gives a file where the reported span
  contains a block that differs from its partner.
  `ReportedRunCoversHole` gives one where it contains a hole (a block with
  CRC 0). Both examples are at the level of `check_match`; no lemma exhibits
  a whole scan that reaches them. `ConfirmedRun` states exactly which
  blocks of a reported span are known to match.
- Both loop bounds are exclusive. Offset `max_blocks_before` is never
  examined, so blocks 0 and 1 never join a backward extension. Offset
  `max_blocks_after` is never examined either.
- `block_old - 1` underflows when the slot hit is block 0 and the anchors are
  equal (src/main.rs:148). The model treats this as an abort of the whole run,
  as Rust's overflow check does. `RepeatedFirstBlockAborts` shows a file that
  reaches it.
- The index has `file_size/4096 + 1` slots, and the loop visits that many
  blocks (src/main.rs:48, src/main.rs:64). This includes the trailing partial
  block, or an empty one when the size is a multiple of 4096. The forward
  extension never reads that last block, because its reads stay below
  `full_block_count = block_count - 1`.
- This file has no shared-extent call and no minimum run length. Matches are
  only counted.

## Left out

- File I/O is not modelled: `File::open`, `metadata`, `BufReader`, `seek`
  and `read`. Block `k` is `b[k]`, and the I/O errors that `?` propagates are
  not modelled. The only abort modelled is the underflow.
- Short reads are not modelled. The code ignores the byte count `read`
  returns and never clears the buffer, so a short read (the trailing partial
  block, or the extra block when the size is a multiple of 4096) hashes stale
  bytes from the previous read. The model assumes every read yields the whole
  content of `b[k]`.
- The CRC-64/ECMA-182 computation from the `crc` crate is a function
  parameter. It is a foreign library call, and no property depends on the
  polynomial.
- Printed output and the unused diagnostic CRCs in `check_match` are left out
  (src/main.rs:129-135).
- Overflow of `block_number + 1`, `matches`, `total_matchsize` and the
  `* 4096` seek offsets is not modelled (naturals are unbounded). It cannot
  occur for real file sizes.
- Release-build wrap-around is not modelled. In a release build
  `block_old - 1` wraps around instead of panicking. The model keeps only
  the panic, modelled as an abort.
- The `usize::try_from(...).unwrap()` conversions are left out. They cannot
  fail on a 64-bit target.
- The shared-extent ioctl, multi-file catalogs and directory traversal are
  not part of this file. The path is fixed to `"test"`.
