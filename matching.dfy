/** `check_match`: confirm that two blocks with equal CRCs really hold the
    same bytes, then extend the match backward and forward from that anchor.
    The functions give the result of each phase as the code computes it; the
    methods `ExtendBackward`, `ExtendForward` and `CheckMatch` run the two
    loops and the whole check, and are proved to agree with them. */
module Matching {
  import opened Blocks

  /** Offset `k` of the backward phase compares block `blockOld - k` with `blockNew - k`. */
  predicate BackMatched(b: seq<Block>, crc: Checksum, blockOld: nat, blockNew: nat, k: nat)
    requires k <= blockOld < blockNew < |b|
  {
    Matched(b, crc, blockOld - k, blockNew - k)
  }

  /** Offset `j` of the forward phase compares block `blockOld + j` with `blockNew + j`. */
  predicate FwdMatched(b: seq<Block>, crc: Checksum, blockOld: nat, blockNew: nat, j: nat)
    requires blockOld < blockNew && blockNew + j < |b|
  {
    Matched(b, crc, blockOld + j, blockNew + j)
  }

  /** Block `i` against the block as far after it as `blockNew` is after
      `blockOld`: the pair both spans of a match put side by side. */
  predicate PairMatched(b: seq<Block>, crc: Checksum, blockOld: nat, blockNew: nat, i: nat)
    requires blockOld < blockNew && i + (blockNew - blockOld) < |b|
  {
    Matched(b, crc, i, i + (blockNew - blockOld))
  }

  /** `max_blocks_before = min(blockNew - blockOld, blockOld - 1)`, where `blockOld - 1` is a u64
      subtraction: `None` when it underflows. */
  function MaxBlocksBefore(blockOld: nat, blockNew: nat): (r: Option<nat>)
    requires blockOld < blockNew
    ensures r.None? <==> blockOld == 0
    ensures r.Some? ==> r.value < blockOld && r.value <= blockNew - blockOld
    ensures r.Some? ==> r.value == blockOld - 1 || r.value == blockNew - blockOld
  {
    match CheckedSub(blockOld, 1)
    case None => None
    case Some(oldMinusOne) => Some(Min(blockNew - blockOld, oldMinusOne))
  }

  /** The reversed loop over `(1..m).rev()` from the point where `off` is
      the offset to examine next (0 once the range is used up) and `acc` is
      the current `blocks_before`. */
  function BackwardScan(b: seq<Block>, crc: Checksum, blockOld: nat, blockNew: nat, off: nat, acc: nat): (r: nat)
    requires blockOld < blockNew < |b| && off < blockOld
    ensures r == acc || 1 <= r <= off
    decreases off
  {
    if off == 0 then acc
    else if BackMatched(b, crc, blockOld, blockNew, off) then BackwardScan(b, crc, blockOld, blockNew, off - 1, off)
    else acc
  }

  /** `blocks_before` after the backward loop with bound `m`. */
  function BlocksBefore(b: seq<Block>, crc: Checksum, blockOld: nat, blockNew: nat, m: nat): (r: nat)
    requires blockOld < blockNew < |b| && m < blockOld
    ensures r == 0 || r < m
  {
    if m <= 1 then 0 else BackwardScan(b, crc, blockOld, blockNew, m - 1, 0)
  }

  /** The forward loop over `1..lim` from offset `off`, every earlier
      offset having matched; the result is the final `blocks_after`. */
  function ForwardRun(b: seq<Block>, crc: Checksum, blockOld: nat, blockNew: nat, lim: nat, off: nat): (r: nat)
    requires blockOld < blockNew && 1 <= off && blockNew + lim <= |b|
    ensures r == off - 1 || off <= r < lim
    decreases lim - off
  {
    if off < lim && FwdMatched(b, crc, blockOld, blockNew, off) then ForwardRun(b, crc, blockOld, blockNew, lim, off + 1)
    else off - 1
  }

  /** `blocks_after` after the forward loop with bound `lim`. */
  function BlocksAfter(b: seq<Block>, crc: Checksum, blockOld: nat, blockNew: nat, lim: nat): (r: nat)
    requires blockOld < blockNew && blockNew + lim <= |b|
    ensures r == 0 || r < lim
  {
    ForwardRun(b, crc, blockOld, blockNew, lim, 1)
  }

  /** `max_blocks_after = min(blockNew - blockOld - blocks_before, full - blockNew)`. */
  function MaxBlocksAfter(blockOld: nat, blockNew: nat, full: nat, bb: nat): (r: nat)
    requires blockOld + bb <= blockNew <= full
    ensures r + bb <= blockNew - blockOld && blockNew + r <= full
    ensures r == blockNew - blockOld - bb || r == full - blockNew
  {
    Min(blockNew - blockOld - bb, full - blockNew)
  }

  /** What `check_match(blockOld, blockNew, full)` returns: `Ok(0)` for a false hash
      hit, the abort of `blockOld - 1` when `blockOld == 0`, otherwise
      `blocks_before + 1 + blocks_after`. */
  function CheckMatchSpec(b: seq<Block>, crc: Checksum, blockOld: nat, blockNew: nat, full: nat): (r: Result<nat>)
    requires blockOld < blockNew <= full < |b|
    ensures r.Err? ==> blockOld == 0 && b[blockOld] == b[blockNew]
    ensures r.Ok? ==> r.value <= blockNew - blockOld
  {
    if b[blockOld] != b[blockNew] then Ok(0)
    else
      match MaxBlocksBefore(blockOld, blockNew)
      case None => Err(SubtractionUnderflow)
      case Some(m) =>
        var bb := BlocksBefore(b, crc, blockOld, blockNew, m);
        Ok(bb + 1 + BlocksAfter(b, crc, blockOld, blockNew, MaxBlocksAfter(blockOld, blockNew, full, bb)))
  }

  /** The loop, entered at offset `off` after a run of matches from the top
      offset down to `off + 1`, stops at the lowest offset of the run that
      continues downward. */
  lemma {:induction false} BackwardRunDown(b: seq<Block>, crc: Checksum, blockOld: nat, blockNew: nat, off: nat, top: nat)
    requires blockOld < blockNew < |b| && off < top < blockOld
    requires forall k :: off < k <= top ==> BackMatched(b, crc, blockOld, blockNew, k)
    ensures var r := BackwardScan(b, crc, blockOld, blockNew, off, off + 1);
      1 <= r <= off + 1 &&
      (forall k :: r <= k <= top ==> BackMatched(b, crc, blockOld, blockNew, k)) &&
      (r > 1 ==> !BackMatched(b, crc, blockOld, blockNew, r - 1))
    decreases off
  {
    if off > 0 && BackMatched(b, crc, blockOld, blockNew, off) {
      BackwardRunDown(b, crc, blockOld, blockNew, off - 1, top);
    }
  }

  /** `blocks_before` is 0 exactly when the farthest offset `m - 1` does not
      match (or there is no offset); otherwise it is the smallest `k` such
      that every offset from `k` to `m - 1` matches. Blocks 0 and 1 are
      never reached. */
  lemma BlocksBeforeIsLowestOfTopRun(b: seq<Block>, crc: Checksum, blockOld: nat, blockNew: nat, m: nat)
    requires blockOld < blockNew < |b| && m < blockOld
    ensures var bb := BlocksBefore(b, crc, blockOld, blockNew, m);
      (bb == 0 <==> m <= 1 || !BackMatched(b, crc, blockOld, blockNew, m - 1)) &&
      (bb > 0 ==>
        bb < m && blockOld - bb >= 2 &&
        (forall k :: bb <= k < m ==> BackMatched(b, crc, blockOld, blockNew, k)) &&
        (bb == 1 || !BackMatched(b, crc, blockOld, blockNew, bb - 1)))
  {
    if m > 1 && BackMatched(b, crc, blockOld, blockNew, m - 1) {
      BackwardRunDown(b, crc, blockOld, blockNew, m - 2, m - 1);
    }
  }

  /** When every offset of the range matches, the reversed loop ends on
      offset 1: `blocks_before` is 1, not the farthest matching offset. */
  lemma BackwardSettlesOnOffsetOne(b: seq<Block>, crc: Checksum, blockOld: nat, blockNew: nat, m: nat)
    requires blockOld < blockNew < |b| && 2 <= m < blockOld
    requires forall k :: 1 <= k < m ==> BackMatched(b, crc, blockOld, blockNew, k)
    ensures BlocksBefore(b, crc, blockOld, blockNew, m) == 1
  {
    BlocksBeforeIsLowestOfTopRun(b, crc, blockOld, blockNew, m);
  }

  /** The forward loop, entered at offset `off` after offsets 1 to `off - 1`
      matched, stops at the end of that run or at the cap. */
  lemma {:induction false} ForwardRunUp(b: seq<Block>, crc: Checksum, blockOld: nat, blockNew: nat, lim: nat, off: nat)
    requires blockOld < blockNew && 1 <= off && blockNew + lim <= |b|
    requires off <= lim || off == 1
    requires forall j :: 1 <= j < off ==> FwdMatched(b, crc, blockOld, blockNew, j)
    ensures var r := ForwardRun(b, crc, blockOld, blockNew, lim, off);
      (forall j :: 1 <= j <= r ==> FwdMatched(b, crc, blockOld, blockNew, j)) &&
      (r + 1 < lim ==> !FwdMatched(b, crc, blockOld, blockNew, r + 1))
    decreases lim - off
  {
    if off < lim && FwdMatched(b, crc, blockOld, blockNew, off) {
      ForwardRunUp(b, crc, blockOld, blockNew, lim, off + 1);
    }
  }

  /** `blocks_after` is the length of the run of matching offsets 1, 2, ...,
      cut off strictly below the exclusive bound `lim` (0 when `lim <= 1`). */
  lemma BlocksAfterIsRunLength(b: seq<Block>, crc: Checksum, blockOld: nat, blockNew: nat, lim: nat)
    requires blockOld < blockNew && blockNew + lim <= |b|
    ensures var ba := BlocksAfter(b, crc, blockOld, blockNew, lim);
      (lim <= 1 ==> ba == 0) &&
      (lim >= 1 ==> ba < lim) &&
      (forall j :: 1 <= j <= ba ==> FwdMatched(b, crc, blockOld, blockNew, j)) &&
      (ba + 1 < lim ==> !FwdMatched(b, crc, blockOld, blockNew, ba + 1))
  {
    ForwardRunUp(b, crc, blockOld, blockNew, lim, 1);
  }

  /** The three outcomes of `check_match`: 0 exactly for differing anchors,
      the abort exactly for equal anchors at block 0, and otherwise a length
      of at least 1 that never exceeds the distance `blockNew - blockOld`. */
  lemma CheckMatchOutcomes(b: seq<Block>, crc: Checksum, blockOld: nat, blockNew: nat, full: nat)
    requires blockOld < blockNew <= full < |b|
    ensures var r := CheckMatchSpec(b, crc, blockOld, blockNew, full);
      (r == Ok(0) <==> b[blockOld] != b[blockNew]) &&
      (r.Err? <==> b[blockOld] == b[blockNew] && blockOld == 0) &&
      (r.Ok? ==> r.value <= blockNew - blockOld)
  {
  }

  /** A confirmed match: the anchors are equal; the old span
      `[blockOld - bb, blockOld + ba]` ends before the new span
      `[blockNew - bb, blockNew + ba]` begins; the forward blocks stay below
      `full` and are non-hole and identical; the backward offsets from `bb`
      up to the bound all matched. The whole reported span is
      byte-identical when `bb <= 1`. */
  lemma ConfirmedRun(b: seq<Block>, crc: Checksum, blockOld: nat, blockNew: nat, full: nat)
    requires blockOld < blockNew <= full < |b|
    requires CheckMatchSpec(b, crc, blockOld, blockNew, full).Ok?
    requires CheckMatchSpec(b, crc, blockOld, blockNew, full).value > 0
    ensures 1 <= blockOld && b[blockOld] == b[blockNew]
    ensures var m := MaxBlocksBefore(blockOld, blockNew).value;
      var bb := BlocksBefore(b, crc, blockOld, blockNew, m);
      var ba := BlocksAfter(b, crc, blockOld, blockNew, MaxBlocksAfter(blockOld, blockNew, full, bb));
      CheckMatchSpec(b, crc, blockOld, blockNew, full).value == bb + 1 + ba &&
      bb < blockOld && blockOld + ba < blockNew - bb && (ba > 0 ==> blockNew + ba < full) &&
      (forall i: nat :: blockOld < i <= blockOld + ba ==> PairMatched(b, crc, blockOld, blockNew, i)) &&
      (forall i: nat :: blockOld - m < i <= blockOld - bb && bb > 0 ==> PairMatched(b, crc, blockOld, blockNew, i)) &&
      (bb <= 1 ==> forall i: nat :: blockOld - bb <= i <= blockOld + ba ==> b[i] == b[i + (blockNew - blockOld)])
  {
    var m := MaxBlocksBefore(blockOld, blockNew).value;
    var bb := BlocksBefore(b, crc, blockOld, blockNew, m);
    var lim := MaxBlocksAfter(blockOld, blockNew, full, bb);
    var ba := BlocksAfter(b, crc, blockOld, blockNew, lim);
    BlocksBeforeIsLowestOfTopRun(b, crc, blockOld, blockNew, m);
    BlocksAfterIsRunLength(b, crc, blockOld, blockNew, lim);
    forall i: nat | blockOld < i <= blockOld + ba
      ensures PairMatched(b, crc, blockOld, blockNew, i)
    {
      assert FwdMatched(b, crc, blockOld, blockNew, i - blockOld);
    }
    forall i: nat | blockOld - m < i <= blockOld - bb && bb > 0
      ensures PairMatched(b, crc, blockOld, blockNew, i)
    {
      assert BackMatched(b, crc, blockOld, blockNew, blockOld - i);
    }
    if bb <= 1 {
      forall i: nat | blockOld - bb <= i <= blockOld + ba
        ensures b[i] == b[i + (blockNew - blockOld)]
      {
        if i < blockOld {
          assert BackMatched(b, crc, blockOld, blockNew, 1);
        } else if i > blockOld {
          assert FwdMatched(b, crc, blockOld, blockNew, i - blockOld);
        }
      }
    }
  }

  /** As written, the reported span can cover a block that does not match:
      here the backward phase settles on offset 2 after offset 1 failed, so
      the length 3 claims blocks 2..4 equal blocks 6..8 although block 3
      differs from block 7. */
  lemma ReportedRunCoversDifferingBlock(crc: Checksum)
    requires crc([1]) != 0
    ensures var b: seq<Block> := [[1], [1], [1], [2], [1], [1], [1], [3], [1], [1]];
      CheckMatchSpec(b, crc, 4, 8, 9) == Ok(3) && b[3] != b[7]
  {
    var b: seq<Block> := [[1], [1], [1], [2], [1], [1], [1], [3], [1], [1]];
    assert MaxBlocksBefore(4, 8) == Some(3);
    assert BackMatched(b, crc, 4, 8, 2);
    assert !BackMatched(b, crc, 4, 8, 1);
    assert BlocksBefore(b, crc, 4, 8, 3) == 2;
    assert MaxBlocksAfter(4, 8, 9, 2) == 1;
  }

  /** A hole inside the reported span: with block 3 a hole (CRC 0), the
      backward phase still settles on offset 2 and the length 3 claims
      blocks 2..4, hole included, equal blocks 6..8. */
  lemma ReportedRunCoversHole(crc: Checksum)
    requires crc([1]) != 0 && crc([0]) == 0
    ensures var b: seq<Block> := [[1], [1], [1], [0], [1], [1], [1], [0], [1], [1]];
      CheckMatchSpec(b, crc, 4, 8, 9) == Ok(3) && crc(b[3]) == 0
  {
    var b: seq<Block> := [[1], [1], [1], [0], [1], [1], [1], [0], [1], [1]];
    assert MaxBlocksBefore(4, 8) == Some(3);
    assert BackMatched(b, crc, 4, 8, 2);
    assert !BackMatched(b, crc, 4, 8, 1);
    assert BlocksBefore(b, crc, 4, 8, 3) == 2;
    assert MaxBlocksAfter(4, 8, 9, 2) == 1;
  }

  /** The loop `for block_offset in (1..m).rev()`: from the farthest offset
      toward offset 1, stop at a hole or a differing pair, otherwise record
      the offset as `blocks_before`. */
  method ExtendBackward(b: seq<Block>, crc: Checksum, blockOld: nat, blockNew: nat, maxBlocksBefore: nat)
    returns (blocksBefore: nat)
    requires blockOld < blockNew < |b| && maxBlocksBefore < blockOld
    ensures blocksBefore == BlocksBefore(b, crc, blockOld, blockNew, maxBlocksBefore)
  {
    blocksBefore := 0;
    var blockOffset: nat := maxBlocksBefore;
    while blockOffset > 1
      invariant blockOffset <= maxBlocksBefore
      invariant (if blockOffset >= 1 then BackwardScan(b, crc, blockOld, blockNew, blockOffset - 1, blocksBefore) else blocksBefore)
             == BlocksBefore(b, crc, blockOld, blockNew, maxBlocksBefore)
    {
      blockOffset := blockOffset - 1;
      if crc(b[blockOld - blockOffset]) == 0 {
        break;
      }
      if b[blockOld - blockOffset] == b[blockNew - blockOffset] {
        blocksBefore := blockOffset;
      } else {
        break;
      }
    }
  }

  /** The loop `for block_offset in 1..max_blocks_after`: from offset 1
      upward, stop at a hole or a differing pair, otherwise record the offset
      as `blocks_after`. */
  method ExtendForward(b: seq<Block>, crc: Checksum, blockOld: nat, blockNew: nat, maxBlocksAfter: nat, fullBlockCount: nat)
    returns (blocksAfter: nat)
    requires blockOld < blockNew && blockNew + maxBlocksAfter <= fullBlockCount < |b|
    ensures blocksAfter == BlocksAfter(b, crc, blockOld, blockNew, maxBlocksAfter)
  {
    blocksAfter := 0;
    var blockOffset: nat := 1;
    while blockOffset < maxBlocksAfter
      invariant 1 <= blockOffset && blocksAfter == blockOffset - 1
      invariant ForwardRun(b, crc, blockOld, blockNew, maxBlocksAfter, blockOffset)
             == BlocksAfter(b, crc, blockOld, blockNew, maxBlocksAfter)
      decreases maxBlocksAfter - blockOffset
    {
      // Both reads stay below `full_block_count`: the trailing block is never read here.
      assert blockOld + blockOffset < fullBlockCount && blockNew + blockOffset < fullBlockCount;
      if crc(b[blockOld + blockOffset]) == 0 {
        break;
      }
      if b[blockOld + blockOffset] == b[blockNew + blockOffset] {
        blocksAfter := blockOffset;
      } else {
        break;
      }
      blockOffset := blockOffset + 1;
    }
  }

  /** `check_match` as the program runs it: the anchor comparison, the
      bound computations with the u64 subtraction `block_old - 1`, then
      the backward and the forward loop. */
  method CheckMatch(b: seq<Block>, crc: Checksum, blockOld: nat, blockNew: nat, fullBlockCount: nat)
    returns (r: Result<nat>)
    requires blockOld < blockNew <= fullBlockCount < |b|
    ensures r == CheckMatchSpec(b, crc, blockOld, blockNew, fullBlockCount)
    ensures r == Ok(0) <==> b[blockOld] != b[blockNew]
    ensures r.Err? <==> b[blockOld] == b[blockNew] && blockOld == 0
    ensures r.Ok? ==> r.value <= blockNew - blockOld
  {
    CheckMatchOutcomes(b, crc, blockOld, blockNew, fullBlockCount);
    if b[blockOld] != b[blockNew] {
      return Ok(0);
    }

    var matchlenMax: nat := blockNew - blockOld;
    var maxBlocksBefore: nat := matchlenMax;
    var oldMinusOne := CheckedSub(blockOld, 1);
    if oldMinusOne.None? {
      return Err(SubtractionUnderflow);
    }
    if maxBlocksBefore > oldMinusOne.value {
      maxBlocksBefore := oldMinusOne.value;
    }
    assert MaxBlocksBefore(blockOld, blockNew) == Some(maxBlocksBefore);
    var blocksBefore := ExtendBackward(b, crc, blockOld, blockNew, maxBlocksBefore);

    var maxBlocksAfter: nat := matchlenMax - blocksBefore;
    var remainingBlocks: nat := fullBlockCount - blockNew;
    if maxBlocksAfter > remainingBlocks {
      maxBlocksAfter := remainingBlocks;
    }
    assert maxBlocksAfter == MaxBlocksAfter(blockOld, blockNew, fullBlockCount, blocksBefore);
    var blocksAfter := ExtendForward(b, crc, blockOld, blockNew, maxBlocksAfter, fullBlockCount);

    return Ok(blocksBefore + 1 + blocksAfter);
  }
}
