/** The scan loop of `main`: one pass over the blocks of the file, a hash
    index with one slot per block selected by `crc % block_count`, the
    skip counter that follows a confirmed match, and the two counters that
    are reported at the end. The functions describe one iteration and the
    state after the first `n` iterations; the method `Scan` runs the loop
    over an array updated in place and is proved to agree with them. */
module Scan {
  import opened Blocks
  import opened Matching

  /** One slot of the index: a CRC and the number of the block that had it,
      plus one, so that 0 marks an empty slot. */
  datatype Blockinfo = Blockinfo(crc: u64, blockNumberPlusOne: nat)

  const EmptySlot: Blockinfo := Blockinfo(0, 0)

  /** The loop's variables between iterations. */
  datatype ScanState = ScanState(
    hashes: seq<Blockinfo>,
    matches: nat,
    totalMatchsize: nat,
    skipMatchCheck: nat)

  /** `crc % block_count`: the slot a CRC selects. */
  function SlotOf(c: u64, blockCount: nat): (i: nat)
    requires blockCount >= 1
    ensures i < blockCount
  {
    (c as int) % blockCount
  }

  /** Block `k` is not a hole and its CRC selects slot `i`. */
  predicate InSlot(b: seq<Block>, crc: Checksum, k: nat, i: nat)
    requires 1 <= |b| && k < |b|
  {
    crc(b[k]) != 0 && SlotOf(crc(b[k]), |b|) == i
  }

  /** The most recent block before `n` that belongs to slot `i`. */
  function LatestInSlot(b: seq<Block>, crc: Checksum, i: nat, n: nat): (r: Option<nat>)
    requires 1 <= |b| && n <= |b|
    ensures r.Some? ==> r.value < n && InSlot(b, crc, r.value, i)
  {
    if n == 0 then None
    else if InSlot(b, crc, n - 1, i) then Some(n - 1)
    else LatestInSlot(b, crc, i, n - 1)
  }

  /** What slot `i` holds once blocks `0 .. n-1` have been visited. */
  function ExpectedSlot(b: seq<Block>, crc: Checksum, i: nat, n: nat): (slot: Blockinfo)
    requires 1 <= |b| && n <= |b|
    ensures slot.blockNumberPlusOne <= n
  {
    match LatestInSlot(b, crc, i, n)
    case None => EmptySlot
    case Some(k) => Blockinfo(crc(b[k]), k + 1)
  }

  /** The index after `n` iterations: one slot per block, each holding the
      latest non-hole block of that slot, whatever was matched or skipped. */
  predicate IndexReflects(hashes: seq<Blockinfo>, b: seq<Block>, crc: Checksum, n: nat)
    requires 1 <= |b| && n <= |b|
  {
    |hashes| == |b| &&
    forall i :: 0 <= i < |hashes| ==> hashes[i] == ExpectedSlot(b, crc, i, n)
  }

  /** The invariant of the loop between iterations. */
  predicate Consistent(st: ScanState, b: seq<Block>, crc: Checksum, n: nat)
    requires 1 <= |b| && n <= |b|
  {
    IndexReflects(st.hashes, b, crc, n) &&
    st.skipMatchCheck + st.matches <= st.totalMatchsize
  }

  /** `vec![Blockinfo {crc: 0, block_number_plus_one: 0}; block_count]` and
      the three counters at 0: every slot is empty. */
  function InitialState(blockCount: nat): (s: ScanState)
    ensures |s.hashes| == blockCount
    ensures forall i :: 0 <= i < blockCount ==> s.hashes[i].blockNumberPlusOne == 0
    ensures s.matches == 0 && s.totalMatchsize == 0 && s.skipMatchCheck == 0
  {
    ScanState(seq(blockCount, _ => EmptySlot), 0, 0, 0)
  }

  /** `LatestInSlot` is the latest block of the slot: it belongs to the slot
      and no later block before `n` does; `None` means no block before `n`
      belongs to the slot. */
  lemma {:induction false} LatestInSlotIsLatest(b: seq<Block>, crc: Checksum, i: nat, n: nat)
    requires 1 <= |b| && n <= |b|
    ensures LatestInSlot(b, crc, i, n).None? <==> forall k :: 0 <= k < n ==> !InSlot(b, crc, k, i)
    ensures LatestInSlot(b, crc, i, n).Some? ==>
      forall k :: LatestInSlot(b, crc, i, n).value < k < n ==> !InSlot(b, crc, k, i)
  {
    if n > 0 && !InSlot(b, crc, n - 1, i) {
      LatestInSlotIsLatest(b, crc, i, n - 1);
    }
  }

  /** Before the first iteration the index already reflects the (empty)
      prefix of the file: no block precedes block 0, so every slot is the
      empty slot the scan starts with. */
  lemma InitialStateConsistent(b: seq<Block>, crc: Checksum)
    requires 1 <= |b|
    ensures Consistent(InitialState(|b|), b, crc, 0)
  {
    assert IndexReflects(InitialState(|b|).hashes, b, crc, 0);
  }

  /** What the index promises of every slot: an empty slot is all zero; a
      filled slot holds a non-zero CRC that selects that very slot, and the
      number of an earlier block whose CRC it is. */
  lemma SlotInvariant(hashes: seq<Blockinfo>, b: seq<Block>, crc: Checksum, n: nat, i: nat)
    requires 1 <= |b| && n <= |b| && i < |b|
    requires IndexReflects(hashes, b, crc, n)
    ensures hashes[i].blockNumberPlusOne == 0 ==> hashes[i] == EmptySlot
    ensures hashes[i].blockNumberPlusOne > 0 ==>
      hashes[i].crc != 0 && SlotOf(hashes[i].crc, |b|) == i &&
      hashes[i].blockNumberPlusOne - 1 < n &&
      crc(b[hashes[i].blockNumberPlusOne - 1]) == hashes[i].crc
  {
    assert hashes[i] == ExpectedSlot(b, crc, i, n);
  }

  /** The lookup half of an iteration: skip, or look up the slot and run
      `check_match` on a hit; the index is not touched yet. */
  function Lookup(b: seq<Block>, crc: Checksum, st: ScanState, n: nat): (r: Result<ScanState>)
    requires 1 <= |b| && n < |b| && Consistent(st, b, crc, n) && crc(b[n]) != 0
    ensures r.Ok? ==> r.value.hashes == st.hashes
    ensures r.Ok? ==> r.value.skipMatchCheck + r.value.matches <= r.value.totalMatchsize
    ensures r.Err? ==> 0 < n && crc(b[0]) != 0 && b[n] == b[0]
  {
    var c := crc(b[n]);
    var i := SlotOf(c, |b|);
    if st.skipMatchCheck > 0 then
      Ok(st.(skipMatchCheck := st.skipMatchCheck - 1))
    else if st.hashes[i].blockNumberPlusOne > 0 && st.hashes[i].crc == c then
      SlotInvariant(st.hashes, b, crc, n, i);
      match CheckMatchSpec(b, crc, st.hashes[i].blockNumberPlusOne - 1, n, |b| - 1)
      case Err(e) => Err(e)
      case Ok(matchlen) =>
        if matchlen > 0 then
          Ok(st.(matches := st.matches + 1,
                 totalMatchsize := st.totalMatchsize + matchlen,
                 skipMatchCheck := matchlen - 1))
        else Ok(st)
    else Ok(st)
  }

  /** One iteration of the loop, for block `n`. */
  function Step(b: seq<Block>, crc: Checksum, st: ScanState, n: nat): (r: Result<ScanState>)
    requires 1 <= |b| && n < |b| && Consistent(st, b, crc, n)
    ensures r.Ok? ==> Consistent(r.value, b, crc, n + 1)
    ensures r.Err? ==> 0 < n && crc(b[0]) != 0 && b[n] == b[0]
  {
    var c := crc(b[n]);
    if c == 0 then
      assert IndexReflects(st.hashes, b, crc, n + 1) by {
        forall i | 0 <= i < |st.hashes| ensures st.hashes[i] == ExpectedSlot(b, crc, i, n + 1) {
          assert ExpectedSlot(b, crc, i, n + 1) == ExpectedSlot(b, crc, i, n);
        }
      }
      Ok(st)
    else
      var i := SlotOf(c, |b|);
      match Lookup(b, crc, st, n)
      case Err(e) => Err(e)
      case Ok(s) =>
        var hashes := s.hashes[i := Blockinfo(c, n + 1)];
        assert IndexReflects(hashes, b, crc, n + 1) by {
          forall j | 0 <= j < |hashes| ensures hashes[j] == ExpectedSlot(b, crc, j, n + 1) {
            if j != i {
              assert ExpectedSlot(b, crc, j, n + 1) == ExpectedSlot(b, crc, j, n);
            }
          }
        }
        Ok(s.(hashes := hashes))
  }

  /** The state after the first `n` iterations, or the abort that ended the
      run early. */
  function ScanUpTo(b: seq<Block>, crc: Checksum, n: nat): (r: Result<ScanState>)
    requires 1 <= |b| && n <= |b|
    ensures r.Ok? ==> Consistent(r.value, b, crc, n)
    ensures r.Err? ==> crc(b[0]) != 0 && exists k :: 0 < k < n && b[k] == b[0]
  {
    if n == 0 then
      InitialStateConsistent(b, crc);
      Ok(InitialState(|b|))
    else
      match ScanUpTo(b, crc, n - 1)
      case Err(e) => Err(e)
      case Ok(st) => Step(b, crc, st, n - 1)
  }

  /** The outcome of the whole loop over `block_count` blocks. */
  function Run(b: seq<Block>, crc: Checksum): (r: Result<ScanState>)
    requires 1 <= |b|
    ensures r.Ok? ==> IndexReflects(r.value.hashes, b, crc, |b|) && r.value.matches <= r.value.totalMatchsize
    ensures r.Err? ==> crc(b[0]) != 0 && exists k :: 0 < k < |b| && b[k] == b[0]
  {
    ScanUpTo(b, crc, |b|)
  }

  /** A block whose CRC is 0 is neither looked up nor stored: the
      iteration leaves the whole state as it was. */
  lemma HoleBlockIgnored(b: seq<Block>, crc: Checksum, st: ScanState, n: nat)
    requires 1 <= |b| && n < |b| && Consistent(st, b, crc, n)
    requires crc(b[n]) == 0
    ensures Step(b, crc, st, n) == Ok(st)
  {
  }

  /** After a successful iteration for a non-hole block `n`, its slot holds
      exactly `(crc, n + 1)` and every other slot is unchanged, whether the
      match check ran, found nothing, or was skipped. */
  lemma StepStoresBlock(b: seq<Block>, crc: Checksum, st: ScanState, n: nat)
    requires 1 <= |b| && n < |b| && Consistent(st, b, crc, n)
    requires crc(b[n]) != 0 && Step(b, crc, st, n).Ok?
    ensures var after := Step(b, crc, st, n).value;
      var i := SlotOf(crc(b[n]), |b|);
      after.hashes[i] == Blockinfo(crc(b[n]), n + 1) &&
      forall j :: 0 <= j < |b| && j != i ==> after.hashes[j] == st.hashes[j]
  {
  }

  /** While the skip counter is positive, a non-hole block decrements it by
      exactly one, does not consult the index and changes no counter. */
  lemma SkipBypassesLookup(b: seq<Block>, crc: Checksum, st: ScanState, n: nat)
    requires 1 <= |b| && n < |b| && Consistent(st, b, crc, n)
    requires crc(b[n]) != 0 && st.skipMatchCheck > 0
    ensures Step(b, crc, st, n).Ok?
    ensures var after := Step(b, crc, st, n).value;
      after.skipMatchCheck == st.skipMatchCheck - 1 &&
      after.matches == st.matches && after.totalMatchsize == st.totalMatchsize
  {
  }

  /** `check_match` runs exactly when the counter is 0 and the slot is a
      hit, and then on an earlier block `blockOld < n <= block_count - 1` that
      has the same CRC. A positive length counts one match, adds the length
      to the total and sets the counter to `matchlen - 1`; a zero length
      changes no counter; an abort ends the run. */
  lemma LookupHitChecksEarlierBlock(b: seq<Block>, crc: Checksum, st: ScanState, n: nat)
    requires 1 <= |b| && n < |b| && Consistent(st, b, crc, n)
    requires crc(b[n]) != 0 && st.skipMatchCheck == 0
    ensures var slot := st.hashes[SlotOf(crc(b[n]), |b|)];
      var hit := slot.blockNumberPlusOne > 0 && slot.crc == crc(b[n]);
      (hit ==>
        var blockOld := slot.blockNumberPlusOne - 1;
        blockOld < n <= |b| - 1 && crc(b[blockOld]) == crc(b[n]) &&
        match CheckMatchSpec(b, crc, blockOld, n, |b| - 1)
        case Err(e) => Step(b, crc, st, n) == Err(e)
        case Ok(matchlen) =>
          Step(b, crc, st, n).Ok? &&
          var after := Step(b, crc, st, n).value;
          if matchlen > 0 then
            after.matches == st.matches + 1 &&
            after.totalMatchsize == st.totalMatchsize + matchlen &&
            after.skipMatchCheck == matchlen - 1
          else
            after.matches == st.matches && after.totalMatchsize == st.totalMatchsize &&
            after.skipMatchCheck == 0) &&
      (!hit ==>
        Step(b, crc, st, n).Ok? &&
        Step(b, crc, st, n).value.matches == st.matches &&
        Step(b, crc, st, n).value.totalMatchsize == st.totalMatchsize &&
        Step(b, crc, st, n).value.skipMatchCheck == 0)
  {
    SlotInvariant(st.hashes, b, crc, n, SlotOf(crc(b[n]), |b|));
  }

  /** An abort is final: once the first `n` iterations have aborted, so
      have the first `m` for every later `m`. */
  lemma {:induction false} AbortIsFinal(b: seq<Block>, crc: Checksum, n: nat, m: nat)
    requires 1 <= |b| && n <= m <= |b|
    requires ScanUpTo(b, crc, n).Err?
    ensures ScanUpTo(b, crc, m) == ScanUpTo(b, crc, n)
    decreases m - n
  {
    if n < m {
      AbortIsFinal(b, crc, n, m - 1);
    }
  }

  /** A non-hole block 0 repeated as block 1 stops the run: the hit on
      slot `crc % block_count` gives `block_old = 0`, the anchors are equal
      and `block_old - 1` underflows. */
  lemma RepeatedFirstBlockAborts(b: seq<Block>, crc: Checksum)
    requires 2 <= |b| && crc(b[0]) != 0 && b[1] == b[0]
    ensures Run(b, crc) == Err(SubtractionUnderflow)
  {
    var i := SlotOf(crc(b[0]), |b|);
    var s0 := InitialState(|b|);
    assert ScanUpTo(b, crc, 0) == Ok(s0);
    assert s0.hashes[i] == EmptySlot;
    assert Lookup(b, crc, s0, 0) == Ok(s0);
    var s1 := ScanUpTo(b, crc, 1);
    assert s1 == Step(b, crc, s0, 0);
    assert s1.Ok? && s1.value.hashes[i] == Blockinfo(crc(b[0]), 1) && s1.value.skipMatchCheck == 0;
    assert CheckMatchSpec(b, crc, 0, 1, |b| - 1) == Err(SubtractionUnderflow);
    assert ScanUpTo(b, crc, 2) == Err(SubtractionUnderflow);
    AbortIsFinal(b, crc, 2, |b|);
  }

  /** The lookup half of the loop body for a non-hole block: count down
      the skip counter, or look at the slot the CRC selects (`slot`, read from
      the index in the state `st`) and, on a hit, confirm it with
      `check_match`. Returns the abort, if any, and the new counters. */
  method LookupBlock(b: seq<Block>, crc: Checksum, ghost st: ScanState, slot: Blockinfo, blockNumber: nat,
                     matches: nat, totalMatchsize: nat, skipMatchCheck: nat)
    returns (abort: Option<Error>, matches': nat, totalMatchsize': nat, skipMatchCheck': nat)
    requires 1 <= |b| && blockNumber < |b| && crc(b[blockNumber]) != 0
    requires st.matches == matches && st.totalMatchsize == totalMatchsize && st.skipMatchCheck == skipMatchCheck
    requires Consistent(st, b, crc, blockNumber)
    requires slot == st.hashes[SlotOf(crc(b[blockNumber]), |b|)]
    ensures match Lookup(b, crc, st, blockNumber)
      case Err(e) => abort == Some(e)
      case Ok(s) => abort.None? && s == ScanState(st.hashes, matches', totalMatchsize', skipMatchCheck')
  {
    abort, matches', totalMatchsize', skipMatchCheck' := None, matches, totalMatchsize, skipMatchCheck;
    var crcResult := crc(b[blockNumber]);
    if skipMatchCheck' > 0 {
      skipMatchCheck' := skipMatchCheck' - 1;
    } else {
      var hashOld := slot.crc;
      if slot.blockNumberPlusOne > 0 && hashOld == crcResult {
        var blockNumberOld := slot.blockNumberPlusOne - 1;
        SlotInvariant(st.hashes, b, crc, blockNumber, SlotOf(crcResult, |b|));
        var checked := CheckMatch(b, crc, blockNumberOld, blockNumber, |b| - 1);
        if checked.Err? {
          return Some(checked.error), matches', totalMatchsize', skipMatchCheck';
        }
        var matchlen := checked.value;
        if matchlen > 0 {
          matches' := matches' + 1;
          totalMatchsize' := totalMatchsize' + matchlen;
          skipMatchCheck' := matchlen - 1;
        }
      }
    }
  }

  /** The body of `main`'s loop for block `blockNumber`: ignore a hole;
      otherwise do the lookup half and then overwrite the slot the CRC
      selects with this block. */
  method VisitBlock(hashes: array<Blockinfo>, b: seq<Block>, crc: Checksum, blockNumber: nat,
                    matches: nat, totalMatchsize: nat, skipMatchCheck: nat)
    returns (abort: Option<Error>, matches': nat, totalMatchsize': nat, skipMatchCheck': nat)
    requires 1 <= |b| && blockNumber < |b| && hashes.Length == |b|
    requires Consistent(ScanState(hashes[..], matches, totalMatchsize, skipMatchCheck), b, crc, blockNumber)
    modifies hashes
    ensures match Step(b, crc, ScanState(old(hashes[..]), matches, totalMatchsize, skipMatchCheck), blockNumber)
      case Err(e) => abort == Some(e)
      case Ok(s) => abort.None? && s == ScanState(hashes[..], matches', totalMatchsize', skipMatchCheck')
  {
    ghost var before := ScanState(hashes[..], matches, totalMatchsize, skipMatchCheck);
    abort, matches', totalMatchsize', skipMatchCheck' := None, matches, totalMatchsize, skipMatchCheck;
    var crcResult := crc(b[blockNumber]);
    if crcResult != 0 {
      var hashIndex := (crcResult as int) % hashes.Length;
      abort, matches', totalMatchsize', skipMatchCheck' :=
        LookupBlock(b, crc, before, hashes[hashIndex], blockNumber, matches, totalMatchsize, skipMatchCheck);
      if abort.Some? {
        return;
      }
      hashes[hashIndex] := hashes[hashIndex].(crc := crcResult);
      hashes[hashIndex] := hashes[hashIndex].(blockNumberPlusOne := blockNumber + 1);
      assert hashes[..] == before.hashes[hashIndex := Blockinfo(crcResult, blockNumber + 1)];
    }
  }

  /** `main`'s loop: visit every block of the file once, in order; an abort
      inside `check_match` ends the run. */
  method Scan(b: seq<Block>, crc: Checksum, fileSize: nat) returns (r: Result<ScanState>)
    requires |b| == BlockCount(fileSize)
    ensures r == Run(b, crc)
    ensures r.Ok? ==>
      IndexReflects(r.value.hashes, b, crc, |b|) &&
      r.value.matches <= r.value.totalMatchsize
  {
    var blockCount: nat := fileSize / BlockSize + 1;
    var hashes := new Blockinfo[blockCount](_ => EmptySlot);
    var matches: nat := 0;
    var totalMatchsize: nat := 0;
    var blockNumber: nat := 0;
    var skipMatchCheck: nat := 0;
    assert hashes[..] == InitialState(blockCount).hashes;

    while blockNumber < blockCount
      invariant blockNumber <= blockCount && hashes.Length == blockCount
      invariant ScanUpTo(b, crc, blockNumber) == Ok(ScanState(hashes[..], matches, totalMatchsize, skipMatchCheck))
    {
      assert ScanUpTo(b, crc, blockNumber + 1)
          == Step(b, crc, ScanState(hashes[..], matches, totalMatchsize, skipMatchCheck), blockNumber);
      var abort;
      abort, matches, totalMatchsize, skipMatchCheck :=
        VisitBlock(hashes, b, crc, blockNumber, matches, totalMatchsize, skipMatchCheck);
      if abort.Some? {
        AbortIsFinal(b, crc, blockNumber + 1, blockCount);
        return Err(abort.value);
      }
      blockNumber := blockNumber + 1;
    }
    return Ok(ScanState(hashes[..], matches, totalMatchsize, skipMatchCheck));
  }
}
