/** What an import persists, stated on its archive alone. */
module BlockImportContents {
  import opened Words
  import opened SlotSearch
  import opened BlockImport
  import opened BlockImportProofs

  /** The first block with this number at or after a slot. */
  ghost function BlockFrom(slots: seq<Option<EthBlock>>, slot: nat, number: nat): (block: Option<EthBlock>)
    ensures block.None? <==> forall s: nat :: slot <= s ==> !IsAt(slots, s, number)
    ensures block.Some? ==> exists s: nat :: slot <= s && IsAt(slots, s, number) && slots[s] == block
    decreases |slots| - slot
  {
    if |slots| <= slot then None
    else if IsAt(slots, slot, number) then slots[slot]
    else BlockFrom(slots, slot + 1, number)
  }

  /**
   * The block an archive holds under a number: the `ere` files by number, the `era1` files up to the last block
   * before the merge, and the `era` files from the first slot after it.
   */
  ghost function BlockNumbered(archive: Archive, number: nat): Option<EthBlock> {
    match archive
    case Ere(blocks) => if number < TWO_TO_THE_64 && number in blocks then Some(blocks[number]) else None
    case Legacy(era1, era, lastEra1Block, firstSlotAfterMerge) =>
      if number <= lastEra1Block then if number in era1 then Some(era1[number]) else None
      else if era.None? then None
      else BlockFrom(era.value.slots, firstSlotAfterMerge, number)
  }

  /**
   * A run over the archive from `start` on: its blocks are the accepted ones numbered `start`, `start + 1`, ...; it
   * completes at its limit or where the archive has no next block, and fails where the next block is refused.
   */
  ghost predicate IsRunOver(archive: Archive, start: nat, maxBlocks: nat, run: Run) {
    var next := start + |run.blocks|;
    && |run.blocks| <= maxBlocks && run.end != Stuck
    && (forall i :: 0 <= i < |run.blocks| ==> IsHeldUnder(archive, start + i, run.blocks[i]))
    && (run.end == Complete <==> |run.blocks| == maxBlocks || BlockNumbered(archive, next).None?)
    && (run.end == Fatal <==> && |run.blocks| < maxBlocks && BlockNumbered(archive, next).Some?
                              && !Extends(BlockNumbered(archive, next).value, next))
  }

  /** The archive holds the block under this number, which is its own, and it is accepted. */
  ghost predicate IsHeldUnder(archive: Archive, number: nat, block: EthBlock) {
    BlockNumbered(archive, number) == Some(block) && block.number == number && block.accepted
  }

  /** Of two runs over the same archive neither goes beyond the end of the other. */
  lemma NotLonger(archive: Archive, start: nat, maxBlocks: nat, a: Run, b: Run)
    requires IsRunOver(archive, start, maxBlocks, a) && IsRunOver(archive, start, maxBlocks, b)
    ensures |b.blocks| <= |a.blocks|
  {
    hide BlockNumbered;
    assert |a.blocks| < |b.blocks| ==> IsHeldUnder(archive, start + |a.blocks|, b.blocks[|a.blocks|]);
  }

  /** There is only one such run. */
  lemma RunIsDetermined(archive: Archive, start: nat, maxBlocks: nat, a: Run, b: Run)
    requires IsRunOver(archive, start, maxBlocks, a) && IsRunOver(archive, start, maxBlocks, b)
    ensures a == b
  {
    NotLonger(archive, start, maxBlocks, a, b);
    NotLonger(archive, start, maxBlocks, b, a);
    hide BlockNumbered;
    forall i | 0 <= i < |a.blocks| && i < |b.blocks|
      ensures a.blocks[i] == b.blocks[i]
    {
      assert IsHeldUnder(archive, start + i, a.blocks[i]) && IsHeldUnder(archive, start + i, b.blocks[i]);
    }
  }

  // ---------------------------------------------------------------------------------------------
  // The stages
  // ---------------------------------------------------------------------------------------------

  /** Blocks already imported are the archive's. */
  ghost predicate AreHeldFrom(archive: Archive, start: nat, blocks: seq<EthBlock>) {
    forall i :: 0 <= i < |blocks| ==> IsHeldUnder(archive, start + i, blocks[i])
  }

  lemma OneMoreIsHeld(archive: Archive, start: nat, blocks: seq<EthBlock>, block: EthBlock)
    requires AreHeldFrom(archive, start, blocks) && IsHeldUnder(archive, start + |blocks|, block)
    ensures AreHeldFrom(archive, start, blocks + [block])
  {
  }

  /** What the archive holds under the numbers up to `last` is what the stage looks up. */
  ghost predicate IsLookedUp(archive: Archive, source: map<uint64, EthBlock>, last: uint64) {
    forall n: uint64 :: n <= last ==> BlockNumbered(archive, n) == if n in source then Some(source[n]) else None
  }

  /** A stage by number imports what the archive holds, up to its last number. */
  lemma {:induction false} NumberedIsRun(
      archive: Archive, source: map<uint64, EthBlock>, last: uint64, start: nat, blocks: seq<EthBlock>, maxBlocks: nat)
    requires IsLookedUp(archive, source, last) && AreHeldFrom(archive, start, blocks) && |blocks| <= maxBlocks
    ensures var run := ImportNumbered(source, last, start, blocks, maxBlocks);
            && AreHeldFrom(archive, start, run.blocks) && |run.blocks| <= maxBlocks
            && (start + |run.blocks| <= last ==> IsRunOver(archive, start, maxBlocks, run))
            && (last < start + |run.blocks| ==> run.end == Complete)
    decreases maxBlocks - |blocks|
  {
    hide BlockNumbered, AreHeldFrom;
    var next := start + |blocks|;
    if |blocks| < maxBlocks && next <= last && next in source && Extends(source[next], next) {
      OneMoreIsHeld(archive, start, blocks, source[next]);
      NumberedIsRun(archive, source, last, start, blocks + [source[next]], maxBlocks);
    } else {
      HeldUnfolds(archive, start, blocks);
    }
  }

  lemma HeldUnfolds(archive: Archive, start: nat, blocks: seq<EthBlock>)
    requires AreHeldFrom(archive, start, blocks)
    ensures forall i :: 0 <= i < |blocks| ==> IsHeldUnder(archive, start + i, blocks[i])
  {
  }

  /** The next block to import is the first one at or after the slot, if there is any. */
  ghost predicate IsNextFrom(slots: seq<Option<EthBlock>>, slot: nat, next: nat) {
    forall s: nat :: slot <= s < |slots| && slots[s].Some? && (forall u :: slot <= u < s ==> slots[u].None?) ==>
      slots[s].value.number == next
  }

  ghost predicate IsNotIn(slots: seq<Option<EthBlock>>, from: nat, end: nat, number: nat) {
    forall s: nat :: from <= s < end ==> !IsAt(slots, s, number)
  }

  /**
   * The files of the archive hold the chain after the merge, starting with the first block after it; with the
   * merge at slot zero, that slot holds genesis, which is never imported.
   */
  ghost predicate IsWhole(archive: Archive) {
    && IsWellFormed(archive)
    && (archive.Legacy? && archive.era.Some? ==>
          var slots := archive.era.value.slots;
          && IsNextFrom(slots, Max(1, archive.firstSlotAfterMerge), archive.lastEra1Block + 1)
          && (slots != [] && slots[0].Some? ==> slots[0].value.number <= archive.lastEra1Block))
  }

  /** At its limit, at a missing block or at a refused one a run ends as it should. */
  lemma EndsHere(archive: Archive, start: nat, blocks: seq<EthBlock>, maxBlocks: nat, end: RunEnd)
    requires AreHeldFrom(archive, start, blocks) && |blocks| <= maxBlocks
    requires var next := BlockNumbered(archive, start + |blocks|);
             match end
             case Complete => |blocks| == maxBlocks || next.None?
             case Fatal => |blocks| < maxBlocks && next.Some? && !Extends(next.value, start + |blocks|)
             case Stuck => false
    ensures IsRunOver(archive, start, maxBlocks, Run(blocks, end))
  {
    hide BlockNumbered;
  }

  /** The stage by slot imports what the archive holds, from the slot of the next block on. */
  lemma {:induction false} SlotsAreRun(archive: Archive, slot: nat, start: nat, blocks: seq<EthBlock>, maxBlocks: nat)
    requires archive.Legacy? && archive.era.Some? && IsWellFormed(archive) && archive.firstSlotAfterMerge <= slot
    requires AreHeldFrom(archive, start, blocks) && |blocks| <= maxBlocks && archive.lastEra1Block < start + |blocks|
    requires IsNextFrom(archive.era.value.slots, slot, start + |blocks|)
    requires IsNotIn(archive.era.value.slots, archive.firstSlotAfterMerge, slot, start + |blocks|)
    ensures IsRunOver(archive, start, maxBlocks, ImportSlots(archive.era.value.slots, slot, start, blocks, maxBlocks))
    decreases |archive.era.value.slots| - slot
  {
    hide AreHeldFrom, IsWellFormed, IsRunOver, BlockNumbered, IsNextFrom, IsNotIn;
    var slots, next := archive.era.value.slots, start + |blocks|;
    if |blocks| == maxBlocks {
      EndsHere(archive, start, blocks, maxBlocks, Complete);
    } else if |slots| <= slot {
      NotFound(archive, slot, next);
      EndsHere(archive, start, blocks, maxBlocks, Complete);
    } else if slots[slot].None? {
      OverEmptySlot(slots, archive.firstSlotAfterMerge, slot, next);
      SlotsAreRun(archive, slot + 1, start, blocks, maxBlocks);
    } else {
      NextIsHere(slots, slot, next);
      FoundAtSlot(archive, slot, next);
      if slots[slot].value.accepted {
        OneMoreIsHeld(archive, start, blocks, slots[slot].value);
        AfterBlock(archive, slot, next);
        SlotsAreRun(archive, slot + 1, start, blocks + [slots[slot].value], maxBlocks);
      } else {
        EndsHere(archive, start, blocks, maxBlocks, Fatal);
      }
    }
  }

  lemma OverEmptySlot(slots: seq<Option<EthBlock>>, first: nat, slot: nat, next: nat)
    requires slot < |slots| && slots[slot].None?
    requires IsNextFrom(slots, slot, next) && IsNotIn(slots, first, slot, next)
    ensures IsNextFrom(slots, slot + 1, next) && IsNotIn(slots, first, slot + 1, next)
  {
  }

  lemma NextIsHere(slots: seq<Option<EthBlock>>, slot: nat, next: nat)
    requires slot < |slots| && slots[slot].Some? && IsNextFrom(slots, slot, next)
    ensures IsAt(slots, slot, next)
  {
  }

  lemma NotFound(archive: Archive, slot: nat, number: nat)
    requires archive.Legacy? && archive.era.Some? && archive.lastEra1Block < number
    requires |archive.era.value.slots| <= slot
    requires IsNotIn(archive.era.value.slots, archive.firstSlotAfterMerge, slot, number)
    ensures BlockNumbered(archive, number).None?
  {
  }

  lemma FoundAtSlot(archive: Archive, slot: nat, number: nat)
    requires archive.Legacy? && archive.era.Some? && IsWellFormed(archive) && archive.lastEra1Block < number
    requires IsAt(archive.era.value.slots, slot, number)
    ensures BlockNumbered(archive, number) == archive.era.value.slots[slot]
  {
    hide HoldBeaconChain;
    var slots := archive.era.value.slots;
    BlockIsAtOneSlot(slots, archive.lastEra1Block, archive.firstSlotAfterMerge, slot, slot, number);
    var s: nat :| archive.firstSlotAfterMerge <= s && IsAt(slots, s, number)
        && slots[s] == BlockNumbered(archive, number);
    BlockIsAtOneSlot(slots, archive.lastEra1Block, archive.firstSlotAfterMerge, slot, s, number);
  }

  /** After a block comes the one with the next number, and no earlier slot holds that. */
  lemma AfterBlock(archive: Archive, slot: nat, number: nat)
    requires archive.Legacy? && archive.era.Some? && IsWellFormed(archive) && archive.lastEra1Block < number
    requires IsAt(archive.era.value.slots, slot, number) && archive.firstSlotAfterMerge <= slot
    ensures IsNextFrom(archive.era.value.slots, slot + 1, number + 1)
    ensures IsNotIn(archive.era.value.slots, archive.firstSlotAfterMerge, slot + 1, number + 1)
  {
    var slots, last, first := archive.era.value.slots, archive.lastEra1Block, archive.firstSlotAfterMerge;
    var numbers := Numbers(slots);
    forall s: nat | slot + 1 <= s < |slots| && slots[s].Some? && (forall u :: slot + 1 <= u < s ==> slots[u].None?)
      ensures slots[s].value.number == number + 1
    {
      assert AreAdjacent(numbers, slot, s);
    }
    var later := number + 1;
    forall s: nat | first <= s < slot + 1
      ensures !IsAt(slots, s, later)
    {
      if s < slot && slots[s].Some? {
        LaterIsNewer(slots, last, first, s, slot);
      }
    }
  }

  // ---------------------------------------------------------------------------------------------
  // Whole runs
  // ---------------------------------------------------------------------------------------------

  /** An `ere` import persists exactly the consecutive accepted blocks of its files, up to the limit or their end. */
  lemma EreImportIsRun(blocks: map<uint64, EthBlock>, start: uint64, maxBlocks: nat)
    ensures IsRunOver(Ere(blocks), start, maxBlocks, ImportResult(Ere(blocks), start, maxBlocks))
  {
    var archive := Ere(blocks);
    NumberedIsRun(archive, blocks, UINT64_MAX, start, [], maxBlocks);
    var run := ImportResult(archive, start, maxBlocks);
    HeldUnfolds(archive, start, run.blocks);
    NumberedBounds(blocks, UINT64_MAX, start, [], maxBlocks);
    NumberedStops(blocks, start, [], maxBlocks);
  }

  /** Beyond the largest number there is nothing to look up. */
  lemma {:induction false} NumberedStops(blocks: map<uint64, EthBlock>, start: nat, imported: seq<EthBlock>,
      maxBlocks: nat)
    ensures var run := ImportNumbered(blocks, UINT64_MAX, start, imported, maxBlocks);
            UINT64_MAX < start + |run.blocks| ==> run.end == Complete
    decreases maxBlocks - |imported|
  {
    var next := start + |imported|;
    if |imported| < maxBlocks && next <= UINT64_MAX && next in blocks && Extends(blocks[next], next) {
      NumberedStops(blocks, start, imported + [blocks[next]], maxBlocks);
    }
  }

  /** Where the post-merge stage may start: at the merge, or after a passed check where the guess finds the block. */
  ghost predicate CanStart(files: EraFiles, lastEra1Block: uint64, firstSlotAfterMerge: uint64, start: uint64) {
    || start <= lastEra1Block + 1
    || (HasMore(files.slots, files.windowStart, start)
        && GuessFinds(files.slots, start, FirstGuess(start, lastEra1Block, firstSlotAfterMerge)))
  }

  /**
   * An import over `era1` and `era` files that starts at or below the merge, or whose start is found, persists
   * exactly the consecutive accepted blocks of the archive, up to the limit or the first one missing; it fails
   * only at a block that is there and refused. Any other import persists nothing.
   */
  lemma LegacyImportIsRun(archive: Archive, start: uint64, maxBlocks: nat)
    requires HasEra(archive, start) && IsWhole(archive) && 0 < start
    ensures var run := ImportResult(archive, start, maxBlocks);
            if CanStart(archive.era.value, archive.lastEra1Block, archive.firstSlotAfterMerge, start)
            then IsRunOver(archive, start, maxBlocks, run)
            else run.blocks == []
  {
    hide ImportResult, IsWhole, CanStart, IsRunOver;
    RunStages(archive, start, maxBlocks);
    if archive.lastEra1Block + 1 < start {
      ResumedImportIsRun(archive, start, maxBlocks);
    } else {
      FreshImportIsRun(archive, start, maxBlocks);
    }
  }

  lemma FreshImportIsRun(archive: Archive, start: uint64, maxBlocks: nat)
    requires HasEra(archive, start) && IsWhole(archive) && 0 < start <= archive.lastEra1Block + 1
    ensures IsRunOver(archive, start, maxBlocks, ImportResult(archive, start, maxBlocks))
    ensures CanStart(archive.era.value, archive.lastEra1Block, archive.firstSlotAfterMerge, start)
  {
    hide IsRunOver, AreHeldFrom, IsWellFormed, ImportSlots;
    var files, last, first := archive.era.value, archive.lastEra1Block, archive.firstSlotAfterMerge;
    RunStages(archive, start, maxBlocks);
    NothingHeld(archive, start);
    if start <= last {
      NumberedIsRun(archive, archive.era1, last, start, [], maxBlocks);
    }
    var before := PreMerge(archive, start, maxBlocks).blocks;
    if last < start + |before| {
      assert EraStart(files, start + |before|, last, first) == Found(Max(1, first));
      NothingBeforeMerge(archive);
      SlotsAreRun(archive, Max(1, first), start, before, maxBlocks);
    }
  }

  lemma NothingHeld(archive: Archive, start: nat)
    ensures AreHeldFrom(archive, start, [])
  {
  }

  lemma NothingBeforeMerge(archive: Archive)
    requires archive.Legacy? && archive.era.Some? && IsWhole(archive)
    ensures IsNotIn(archive.era.value.slots, archive.firstSlotAfterMerge, Max(1, archive.firstSlotAfterMerge),
                    archive.lastEra1Block + 1)
  {
  }

  lemma ResumedImportIsRun(archive: Archive, start: uint64, maxBlocks: nat)
    requires HasEra(archive, start) && IsWhole(archive) && archive.lastEra1Block + 1 < start
    ensures var run := ImportResult(archive, start, maxBlocks);
            if CanStart(archive.era.value, archive.lastEra1Block, archive.firstSlotAfterMerge, start)
            then IsRunOver(archive, start, maxBlocks, run)
            else run.blocks == []
  {
    hide ImportResult, IsRunOver, ImportSlots, AreHeldFrom, GuessFinds, HoldBeaconChain, IsNextFrom, HasMore;
    var files, last, first := archive.era.value, archive.lastEra1Block, archive.firstSlotAfterMerge;
    RunStages(archive, start, maxBlocks);
    if HasMore(files.slots, files.windowStart, start) {
      var at := StartIsThere(archive, start);
      EraImportFrom(files, at, start, last, first, maxBlocks);
      if GuessFinds(files.slots, start, FirstGuess(start, last, first)) {
        NothingHeld(archive, start);
        BlockIsAtOneSlot(files.slots, last, first, at, at, start);
        OnlyThere(archive, at, start);
        SlotsAreRun(archive, at, start, [], maxBlocks);
      }
    }
  }

  lemma OnlyThere(archive: Archive, at: nat, number: nat)
    requires archive.Legacy? && archive.era.Some? && IsWellFormed(archive) && archive.lastEra1Block < number
    requires IsAt(archive.era.value.slots, at, number)
    ensures IsNextFrom(archive.era.value.slots, at, number)
    ensures IsNotIn(archive.era.value.slots, archive.firstSlotAfterMerge, at, number)
  {
    var slots := archive.era.value.slots;
    hide HoldBeaconChain;
    forall s: nat | archive.firstSlotAfterMerge <= s < at
      ensures !IsAt(slots, s, number)
    {
      if IsAt(slots, s, number) {
        BlockIsAtOneSlot(slots, archive.lastEra1Block, archive.firstSlotAfterMerge, s, at, number);
      }
    }
  }

  /** When the check of the last files passes, the files hold the block to start from. */
  lemma StartIsThere(archive: Archive, start: uint64) returns (at: nat)
    requires archive.Legacy? && archive.era.Some? && IsWhole(archive) && archive.lastEra1Block + 1 < start
    requires HasMore(archive.era.value.slots, archive.era.value.windowStart, start)
    ensures IsAt(archive.era.value.slots, at, start)
  {
    hide HasMore, IsBeaconChain;
    var files, last, first := archive.era.value, archive.lastEra1Block, archive.firstSlotAfterMerge;
    var later := HasMoreFindsBlock(files.slots, files.windowStart, start);
    var merge := FirstBlockFrom(files.slots, Max(1, first), later);
    assert files.slots[merge].value.number == last + 1;
    at := NumberIsProposed(Numbers(files.slots), first, merge, later, start);
  }

  /** The first proposed slot of a range that ends with one. */
  lemma {:induction false} FirstBlockFrom(slots: seq<Option<EthBlock>>, from: nat, last: nat) returns (slot: nat)
    requires from <= last < |slots| && slots[last].Some?
    ensures from <= slot <= last && slots[slot].Some? && forall u :: from <= u < slot ==> slots[u].None?
    decreases last - from
  {
    if slots[from].Some? {
      slot := from;
    } else {
      slot := FirstBlockFrom(slots, from + 1, last);
    }
  }

  /**
   * When the check of the last files passes: the first block in them is not older than the next one to import,
   * and it is their very first slot's or not their very last slot's; without any block, only if there is but one
   * slot to look at.
   */
  lemma {:induction false} HasMoreWhen(slots: seq<Option<EthBlock>>, from: nat, next: nat)
    ensures var seen := NextProposed(ViewOf(slots), from);
            HasMore(slots, from, next)
            <==> if seen < |slots| then next <= slots[seen].value.number && (seen == from || seen + 1 < |slots|)
                 else |slots| <= from + 1
    decreases |slots| - from
  {
    if from < |slots| && slots[from].None? {
      HasMoreWhen(slots, from + 1, next);
    }
  }

  /** Without `era` files an import persists the accepted blocks up to the merge. */
  lemma PreMergeOnlyIsRun(archive: Archive, start: uint64, maxBlocks: nat)
    requires archive.Legacy? && archive.era.None? && 0 < start
    ensures IsRunOver(archive, start, maxBlocks, ImportResult(archive, start, maxBlocks))
  {
    hide AreHeldFrom;
    NothingHeld(archive, start);
    if start <= archive.lastEra1Block {
      NumberedIsRun(archive, archive.era1, archive.lastEra1Block, start, [], maxBlocks);
      HeldUnfolds(archive, start, ImportResult(archive, start, maxBlocks).blocks);
    }
  }
}
