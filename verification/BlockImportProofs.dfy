/** An import split into several runs persists the same blocks as one run. */
module BlockImportProofs {
  import opened Words
  import opened SlotSearch
  import opened BlockImport

  // ---------------------------------------------------------------------------------------------
  // Stages that look blocks up by number
  // ---------------------------------------------------------------------------------------------

  /** A larger limit continues where a smaller one stopped. */
  lemma {:induction false} NumberedContinues(
      source: map<uint64, EthBlock>, last: uint64, start: nat, blocks: seq<EthBlock>, limit: nat, maxBlocks: nat)
    requires limit <= maxBlocks && ImportNumbered(source, last, start, blocks, limit).end == Complete
    ensures ImportNumbered(source, last, start, blocks, maxBlocks)
         == ImportNumbered(source, last, start, ImportNumbered(source, last, start, blocks, limit).blocks, maxBlocks)
    ensures |ImportNumbered(source, last, start, blocks, limit).blocks| < limit ==>
              ImportNumbered(source, last, start, blocks, maxBlocks)
                  == ImportNumbered(source, last, start, blocks, limit)
    decreases limit - |blocks|
  {
    var next := start + |blocks|;
    if |blocks| < limit && next <= last && next in source {
      NumberedContinues(source, last, start, blocks + [source[next]], limit, maxBlocks);
    }
  }

  /** A later start with the earlier blocks left out imports the same blocks. */
  lemma {:induction false} NumberedShift(
      source: map<uint64, EthBlock>, last: uint64, start: nat, earlier: seq<EthBlock>, blocks: seq<EthBlock>,
      maxBlocks: nat)
    ensures var later := ImportNumbered(source, last, start + |earlier|, blocks, maxBlocks);
            ImportNumbered(source, last, start, earlier + blocks, |earlier| + maxBlocks)
                == Run(earlier + later.blocks, later.end)
    decreases maxBlocks - |blocks|
  {
    var next := start + |earlier| + |blocks|;
    if |blocks| < maxBlocks && next <= last && next in source && Extends(source[next], next) {
      assert earlier + blocks + [source[next]] == earlier + (blocks + [source[next]]);
      NumberedShift(source, last, start, earlier, blocks + [source[next]], maxBlocks);
    }
  }

  /**
   * The stages that look blocks up by number resume unconditionally: two runs persist what one run with
   * both limits together persists, and end like it.
   */
  lemma NumberedImportResumes(source: map<uint64, EthBlock>, last: uint64, start: nat, maxFirst: nat, maxSecond: nat)
    requires ImportNumbered(source, last, start, [], maxFirst).end == Complete
    ensures var first := ImportNumbered(source, last, start, [], maxFirst).blocks;
            var second := ImportNumbered(source, last, start + |first|, [], maxSecond);
            ImportNumbered(source, last, start, [], maxFirst + maxSecond) == Run(first + second.blocks, second.end)
  {
    var first := ImportNumbered(source, last, start, [], maxFirst).blocks;
    NumberedBounds(source, last, start, [], maxFirst);
    NumberedContinues(source, last, start, [], maxFirst, maxFirst + maxSecond);
    NumberedShift(source, last, start, first, [], maxFirst + maxSecond - |first|);
    assert first + [] == first;
    if |first| < maxFirst {
      StoppedEarly(source, last, start, [], maxFirst);
    }
  }

  lemma {:induction false} StoppedEarly(
      source: map<uint64, EthBlock>, last: uint64, start: nat, blocks: seq<EthBlock>, maxBlocks: nat)
    requires ImportNumbered(source, last, start, blocks, maxBlocks).end == Complete
    requires |ImportNumbered(source, last, start, blocks, maxBlocks).blocks| < maxBlocks
    ensures var next := start + |ImportNumbered(source, last, start, blocks, maxBlocks).blocks|;
            last < next || next !in source
    decreases maxBlocks - |blocks|
  {
    var next := start + |blocks|;
    if next <= last && next in source {
      StoppedEarly(source, last, start, blocks + [source[next]], maxBlocks);
    }
  }

  // ---------------------------------------------------------------------------------------------
  // The stage that looks blocks up by slot
  // ---------------------------------------------------------------------------------------------

  /** A larger limit continues from the slot after the last block a smaller one imported, or from the end. */
  lemma {:induction false} SlotsContinue(
      slots: seq<Option<EthBlock>>, slot: nat, start: nat, blocks: seq<EthBlock>, limit: nat, maxBlocks: nat)
      returns (stop: nat)
    requires limit <= maxBlocks && ImportSlots(slots, slot, start, blocks, limit).end == Complete
    ensures var run := ImportSlots(slots, slot, start, blocks, limit);
            && slot <= stop && blocks <= run.blocks
            && |run.blocks| <= Max(limit, |blocks|)
            && (|blocks| == |run.blocks| ==> stop == slot)
            && ImportSlots(slots, slot, start, blocks, maxBlocks)
                == ImportSlots(slots, stop, start, run.blocks, maxBlocks)
            && (|run.blocks| < limit ==> ImportSlots(slots, slot, start, blocks, maxBlocks) == run)
            && (|blocks| < |run.blocks| ==>
                  && slot < stop <= |slots| && slots[stop - 1].Some?
                  && slots[stop - 1].value.number == start + |run.blocks| - 1)
            && (|run.blocks| < limit ==> forall u :: stop <= u < |slots| ==> slots[u].None?)
    decreases |slots| - slot
  {
    stop := slot;
    if |blocks| < limit && slot < |slots| {
      if slots[slot].None? {
        var rest := SlotsContinue(slots, slot + 1, start, blocks, limit, maxBlocks);
        if |blocks| < |ImportSlots(slots, slot + 1, start, blocks, limit).blocks| {
          stop := rest;
        }
      } else {
        stop := SlotsContinue(slots, slot + 1, start, blocks + [slots[slot].value], limit, maxBlocks);
      }
    }
  }

  lemma {:induction false} SlotsShift(
      slots: seq<Option<EthBlock>>, slot: nat, start: nat, earlier: seq<EthBlock>, blocks: seq<EthBlock>,
      maxBlocks: nat)
    ensures var later := ImportSlots(slots, slot, start + |earlier|, blocks, maxBlocks);
            ImportSlots(slots, slot, start, earlier + blocks, |earlier| + maxBlocks)
                == Run(earlier + later.blocks, later.end)
    decreases |slots| - slot
  {
    if |blocks| < maxBlocks && slot < |slots| {
      if slots[slot].None? {
        SlotsShift(slots, slot + 1, start, earlier, blocks, maxBlocks);
      } else {
        assert earlier + blocks + [slots[slot].value] == earlier + (blocks + [slots[slot].value]);
        SlotsShift(slots, slot + 1, start, earlier, blocks + [slots[slot].value], maxBlocks);
      }
    }
  }

  lemma {:induction false} EmptySlotsSkip(
      slots: seq<Option<EthBlock>>, slot: nat, next: nat, start: nat, blocks: seq<EthBlock>, maxBlocks: nat)
    requires slot <= next <= |slots| && forall u :: slot <= u < next ==> slots[u].None?
    ensures ImportSlots(slots, slot, start, blocks, maxBlocks) == ImportSlots(slots, next, start, blocks, maxBlocks)
    decreases next - slot
  {
    if slot < next {
      EmptySlotsSkip(slots, slot + 1, next, start, blocks, maxBlocks);
    }
  }

  /** When the check of the last files passes, a block at or after the next one is there. */
  lemma {:induction false} HasMoreFindsBlock(slots: seq<Option<EthBlock>>, from: nat, next: nat) returns (slot: nat)
    requires from + 2 <= |slots| && HasMore(slots, from, next)
    ensures from <= slot < |slots| && slots[slot].Some? && next <= slots[slot].value.number
    decreases |slots| - from
  {
    if slots[from].Some? {
      slot := from;
    } else {
      slot := HasMoreFindsBlock(slots, from + 1, next);
    }
  }

  // ---------------------------------------------------------------------------------------------
  // Resuming in the last files
  // ---------------------------------------------------------------------------------------------

  /**
   * From the first slot after the merge on the files hold consecutive blocks; before it, blocks without a
   * payload of their own, which read as number zero, or at most blocks up to the last one before the merge.
   */
  ghost predicate HoldBeaconChain(slots: seq<Option<EthBlock>>, lastEra1Block: uint64, firstSlotAfterMerge: uint64) {
    && IsBeaconChain(Numbers(slots), firstSlotAfterMerge)
    && forall s :: 0 <= s < |slots| && s < firstSlotAfterMerge && slots[s].Some? ==>
         slots[s].value.number <= lastEra1Block
  }

  ghost predicate IsAt(slots: seq<Option<EthBlock>>, at: nat, number: nat) {
    at < |slots| && slots[at].Some? && slots[at].value.number == number
  }

  /** The blocks at two slots have the order of the slots, if the earlier one comes after the merge. */
  lemma LaterIsNewer(
      slots: seq<Option<EthBlock>>, lastEra1Block: uint64, firstSlotAfterMerge: uint64, s: nat, t: nat)
    requires HoldBeaconChain(slots, lastEra1Block, firstSlotAfterMerge)
    requires s < t < |slots| && slots[s].Some? && slots[t].Some?
    requires firstSlotAfterMerge <= s || (firstSlotAfterMerge <= t && lastEra1Block < slots[t].value.number)
    ensures slots[s].value.number < slots[t].value.number
  {
    if firstSlotAfterMerge <= s {
      SlotDistance(Numbers(slots), firstSlotAfterMerge, s, t);
    }
  }

  /** Once an import has stopped inside the last files, their check never passes again. */
  lemma {:induction false} StoppedInsideLastFiles(
      slots: seq<Option<EthBlock>>, lastEra1Block: uint64, firstSlotAfterMerge: uint64, from: nat, before: nat,
      next: nat)
    requires HoldBeaconChain(slots, lastEra1Block, firstSlotAfterMerge) && lastEra1Block < next
    requires from <= before < |slots| && slots[before].Some? && slots[before].value.number < next
    ensures !HasMore(slots, from, next)
    decreases before - from
  {
    if slots[from].Some? {
      if from < before && firstSlotAfterMerge <= from {
        LaterIsNewer(slots, lastEra1Block, firstSlotAfterMerge, from, before);
      }
    } else {
      StoppedInsideLastFiles(slots, lastEra1Block, firstSlotAfterMerge, from + 1, before, next);
    }
  }

  /** The files end before block `next`. */
  ghost predicate NothingLeft(slots: seq<Option<EthBlock>>, next: nat) {
    forall s :: 0 <= s < |slots| && slots[s].Some? ==> slots[s].value.number < next
  }

  /** The persister refuses block `next`. */
  ghost predicate NextIsRefused(slots: seq<Option<EthBlock>>, next: nat) {
    exists at: nat :: IsAt(slots, at, next) && !slots[at].value.accepted
  }

  ghost predicate AllProposed(slots: seq<Option<EthBlock>>, from: nat, last: nat) {
    last < |slots| && forall u :: from <= u <= last ==> slots[u].Some?
  }

  /**
   * The guess does not overshoot block `next`, or no slot from there to the first block seen from the guess
   * on is empty.
   */
  ghost predicate GuessFinds(slots: seq<Option<EthBlock>>, next: uint64, guess: uint64) {
    forall at: nat :: IsAt(slots, at, next) ==>
      guess <= at || AllProposed(slots, at, NextProposed(ViewOf(slots), guess))
  }

  /** A block after the merge lies after the merge, at one slot only. */
  lemma BlockIsAtOneSlot(
      slots: seq<Option<EthBlock>>, lastEra1Block: uint64, firstSlotAfterMerge: uint64, at: nat, other: nat, next: nat)
    requires HoldBeaconChain(slots, lastEra1Block, firstSlotAfterMerge) && lastEra1Block < next
    requires IsAt(slots, at, next) && IsAt(slots, other, next)
    ensures firstSlotAfterMerge <= at == other
  {
    if at < other {
      LaterIsNewer(slots, lastEra1Block, firstSlotAfterMerge, at, other);
    } else if other < at {
      LaterIsNewer(slots, lastEra1Block, firstSlotAfterMerge, other, at);
    }
  }

  /** If the files have anything left, the next block comes right after the last one, but for empty slots. */
  lemma NextBlock(
      slots: seq<Option<EthBlock>>, lastEra1Block: uint64, firstSlotAfterMerge: uint64, before: nat, next: uint64)
      returns (at: nat)
    requires HoldBeaconChain(slots, lastEra1Block, firstSlotAfterMerge) && lastEra1Block < next
    requires firstSlotAfterMerge <= before && IsAt(slots, before, next - 1) && !NothingLeft(slots, next)
    ensures before < at && IsAt(slots, at, next)
    ensures forall u :: before < u < at ==> slots[u].None?
  {
    hide IsBeaconChain;
    var later :| 0 <= later < |slots| && slots[later].Some? && next <= slots[later].value.number;
    if later < before {
      LaterIsNewer(slots, lastEra1Block, firstSlotAfterMerge, later, before);
    }
    at := NumberIsProposed(Numbers(slots), firstSlotAfterMerge, before, later, next);
    NothingInBetween(slots, lastEra1Block, firstSlotAfterMerge, before, at, next);
  }

  lemma NothingInBetween(
      slots: seq<Option<EthBlock>>, lastEra1Block: uint64, firstSlotAfterMerge: uint64, before: nat, at: nat,
      next: uint64)
    requires HoldBeaconChain(slots, lastEra1Block, firstSlotAfterMerge) && firstSlotAfterMerge <= before && 0 < next
    requires IsAt(slots, before, next - 1) && IsAt(slots, at, next)
    ensures forall u :: before < u < at ==> slots[u].None?
  {
    hide HoldBeaconChain;
    forall u: nat | before < u < at
      ensures slots[u].None?
    {
      if slots[u].Some? {
        LaterIsNewer(slots, lastEra1Block, firstSlotAfterMerge, before, u);
        LaterIsNewer(slots, lastEra1Block, firstSlotAfterMerge, u, at);
      }
    }
  }

  /** The slot search answers block `next` exactly when its guess finds it, and else a later slot or never. */
  lemma SearchEndsAt(
      slots: seq<Option<EthBlock>>, lastEra1Block: uint64, firstSlotAfterMerge: uint64, at: nat, next: uint64,
      guess: uint64)
    requires HoldBeaconChain(slots, lastEra1Block, firstSlotAfterMerge) && |slots| + next < TWO_TO_THE_64
    requires lastEra1Block < next && IsAt(slots, at, next) && firstSlotAfterMerge <= guess
    ensures var found := SearchSlot(ViewOf(slots), guess, next);
            if GuessFinds(slots, next, guess) then found == Found(at)
            else found == Endless || (found.Found? && at < found.slot)
  {
    var numbers, view, base := Numbers(slots), ViewOf(slots), firstSlotAfterMerge;
    BlockIsAtOneSlot(slots, lastEra1Block, firstSlotAfterMerge, at, at, next);
    SearchFindsTarget(view, numbers, base, guess, at, next);
    if at < guess {
      SearchFromAbove(view, numbers, base, guess, at, next);
    }
    GuessFindsIt(slots, lastEra1Block, firstSlotAfterMerge, at, next, guess);
  }

  lemma GuessFindsIt(
      slots: seq<Option<EthBlock>>, lastEra1Block: uint64, firstSlotAfterMerge: uint64, at: nat, next: uint64,
      guess: uint64)
    requires HoldBeaconChain(slots, lastEra1Block, firstSlotAfterMerge) && lastEra1Block < next && IsAt(slots, at, next)
    ensures GuessFinds(slots, next, guess)
            <==> || guess <= at
                 || (var seen := NextProposed(ViewOf(slots), guess);
                     seen < |slots| && forall u :: at <= u <= seen ==> Numbers(slots)[u].Some?)
  {
    forall other: nat | IsAt(slots, other, next)
      ensures other == at
    {
      BlockIsAtOneSlot(slots, lastEra1Block, firstSlotAfterMerge, at, other, next);
    }
  }

  /** Started above the slot of the next block, the `era` loop imports nothing. */
  lemma {:induction false} LateStartImportsNothing(
      slots: seq<Option<EthBlock>>, lastEra1Block: uint64, firstSlotAfterMerge: uint64, at: nat, slot: nat, next: nat,
      maxBlocks: nat)
    requires HoldBeaconChain(slots, lastEra1Block, firstSlotAfterMerge)
    requires firstSlotAfterMerge <= at < slot && IsAt(slots, at, next)
    ensures ImportSlots(slots, slot, next, [], maxBlocks).blocks == []
    decreases |slots| - slot
  {
    if slot < |slots| {
      if slots[slot].None? {
        LateStartImportsNothing(slots, lastEra1Block, firstSlotAfterMerge, at, slot + 1, next, maxBlocks);
      } else {
        LaterIsNewer(slots, lastEra1Block, firstSlotAfterMerge, at, slot);
      }
    }
  }

  /** At the slot of the next block the `era` loop imports it, unless it is refused. */
  lemma NextIsImported(slots: seq<Option<EthBlock>>, at: nat, start: nat, blocks: seq<EthBlock>, maxBlocks: nat)
    requires IsAt(slots, at, start + |blocks|) && |blocks| < maxBlocks
    ensures var run := ImportSlots(slots, at, start, blocks, maxBlocks);
            if slots[at].value.accepted then |blocks| < |run.blocks| else run == Run(blocks, Fatal)
  {
    SlotsBounds(slots, at + 1, start, blocks + [slots[at].value], maxBlocks);
  }

  ghost predicate EraFits(files: EraFiles, lastEra1Block: uint64, firstSlotAfterMerge: uint64, next: nat) {
    && HoldBeaconChain(files.slots, lastEra1Block, firstSlotAfterMerge)
    && files.windowStart + 2 <= |files.slots|
    && lastEra1Block + 1 < next
    && |files.slots| + next < TWO_TO_THE_64
  }

  /** What the post-merge stage of a later run imports, when the next block is at `at`. */
  lemma EraImportFrom(
      files: EraFiles, at: nat, next: uint64, lastEra1Block: uint64, firstSlotAfterMerge: uint64, maxBlocks: nat)
    requires EraFits(files, lastEra1Block, firstSlotAfterMerge, next) && IsAt(files.slots, at, next)
    ensures var run := ImportEra(files, lastEra1Block, firstSlotAfterMerge, next, [], maxBlocks);
            if HasMore(files.slots, files.windowStart, next)
               && GuessFinds(files.slots, next, FirstGuess(next, lastEra1Block, firstSlotAfterMerge))
            then run == ImportSlots(files.slots, at, next, [], maxBlocks)
            else run.blocks == []
  {
    hide ImportSlots, SearchSlot, HasMore, GuessFinds, HoldBeaconChain, FirstGuess;
    var guess := FirstGuess(next, lastEra1Block, firstSlotAfterMerge);
    BlockIsAtOneSlot(files.slots, lastEra1Block, firstSlotAfterMerge, at, at, next);
    GuessIsAfterMerge(next, lastEra1Block, firstSlotAfterMerge);
    SearchEndsAt(files.slots, lastEra1Block, firstSlotAfterMerge, at, next, guess);
    var found := SearchSlot(ViewOf(files.slots), guess, next);
    if found.Found? && at < found.slot {
      LateStartImportsNothing(files.slots, lastEra1Block, firstSlotAfterMerge, at, found.slot, next, maxBlocks);
    }
  }

  /** A later run that is asked for nothing, or whose files end before its first block, imports nothing. */
  lemma EraImportOfNothing(
      files: EraFiles, next: uint64, lastEra1Block: uint64, firstSlotAfterMerge: uint64, maxBlocks: nat)
    requires EraFits(files, lastEra1Block, firstSlotAfterMerge, next)
    requires maxBlocks == 0 || NothingLeft(files.slots, next)
    ensures ImportEra(files, lastEra1Block, firstSlotAfterMerge, next, [], maxBlocks).blocks == []
  {
    if NothingLeft(files.slots, next) && HasMore(files.slots, files.windowStart, next) {
      var slot := HasMoreFindsBlock(files.slots, files.windowStart, next);
    }
  }

  /** After the last block of the files the `era` loop imports nothing. */
  lemma NothingLeftToImport(
      slots: seq<Option<EthBlock>>, lastEra1Block: uint64, firstSlotAfterMerge: uint64, before: nat, start: nat,
      blocks: seq<EthBlock>, maxBlocks: nat)
    requires HoldBeaconChain(slots, lastEra1Block, firstSlotAfterMerge) && firstSlotAfterMerge <= before
    requires blocks != [] && IsAt(slots, before, start + |blocks| - 1)
    requires NothingLeft(slots, start + |blocks|)
    ensures ImportSlots(slots, before + 1, start, blocks, maxBlocks).blocks == blocks
  {
    forall u: nat | before < u < |slots|
      ensures slots[u].None?
    {
      if slots[u].Some? {
        LaterIsNewer(slots, lastEra1Block, firstSlotAfterMerge, before, u);
      }
    }
    EmptySlotsSkip(slots, before + 1, |slots|, start, blocks, maxBlocks);
  }

  /** The files, the limits and the guess let the post-merge stage go on at block `next`, if it goes on at all. */
  ghost predicate EraResumes(
      files: EraFiles, next: uint64, lastEra1Block: uint64, firstSlotAfterMerge: uint64, maxBlocks: nat) {
    || maxBlocks == 0
    || NothingLeft(files.slots, next)
    || NextIsRefused(files.slots, next)
    || (HasMore(files.slots, files.windowStart, next)
        && GuessFinds(files.slots, next, FirstGuess(next, lastEra1Block, firstSlotAfterMerge)))
  }

  /** After a block at `before`, a passed check and a guess that finds it lead to the slot of the very next block. */
  lemma SearchResumes(files: EraFiles, before: nat, next: uint64, lastEra1Block: uint64, firstSlotAfterMerge: uint64)
      returns (at: nat)
    requires EraFits(files, lastEra1Block, firstSlotAfterMerge, next) && HasMore(files.slots, files.windowStart, next)
    requires firstSlotAfterMerge <= before && IsAt(files.slots, before, next - 1)
    requires GuessFinds(files.slots, next, FirstGuess(next, lastEra1Block, firstSlotAfterMerge))
    ensures before < at && IsAt(files.slots, at, next)
    ensures forall u :: before < u < at ==> files.slots[u].None?
    ensures EraStart(files, next, lastEra1Block, firstSlotAfterMerge) == Found(at)
  {
    hide GuessFinds, HoldBeaconChain, FirstGuess;
    var later := HasMoreFindsBlock(files.slots, files.windowStart, next);
    at := NextBlock(files.slots, lastEra1Block, firstSlotAfterMerge, before, next);
    GuessIsAfterMerge(next, lastEra1Block, firstSlotAfterMerge);
    SearchEndsAt(files.slots, lastEra1Block, firstSlotAfterMerge, at, next,
        FirstGuess(next, lastEra1Block, firstSlotAfterMerge));
  }

  /** A first run that has completed and imported something after the merge, on top of the blocks `before`. */
  ghost predicate HasStopped(
      files: EraFiles, firstSlot: nat, start: nat, before: seq<EthBlock>, lastEra1Block: uint64,
      firstSlotAfterMerge: uint64, maxFirst: nat)
  {
    var first := ImportSlots(files.slots, firstSlot, start, before, maxFirst);
    && firstSlotAfterMerge <= firstSlot && |before| <= maxFirst
    && first.end == Complete && |before| < |first.blocks|
    && EraFits(files, lastEra1Block, firstSlotAfterMerge, start + |first.blocks|)
  }

  /** A later run with a passed check and such a guess imports and ends just as one run would have. */
  lemma EraImportContinues(
      files: EraFiles, firstSlot: nat, start: nat, before: seq<EthBlock>, lastEra1Block: uint64,
      firstSlotAfterMerge: uint64, maxFirst: nat, maxSecond: nat)
    requires HasStopped(files, firstSlot, start, before, lastEra1Block, firstSlotAfterMerge, maxFirst)
    requires var next := start + |ImportSlots(files.slots, firstSlot, start, before, maxFirst).blocks|;
             && HasMore(files.slots, files.windowStart, next)
             && GuessFinds(files.slots, next, FirstGuess(next, lastEra1Block, firstSlotAfterMerge))
    ensures var first := ImportSlots(files.slots, firstSlot, start, before, maxFirst);
            var second := ImportEra(files, lastEra1Block, firstSlotAfterMerge, start + |first.blocks|, [], maxSecond);
            ImportSlots(files.slots, firstSlot, start, before, maxFirst + maxSecond)
              == Run(first.blocks + second.blocks, second.end)
  {
    hide ImportSlots, HasMore, GuessFinds, HoldBeaconChain;
    var first := ImportSlots(files.slots, firstSlot, start, before, maxFirst);
    var stop := SlotsContinue(files.slots, firstSlot, start, before, maxFirst, maxFirst + maxSecond);
    var at := SearchResumes(files, stop - 1, start + |first.blocks|, lastEra1Block, firstSlotAfterMerge);
    EmptySlotsSkip(files.slots, stop, at, start, first.blocks, maxFirst + maxSecond);
    SlotsShift(files.slots, at, start, first.blocks, [], maxSecond);
    assert first.blocks + [] == first.blocks;
  }

  /**
   * The post-merge stage resumes exactly when nothing is asked for, nothing is left, the next block is refused
   * anyway, or the check of the last files passes and the guess of the slot search finds the next block.
   */
  lemma EraImportResumes(
      files: EraFiles, firstSlot: nat, start: nat, before: seq<EthBlock>, lastEra1Block: uint64,
      firstSlotAfterMerge: uint64, maxFirst: nat, maxSecond: nat)
    requires HasStopped(files, firstSlot, start, before, lastEra1Block, firstSlotAfterMerge, maxFirst)
    ensures var first := ImportSlots(files.slots, firstSlot, start, before, maxFirst);
            var next := start + |first.blocks|;
            var second := ImportEra(files, lastEra1Block, firstSlotAfterMerge, next, [], maxSecond);
            var single := ImportSlots(files.slots, firstSlot, start, before, maxFirst + maxSecond);
            && (single.blocks == first.blocks + second.blocks
                <==> EraResumes(files, next, lastEra1Block, firstSlotAfterMerge, maxSecond))
            && (!EraResumes(files, next, lastEra1Block, firstSlotAfterMerge, maxSecond) ==> second.blocks == [])
  {
    hide ImportSlots, HasMore, GuessFinds, HoldBeaconChain, ImportEra;
    var first := ImportSlots(files.slots, firstSlot, start, before, maxFirst);
    var next := start + |first.blocks|;
    var stop := SlotsContinue(files.slots, firstSlot, start, before, maxFirst, maxFirst + maxSecond);
    assert first.blocks + [] == first.blocks;
    if maxSecond == 0 || NothingLeft(files.slots, next) {
      EraImportOfNothing(files, next, lastEra1Block, firstSlotAfterMerge, maxSecond);
      if NothingLeft(files.slots, next) {
        NothingLeftToImport(files.slots, lastEra1Block, firstSlotAfterMerge, stop - 1, start, first.blocks,
                            maxFirst + maxSecond);
      }
    } else {
      var at := NextBlock(files.slots, lastEra1Block, firstSlotAfterMerge, stop - 1, next);
      EraImportFrom(files, at, next, lastEra1Block, firstSlotAfterMerge, maxSecond);
      EmptySlotsSkip(files.slots, stop, at, start, first.blocks, maxFirst + maxSecond);
      NextIsImported(files.slots, at, start, first.blocks, maxFirst + maxSecond);
      NextIsImported(files.slots, at, next, [], maxSecond);
      SlotsShift(files.slots, at, start, first.blocks, [], maxSecond);
      RefusedMeansNotAccepted(files.slots, lastEra1Block, firstSlotAfterMerge, at, next);
    }
  }

  lemma RefusedMeansNotAccepted(
      slots: seq<Option<EthBlock>>, lastEra1Block: uint64, firstSlotAfterMerge: uint64, at: nat, next: nat)
    requires HoldBeaconChain(slots, lastEra1Block, firstSlotAfterMerge) && lastEra1Block < next && IsAt(slots, at, next)
    ensures NextIsRefused(slots, next) <==> !slots[at].value.accepted
  {
    if other: nat :| IsAt(slots, other, next) && !slots[other].value.accepted {
      BlockIsAtOneSlot(slots, lastEra1Block, firstSlotAfterMerge, at, other, next);
    }
  }

  // ---------------------------------------------------------------------------------------------
  // Whole runs
  // ---------------------------------------------------------------------------------------------

  /** With `ere` files two runs persist what one run persists, and end like it. */
  lemma EreImportResumes(blocks: map<uint64, EthBlock>, start: uint64, maxFirst: nat, maxSecond: nat)
    requires ImportResult(Ere(blocks), start, maxFirst).end == Complete
    requires start + |ImportResult(Ere(blocks), start, maxFirst).blocks| < TWO_TO_THE_64
    ensures var first := ImportResult(Ere(blocks), start, maxFirst).blocks;
            var second := ImportResult(Ere(blocks), start + |first|, maxSecond);
            ImportResult(Ere(blocks), start, maxFirst + maxSecond) == Run(first + second.blocks, second.end)
  {
    NumberedImportResumes(blocks, UINT64_MAX, start, maxFirst, maxSecond);
  }

  /** The post-merge stage, too, imports the same blocks from a later start with the earlier blocks left out. */
  lemma EraShift(
      files: EraFiles, lastEra1Block: uint64, firstSlotAfterMerge: uint64, start: nat, earlier: seq<EthBlock>,
      blocks: seq<EthBlock>, maxBlocks: nat)
    requires |files.slots| + start + |earlier| + |blocks| < TWO_TO_THE_64
    ensures var later := ImportEra(files, lastEra1Block, firstSlotAfterMerge, start + |earlier|, blocks, maxBlocks);
            ImportEra(files, lastEra1Block, firstSlotAfterMerge, start, earlier + blocks, |earlier| + maxBlocks) ==
            Run(earlier + later.blocks, later.end)
  {
    match EraStart(files, start + |earlier| + |blocks|, lastEra1Block, firstSlotAfterMerge)
    case Found(slot) => SlotsShift(files.slots, slot, start, earlier, blocks, maxBlocks);
    case _ =>
  }

  /** A completed stage that had room for a block and imported none has none to import. */
  lemma EraExhausted(
      files: EraFiles, lastEra1Block: uint64, firstSlotAfterMerge: uint64, start: nat, limit: nat, maxBlocks: nat)
    requires |files.slots| + start < TWO_TO_THE_64 && 0 < limit
    requires ImportEra(files, lastEra1Block, firstSlotAfterMerge, start, [], limit) == Run([], Complete)
    ensures ImportEra(files, lastEra1Block, firstSlotAfterMerge, start, [], maxBlocks) == Run([], Complete)
  {
    match EraStart(files, start, lastEra1Block, firstSlotAfterMerge)
    case Found(slot) =>
      var stop := SlotsContinue(files.slots, slot, start, [], limit, limit);
      if slot <= |files.slots| {
        EmptySlotsSkip(files.slots, slot, |files.slots|, start, [], maxBlocks);
      }
    case _ =>
  }

  lemma {:induction false} SlotsBounds(
      slots: seq<Option<EthBlock>>, slot: nat, start: nat, blocks: seq<EthBlock>, maxBlocks: nat)
    ensures var run := ImportSlots(slots, slot, start, blocks, maxBlocks);
            blocks <= run.blocks && |run.blocks| <= Max(|blocks|, maxBlocks)
    decreases |slots| - slot
  {
    if |blocks| < maxBlocks && slot < |slots| {
      var blocks' := if slots[slot].None? then blocks else blocks + [slots[slot].value];
      SlotsBounds(slots, slot + 1, start, blocks', maxBlocks);
    }
  }

  /** The pre-merge blocks of a run. */
  function PreMerge(archive: Archive, start: uint64, maxBlocks: nat): Run
    requires archive.Legacy?
  {
    if 0 < archive.lastEra1Block && start <= archive.lastEra1Block
    then ImportNumbered(archive.era1, archive.lastEra1Block, start, [], maxBlocks) else Run([], Complete)
  }

  ghost predicate HasEra(archive: Archive, start: nat) {
    archive.Legacy? && archive.era.Some? && InRange(archive, start)
  }

  /** A run is its pre-merge blocks and, once those are all there, the post-merge stage. */
  lemma RunStages(archive: Archive, start: uint64, maxBlocks: nat)
    requires HasEra(archive, start)
    ensures var before := PreMerge(archive, start, maxBlocks);
            var run := ImportResult(archive, start, maxBlocks);
            && before.blocks <= run.blocks && |run.blocks| <= maxBlocks
            && (start + |before.blocks| <= archive.lastEra1Block + 1 || before == Run([], Complete))
            && run == if before.end != Complete || start + |before.blocks| <= archive.lastEra1Block then before
                      else ImportEra(archive.era.value, archive.lastEra1Block, archive.firstSlotAfterMerge, start,
                                     before.blocks, maxBlocks)
  {
    var before := PreMerge(archive, start, maxBlocks).blocks;
    NumberedBounds(archive.era1, archive.lastEra1Block, start, [], maxBlocks);
    match EraStart(archive.era.value, start + |before|, archive.lastEra1Block, archive.firstSlotAfterMerge)
    case Found(slot) => SlotsBounds(archive.era.value.slots, slot, start, before, maxBlocks);
    case _ =>
  }

  /** A run that imports nothing, although it may, is followed by runs that import nothing. */
  lemma EmptyRunResumes(archive: Archive, start: uint64, maxFirst: nat, maxSecond: nat)
    requires HasEra(archive, start)
    requires ImportResult(archive, start, maxFirst) == Run([], Complete)
    ensures ImportResult(archive, start, maxFirst + maxSecond).blocks == ImportResult(archive, start, maxSecond).blocks
  {
    if 0 < maxFirst {
      var files, lastEra1Block, firstSlot := archive.era.value, archive.lastEra1Block, archive.firstSlotAfterMerge;
      RunStages(archive, start, maxFirst);
      if 0 < lastEra1Block && start <= lastEra1Block {
        StoppedEarly(archive.era1, lastEra1Block, start, [], maxFirst);
      } else if lastEra1Block < start {
        EraExhausted(files, lastEra1Block, firstSlot, start, maxFirst, maxSecond);
        EraExhausted(files, lastEra1Block, firstSlot, start, maxFirst, maxFirst + maxSecond);
      }
    }
  }

  /** Two runs persist the blocks of one. */
  ghost predicate IsResumedBy(archive: Archive, start: uint64, maxFirst: nat, maxSecond: nat)
    requires InRange(archive, start)
    requires var next := start + |ImportResult(archive, start, maxFirst).blocks|;
             next < TWO_TO_THE_64 && InRange(archive, next)
  {
    var first := ImportResult(archive, start, maxFirst).blocks;
    var second := ImportResult(archive, start + |first|, maxSecond).blocks;
    ImportResult(archive, start, maxFirst + maxSecond).blocks == first + second
  }

  /** Stopped below the merge, the next run first continues with the pre-merge blocks. */
  lemma PreMergeRunResumes(archive: Archive, start: uint64, maxFirst: nat, maxSecond: nat)
    requires HasEra(archive, start)
    requires var first := ImportResult(archive, start, maxFirst);
             first.end == Complete && start + |first.blocks| <= archive.lastEra1Block
    ensures IsResumedBy(archive, start, maxFirst, maxSecond)
  {
    RunStages(archive, start, maxFirst);
    RunStages(archive, start, maxFirst + maxSecond);
    var first := ImportResult(archive, start, maxFirst).blocks;
    var next := start + |first|;
    RunStages(archive, next, maxSecond);
    if archive.lastEra1Block == 0 {
      return;
    }
    NumberedImportResumes(archive.era1, archive.lastEra1Block, start, maxFirst, maxSecond);
    var more := PreMerge(archive, next, maxSecond);
    if more.end == Complete && archive.lastEra1Block < next + |more.blocks| {
      if |first| < maxFirst {
        StoppedEarly(archive.era1, archive.lastEra1Block, start, [], maxFirst);
      }
      EraShift(archive.era.value, archive.lastEra1Block, archive.firstSlotAfterMerge, start, first, more.blocks,
               maxSecond);
    }
  }

  /** Stopped exactly at the merge, the next run starts with the post-merge stage. */
  lemma BoundaryRunResumes(archive: Archive, start: uint64, maxFirst: nat, maxSecond: nat)
    requires HasEra(archive, start)
    requires var first := ImportResult(archive, start, maxFirst);
             first.end == Complete && start + |first.blocks| == archive.lastEra1Block + 1
    ensures IsResumedBy(archive, start, maxFirst, maxSecond)
  {
    var files, lastEra1Block, firstSlot := archive.era.value, archive.lastEra1Block, archive.firstSlotAfterMerge;
    RunStages(archive, start, maxFirst);
    RunStages(archive, start, maxFirst + maxSecond);
    var first := ImportResult(archive, start, maxFirst).blocks;
    var next := start + |first|;
    var room := maxFirst - |first|;
    assert PreMerge(archive, start, maxFirst).blocks == first;
    if start <= lastEra1Block {
      NumberedContinues(archive.era1, lastEra1Block, start, [], maxFirst, maxFirst + maxSecond);
    }
    assert first + [] == first;
    EraShift(files, lastEra1Block, firstSlot, start, first, [], room);
    EraShift(files, lastEra1Block, firstSlot, start, first, [], room + maxSecond);
    if 0 < room {
      EraExhausted(files, lastEra1Block, firstSlot, next, room, maxSecond);
      EraExhausted(files, lastEra1Block, firstSlot, next, room, room + maxSecond);
    }
  }

  /** The `era` files, if any, hold the chain after the merge, and their last files at least two slots. */
  ghost predicate IsWellFormed(archive: Archive) {
    archive.Legacy? && archive.era.Some? ==>
      && HoldBeaconChain(archive.era.value.slots, archive.lastEra1Block, archive.firstSlotAfterMerge)
      && archive.era.value.windowStart + 2 <= |archive.era.value.slots|
  }

  /** Stopped above the merge, the next run depends on the check of the last files and on the guess. */
  lemma PostMergeRunResumes(archive: Archive, start: uint64, maxFirst: nat, maxSecond: nat)
    requires HasEra(archive, start) && IsWellFormed(archive)
    requires var first := ImportResult(archive, start, maxFirst);
             && first.end == Complete && first.blocks != []
             && archive.lastEra1Block + 1 < start + |first.blocks| < TWO_TO_THE_64
             && InRange(archive, start + |first.blocks|)
    ensures var next := start + |ImportResult(archive, start, maxFirst).blocks|;
            var resumes := EraResumes(archive.era.value, next, archive.lastEra1Block, archive.firstSlotAfterMerge,
                                      maxSecond);
            && (IsResumedBy(archive, start, maxFirst, maxSecond) <==> resumes)
            && (!resumes ==> ImportResult(archive, next, maxSecond).blocks == [])
  {
    hide ImportResult, ImportSlots, ImportNumbered, EraStart, EraResumes, HoldBeaconChain;
    var files, lastEra1Block, firstSlot := archive.era.value, archive.lastEra1Block, archive.firstSlotAfterMerge;
    RunStages(archive, start, maxFirst);
    RunStages(archive, start, maxFirst + maxSecond);
    RunStages(archive, start + |ImportResult(archive, start, maxFirst).blocks|, maxSecond);
    var before := PreMerge(archive, start, maxFirst).blocks;
    if start <= lastEra1Block {
      NumberedContinues(archive.era1, lastEra1Block, start, [], maxFirst, maxFirst + maxSecond);
    }
    var found := EraStart(files, start + |before|, lastEra1Block, firstSlot);
    EraImportResumes(files, found.slot, start, before, lastEra1Block, firstSlot, maxFirst, maxSecond);
  }

  /** The next run, with this limit, goes on where the one before it stopped, at `next`. */
  ghost predicate Resumes(archive: Archive, start: nat, next: uint64, maxSecond: nat) {
    match archive
    case Ere(_) => true
    case Legacy(_, era, lastEra1Block, firstSlotAfterMerge) =>
      || era.None? || next <= lastEra1Block + 1 || next == start
      || EraResumes(era.value, next, lastEra1Block, firstSlotAfterMerge, maxSecond)
  }

  /**
   * Resumable import with `era1` and `era` files: a completed run followed by another persists what one run
   * with both limits together persists, exactly when the first one stopped at or below the merge or imported
   * nothing, or the second one is asked for nothing, has nothing left, finds its first block refused, or passes
   * the check of the last files with a guess that finds that block. Otherwise the second one imports nothing.
   */
  lemma LegacyImportResumes(archive: Archive, start: uint64, maxFirst: nat, maxSecond: nat)
    requires HasEra(archive, start) && IsWellFormed(archive)
    requires var first := ImportResult(archive, start, maxFirst);
             && first.end == Complete && start + |first.blocks| < TWO_TO_THE_64
             && InRange(archive, start + |first.blocks|)
    ensures var next := start + |ImportResult(archive, start, maxFirst).blocks|;
            && (IsResumedBy(archive, start, maxFirst, maxSecond) <==> Resumes(archive, start, next, maxSecond))
            && (!Resumes(archive, start, next, maxSecond) ==> ImportResult(archive, next, maxSecond).blocks == [])
  {
    hide ImportResult, EraResumes, IsWellFormed;
    var first := ImportResult(archive, start, maxFirst);
    var next := start + |first.blocks|;
    if first.blocks == [] {
      EmptyRunResumes(archive, start, maxFirst, maxSecond);
    } else if next <= archive.lastEra1Block {
      PreMergeRunResumes(archive, start, maxFirst, maxSecond);
    } else if next == archive.lastEra1Block + 1 {
      BoundaryRunResumes(archive, start, maxFirst, maxSecond);
    } else {
      PostMergeRunResumes(archive, start, maxFirst, maxSecond);
    }
  }

  /** Without `era` files the pre-merge blocks are all there is. */
  lemma PreMergeOnlyResumes(archive: Archive, start: uint64, maxFirst: nat, maxSecond: nat)
    requires archive.Legacy? && archive.era.None?
    requires var first := ImportResult(archive, start, maxFirst);
             first.end == Complete && start + |first.blocks| < TWO_TO_THE_64
    ensures IsResumedBy(archive, start, maxFirst, maxSecond)
  {
    if 0 < archive.lastEra1Block && start <= archive.lastEra1Block {
      NumberedImportResumes(archive.era1, archive.lastEra1Block, start, maxFirst, maxSecond);
    }
  }

  /** One split, whatever the archive. */
  lemma TwoRunsResume(archive: Archive, start: uint64, maxFirst: nat, maxSecond: nat)
    requires IsWellFormed(archive) && InRange(archive, start)
    requires var first := ImportResult(archive, start, maxFirst);
             && first.end == Complete && start + |first.blocks| < TWO_TO_THE_64
             && InRange(archive, start + |first.blocks|)
    ensures var next := start + |ImportResult(archive, start, maxFirst).blocks|;
            && (IsResumedBy(archive, start, maxFirst, maxSecond) <==> Resumes(archive, start, next, maxSecond))
            && (!Resumes(archive, start, next, maxSecond) ==> ImportResult(archive, next, maxSecond).blocks == [])
  {
    hide ImportResult, EraResumes, IsWellFormed;
    match archive
    case Ere(blocks) => EreImportResumes(blocks, start, maxFirst, maxSecond);
    case Legacy(_, era, _, _) =>
      if era.None? {
        PreMergeOnlyResumes(archive, start, maxFirst, maxSecond);
      } else {
        LegacyImportResumes(archive, start, maxFirst, maxSecond);
      }
  }

  // ---------------------------------------------------------------------------------------------
  // Runs that die
  // ---------------------------------------------------------------------------------------------

  /** A run with a smaller limit persists a prefix of the blocks, and completes if that is not empty. */
  lemma SmallerLimit(archive: Archive, start: uint64, maxBlocks: nat, count: nat)
    requires InRange(archive, start) && 0 < count <= |ImportResult(archive, start, maxBlocks).blocks|
    ensures ImportResult(archive, start, count)
         == Run(ImportResult(archive, start, maxBlocks).blocks[..count], Complete)
  {
    match archive
    case Ere(blocks) => NumberedPrefix(blocks, UINT64_MAX, start, [], maxBlocks, count);
    case Legacy(era1, era, lastEra1Block, _) =>
      NumberedBounds(era1, lastEra1Block, start, [], maxBlocks);
      if count <= |PreMerge(archive, start, maxBlocks).blocks| {
        SmallerPreMergeLimit(archive, start, maxBlocks, count);
      } else if era.Some? {
        SmallerPostMergeLimit(archive, start, maxBlocks, count);
      }
  }

  lemma SmallerPreMergeLimit(archive: Archive, start: uint64, maxBlocks: nat, count: nat)
    requires archive.Legacy? && InRange(archive, start) && 0 < count <= |PreMerge(archive, start, maxBlocks).blocks|
    ensures count <= |ImportResult(archive, start, maxBlocks).blocks|
    ensures ImportResult(archive, start, count)
         == Run(ImportResult(archive, start, maxBlocks).blocks[..count], Complete)
  {
    NumberedPrefix(archive.era1, archive.lastEra1Block, start, [], maxBlocks, count);
    if archive.era.Some? {
      RunStages(archive, start, maxBlocks);
      RunStages(archive, start, count);
    }
  }

  lemma SmallerPostMergeLimit(archive: Archive, start: uint64, maxBlocks: nat, count: nat)
    requires HasEra(archive, start)
    requires |PreMerge(archive, start, maxBlocks).blocks| < count <= |ImportResult(archive, start, maxBlocks).blocks|
    ensures ImportResult(archive, start, count)
         == Run(ImportResult(archive, start, maxBlocks).blocks[..count], Complete)
  {
    hide ImportResult, EraStart, ImportSlots;
    RunStages(archive, start, maxBlocks);
    RunStages(archive, start, count);
    var before := PreMerge(archive, start, maxBlocks).blocks;
    if start <= archive.lastEra1Block {
      LastReached(archive.era1, archive.lastEra1Block, start, [], maxBlocks, count);
    }
    var found := EraStart(archive.era.value, start + |before|, archive.lastEra1Block, archive.firstSlotAfterMerge);
    SlotsPrefix(archive.era.value.slots, found.slot, start, before, maxBlocks, count);
  }

  lemma {:induction false} NumberedPrefix(
      source: map<uint64, EthBlock>, last: uint64, start: nat, blocks: seq<EthBlock>, maxBlocks: nat, count: nat)
    requires |blocks| <= count <= |ImportNumbered(source, last, start, blocks, maxBlocks).blocks|
    ensures blocks <= ImportNumbered(source, last, start, blocks, maxBlocks).blocks
    ensures ImportNumbered(source, last, start, blocks, count)
         == Run(ImportNumbered(source, last, start, blocks, maxBlocks).blocks[..count], Complete)
    decreases maxBlocks - |blocks|
  {
    NumberedBounds(source, last, start, blocks, maxBlocks);
    var next := start + |blocks|;
    if |blocks| < count {
      NumberedPrefix(source, last, start, blocks + [source[next]], maxBlocks, count);
    }
  }

  /** Where the last number has been reached, no smaller limit that allows it changes anything. */
  lemma {:induction false} LastReached(
      source: map<uint64, EthBlock>, last: uint64, start: nat, blocks: seq<EthBlock>, maxBlocks: nat, count: nat)
    requires var run := ImportNumbered(source, last, start, blocks, maxBlocks);
             |run.blocks| <= count && last < start + |run.blocks|
    ensures ImportNumbered(source, last, start, blocks, count) == ImportNumbered(source, last, start, blocks, maxBlocks)
    decreases maxBlocks - |blocks|
  {
    var next := start + |blocks|;
    if |blocks| < maxBlocks && next <= last && next in source && Extends(source[next], next) {
      NumberedBounds(source, last, start, blocks + [source[next]], maxBlocks);
      LastReached(source, last, start, blocks + [source[next]], maxBlocks, count);
    }
  }

  lemma {:induction false} SlotsPrefix(
      slots: seq<Option<EthBlock>>, slot: nat, start: nat, blocks: seq<EthBlock>, maxBlocks: nat, count: nat)
    requires |blocks| <= count <= |ImportSlots(slots, slot, start, blocks, maxBlocks).blocks|
    ensures ImportSlots(slots, slot, start, blocks, count)
         == Run(ImportSlots(slots, slot, start, blocks, maxBlocks).blocks[..count], Complete)
    decreases |slots| - slot
  {
    SlotsBounds(slots, slot, start, blocks, maxBlocks);
    if |blocks| < count && slot < |slots| {
      if slots[slot].None? {
        SlotsPrefix(slots, slot + 1, start, blocks, maxBlocks, count);
      } else {
        SlotsPrefix(slots, slot + 1, start, blocks + [slots[slot].value], maxBlocks, count);
      }
    }
  }

  /**
   * Death within a chunk: of a run that has died, by a refused block or otherwise, only the blocks of its last
   * checkpoint are on disk. The run after it, which starts from those, completes what one run with a limit for
   * both would have persisted, exactly when it resumes.
   */
  lemma DeadRunResumes(archive: Archive, start: uint64, maxFirst: nat, durable: nat, maxSecond: nat)
    requires IsWellFormed(archive) && InRange(archive, start)
    requires 0 < durable <= |ImportResult(archive, start, maxFirst).blocks|
    requires start + durable < TWO_TO_THE_64 && InRange(archive, start + durable)
    ensures var onDisk := ImportResult(archive, start, maxFirst).blocks[..durable];
            var second := ImportResult(archive, start + durable, maxSecond).blocks;
            ImportResult(archive, start, durable + maxSecond).blocks == onDisk + second
            <==> Resumes(archive, start, start + durable, maxSecond)
  {
    hide ImportResult, EraResumes, IsWellFormed;
    SmallerLimit(archive, start, maxFirst, durable);
    TwoRunsResume(archive, start, durable, maxSecond);
  }

  // ---------------------------------------------------------------------------------------------
  // Any number of runs
  // ---------------------------------------------------------------------------------------------

  /** No block number in the archive, with the slots of its files on top, exhausts the machine word. */
  ghost predicate HasRoom(archive: Archive, start: nat) {
    && InRange(archive, start)
    && match archive
       case Ere(blocks) => UINT64_MAX !in blocks
       case Legacy(_, era, lastEra1Block, _) =>
         && lastEra1Block < UINT64_MAX
         && (era.Some? ==>
               forall s :: 0 <= s < |era.value.slots| && era.value.slots[s].Some? ==>
                 |era.value.slots| + era.value.slots[s].value.number + 1 < TWO_TO_THE_64)
  }

  /** So the next run has a block to start from, and room as well, whatever the limit. */
  lemma NextHasRoom(archive: Archive, start: uint64, maxBlocks: nat)
    requires HasRoom(archive, start)
    ensures var next := start + |ImportResult(archive, start, maxBlocks).blocks|;
            next < TWO_TO_THE_64 && HasRoom(archive, next)
  {
    match archive
    case Ere(blocks) => NumberedReach(blocks, UINT64_MAX, start, [], maxBlocks);
    case Legacy(era1, era, lastEra1Block, firstSlotAfterMerge) =>
      NumberedBounds(era1, lastEra1Block, start, [], maxBlocks);
      if era.Some? {
        RunStages(archive, start, maxBlocks);
        var before := PreMerge(archive, start, maxBlocks).blocks;
        match EraStart(era.value, start + |before|, lastEra1Block, firstSlotAfterMerge)
        case Found(slot) =>
          SlotsBounds(era.value.slots, slot, start, before, maxBlocks);
          var last := SlotsReach(era.value.slots, slot, start, before, maxBlocks);
        case _ =>
      }
  }

  lemma {:induction false} NumberedReach(
      source: map<uint64, EthBlock>, last: uint64, start: nat, blocks: seq<EthBlock>, maxBlocks: nat)
    ensures var run := ImportNumbered(source, last, start, blocks, maxBlocks);
            |blocks| < |run.blocks| ==> start + |run.blocks| <= TWO_TO_THE_64 && start + |run.blocks| - 1 in source
    decreases maxBlocks - |blocks|
  {
    NumberedBounds(source, last, start, blocks, maxBlocks);
    var next := start + |blocks|;
    if |blocks| < maxBlocks && next <= last && next in source && Extends(source[next], next) {
      NumberedReach(source, last, start, blocks + [source[next]], maxBlocks);
    }
  }

  /** The last block imported is in the files. */
  lemma {:induction false} SlotsReach(
      slots: seq<Option<EthBlock>>, slot: nat, start: nat, blocks: seq<EthBlock>, maxBlocks: nat) returns (last: nat)
    ensures var run := ImportSlots(slots, slot, start, blocks, maxBlocks);
            |blocks| < |run.blocks| ==> IsAt(slots, last, start + |run.blocks| - 1)
    decreases |slots| - slot
  {
    last := slot;
    if |blocks| < maxBlocks && slot < |slots| {
      if slots[slot].None? {
        last := SlotsReach(slots, slot + 1, start, blocks, maxBlocks);
      } else if Extends(slots[slot].value, start + |blocks|) {
        var blocks' := blocks + [slots[slot].value];
        SlotsBounds(slots, slot + 1, start, blocks', maxBlocks);
        if |blocks'| < |ImportSlots(slots, slot + 1, start, blocks', maxBlocks).blocks| {
          last := SlotsReach(slots, slot + 1, start, blocks', maxBlocks);
        }
      }
    }
  }

  function TotalLimit(limits: seq<nat>): nat {
    if limits == [] then 0 else limits[0] + TotalLimit(limits[1..])
  }

  /** Runs with these limits, each from the block after the last one saved; a run that fails ends the import. */
  ghost function ImportRuns(archive: Archive, start: uint64, limits: seq<nat>): Run
    requires HasRoom(archive, start)
    decreases |limits|
  {
    if limits == [] then Run([], Complete) else
    var first := ImportResult(archive, start, limits[0]);
    NextHasRoom(archive, start, limits[0]);
    if first.end != Complete then first else
    var rest := ImportRuns(archive, start + |first.blocks|, limits[1..]);
    Run(first.blocks + rest.blocks, rest.end)
  }

  /** Every run but the last completes. */
  ghost predicate AllComplete(archive: Archive, start: uint64, limits: seq<nat>)
    requires HasRoom(archive, start)
    decreases |limits|
  {
    |limits| <= 1 ||
    (NextHasRoom(archive, start, limits[0]);
     var first := ImportResult(archive, start, limits[0]);
     first.end == Complete && AllComplete(archive, start + |first.blocks|, limits[1..]))
  }

  /** Every run but the first resumes. */
  ghost predicate AllResume(archive: Archive, start: uint64, limits: seq<nat>)
    requires HasRoom(archive, start)
    decreases |limits|
  {
    |limits| <= 1 ||
    (NextHasRoom(archive, start, limits[0]);
     var next := start + |ImportResult(archive, start, limits[0]).blocks|;
     Resumes(archive, start, next, TotalLimit(limits[1..])) && AllResume(archive, next, limits[1..]))
  }

  /** Once a run has failed to resume, neither it nor any later one imports anything. */
  lemma {:induction false} NothingAfterDeadEnd(
      archive: Archive, start: uint64, maxFirst: nat, maxSecond: nat, limits: seq<nat>)
    requires IsWellFormed(archive) && HasRoom(archive, start)
    requires var first := ImportResult(archive, start, maxFirst);
             && first.end == Complete && start + |first.blocks| < TWO_TO_THE_64
             && !Resumes(archive, start, start + |first.blocks|, maxSecond)
             && HasRoom(archive, start + |first.blocks|)
    ensures ImportRuns(archive, start + |ImportResult(archive, start, maxFirst).blocks|, limits).blocks == []
    decreases |limits|
  {
    hide ImportResult, HasMore, NothingLeft, NextIsRefused, GuessFinds, IsWellFormed;
    if limits != [] {
      var next := start + |ImportResult(archive, start, maxFirst).blocks|;
      TwoRunsResume(archive, start, maxFirst, limits[0]);
      if limits[0] == 0 {
        ImportOfNothing(archive, next);
      }
      NothingAfterDeadEnd(archive, start, maxFirst, maxSecond, limits[1..]);
    }
  }

  lemma ImportOfNothing(archive: Archive, start: uint64)
    requires InRange(archive, start)
    ensures ImportResult(archive, start, 0).blocks == []
  {
  }

  /**
   * Resumable import: however an import is split into runs, all but the last of them complete, together they
   * persist the very blocks, in order, of one run with all their limits, if and only if every run resumes.
   */
  lemma {:induction false} RunsImportTheSame(archive: Archive, start: uint64, limits: seq<nat>)
    requires IsWellFormed(archive) && HasRoom(archive, start) && limits != []
    requires AllComplete(archive, start, limits)
    ensures ImportRuns(archive, start, limits).blocks == ImportResult(archive, start, TotalLimit(limits)).blocks
            <==> AllResume(archive, start, limits)
    decreases |limits|
  {
    hide ImportResult, IsWellFormed, Resumes;
    NextHasRoom(archive, start, limits[0]);
    var first := ImportResult(archive, start, limits[0]);
    if |limits| == 1 {
      assert TotalLimit(limits[1..]) == 0;
      assert first.end == Complete ==> ImportRuns(archive, start + |first.blocks|, limits[1..]) == Run([], Complete);
    } else {
      var rest, next := TotalLimit(limits[1..]), start + |first.blocks|;
      TwoRunsResume(archive, start, limits[0], rest);
      RunsImportTheSame(archive, next, limits[1..]);
      var runs, one := ImportRuns(archive, next, limits[1..]).blocks, ImportResult(archive, next, rest).blocks;
      assert (first.blocks + runs)[|first.blocks|..] == runs && (first.blocks + one)[|first.blocks|..] == one;
      if !Resumes(archive, start, next, rest) {
        NothingAfterDeadEnd(archive, start, limits[0], rest, limits[1..]);
      }
    }
  }
}
