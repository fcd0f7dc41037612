/** Importing archived blocks: which blocks a run persists, its checkpoints, and its statistics. */
module BlockImport {
  import opened Words
  import opened SlotSearch

  /** A block, and whether validating and executing it on top of its parent succeeds. */
  datatype EthBlock = EthBlock(number: uint64, txs: nat, gas: nat, accepted: bool)

  /** The persister takes the block as the one with number `next`. */
  predicate Extends(block: EthBlock, next: nat) {
    block.number == next && block.accepted
  }

  /** Post-merge files: the block of each slot below the end slot, and where the check of the last files starts. */
  datatype EraFiles = EraFiles(slots: seq<Option<EthBlock>>, windowStart: nat)

  /** The `ere` files when there are any, otherwise the `era1` files and perhaps a directory of `era` files. */
  datatype Archive =
    | Ere(blocks: map<uint64, EthBlock>)
    | Legacy(era1: map<uint64, EthBlock>, era: Option<EraFiles>, lastEra1Block: uint64, firstSlotAfterMerge: uint64)

  /** A run completes, quits on a block that does not extend the chain, or never finds its slot. */
  datatype RunEnd = Complete | Fatal | Stuck

  /** The blocks persisted so far in a run, and how it ended. */
  datatype Run = Run(blocks: seq<EthBlock>, end: RunEnd)

  /** The blocks looked up by number, up to `last`: the `ere` and the `era1` loop. */
  function ImportNumbered(
      source: map<uint64, EthBlock>, last: uint64, start: nat, blocks: seq<EthBlock>, maxBlocks: nat): Run
    decreases maxBlocks - |blocks|
  {
    var next := start + |blocks|;
    if maxBlocks <= |blocks| || last < next || next !in source then Run(blocks, Complete)
    else if !Extends(source[next], next) then Run(blocks, Fatal)
    else ImportNumbered(source, last, start, blocks + [source[next]], maxBlocks)
  }

  /** The blocks looked up by slot: the `era` loop. */
  function ImportSlots(slots: seq<Option<EthBlock>>, slot: nat, start: nat, blocks: seq<EthBlock>, maxBlocks: nat): Run
    decreases |slots| - slot
  {
    if maxBlocks <= |blocks| || |slots| <= slot then Run(blocks, Complete)
    else if slots[slot].None? then ImportSlots(slots, slot + 1, start, blocks, maxBlocks)
    else if !Extends(slots[slot].value, start + |blocks|) then Run(blocks, Fatal)
    else ImportSlots(slots, slot + 1, start, blocks + [slots[slot].value], maxBlocks)
  }

  /** The block numbers by slot. */
  function Numbers(slots: seq<Option<EthBlock>>): (numbers: seq<Option<uint64>>)
    ensures |numbers| == |slots|
    ensures forall s :: 0 <= s < |slots| ==> numbers[s] == if slots[s].Some? then Some(slots[s].value.number) else None
  {
    seq(|slots|, s requires 0 <= s < |slots| => if slots[s].Some? then Some(slots[s].value.number) else None)
  }

  function ViewOf(slots: seq<Option<EthBlock>>): (view: seq<SlotInfo>)
    ensures |view| == |slots|
    ensures forall s :: 0 <= s < |slots| ==>
              view[s] == if slots[s].Some? then Proposed(slots[s].value.number) else Empty
  {
    seq(|slots|, s requires 0 <= s < |slots| => if slots[s].Some? then Proposed(slots[s].value.number) else Empty)
  }

  /** Whether the first block of the last files, if there is one, is not older than the next block to import. */
  predicate HasMore(slots: seq<Option<EthBlock>>, from: nat, next: nat)
    decreases |slots| - from
  {
    if |slots| <= from then true
    else if slots[from].Some? then next <= slots[from].value.number
    else from + 2 != |slots| && HasMore(slots, from + 1, next)
  }

  /** Where the `era` loop starts, if there is anything for it to import. */
  function EraStart(
      files: EraFiles, next: uint64, lastEra1Block: uint64, firstSlotAfterMerge: uint64): (start: SearchEnd)
    requires |files.slots| + next < TWO_TO_THE_64
    ensures start.Found? ==> firstSlotAfterMerge <= start.slot
  {
    var found :=
      if next <= lastEra1Block + 1 then Found(1)
      else if !HasMore(files.slots, files.windowStart, next) then Aborted
      else SearchSlot(ViewOf(files.slots), FirstGuess(next, lastEra1Block, firstSlotAfterMerge), next);
    if found.Found? && found.slot < firstSlotAfterMerge then Found(firstSlotAfterMerge) else found
  }

  /** The post-merge stage, after the blocks imported so far. */
  function ImportEra(
      files: EraFiles, lastEra1Block: uint64, firstSlotAfterMerge: uint64, start: nat, blocks: seq<EthBlock>,
      maxBlocks: nat): Run
    requires |files.slots| + start + |blocks| < TWO_TO_THE_64
  {
    match EraStart(files, start + |blocks|, lastEra1Block, firstSlotAfterMerge)
    case Aborted => Run(blocks, Complete)
    case Endless => Run(blocks, Stuck)
    case Found(slot) => ImportSlots(files.slots, slot, start, blocks, maxBlocks)
  }

  /** The slots and the block to start from do not exhaust the machine word; the limit may. */
  predicate InRange(archive: Archive, start: nat) {
    archive.Legacy? && archive.era.Some? ==>
      |archive.era.value.slots| + Max(start, archive.lastEra1Block + 1) < TWO_TO_THE_64
  }

  /** A whole run from the block after the saved one. */
  function ImportResult(archive: Archive, start: uint64, maxBlocks: nat): Run
    requires InRange(archive, start)
  {
    match archive
    case Ere(blocks) => ImportNumbered(blocks, UINT64_MAX, start, [], maxBlocks)
    case Legacy(era1, era, lastEra1Block, firstSlotAfterMerge) =>
      var before :=
        if 0 < lastEra1Block && start <= lastEra1Block then ImportNumbered(era1, lastEra1Block, start, [], maxBlocks)
        else Run([], Complete);
      NumberedBounds(era1, lastEra1Block, start, [], maxBlocks);
      if before.end != Complete || start + |before.blocks| <= lastEra1Block || era.None? then before
      else ImportEra(era.value, lastEra1Block, firstSlotAfterMerge, start, before.blocks, maxBlocks)
  }

  lemma {:induction false} NumberedBounds(
      source: map<uint64, EthBlock>, last: uint64, start: nat, blocks: seq<EthBlock>, maxBlocks: nat)
    ensures var run := ImportNumbered(source, last, start, blocks, maxBlocks);
            && blocks <= run.blocks
            && |run.blocks| <= Max(|blocks|, maxBlocks)
            && start + |run.blocks| <= Max(start + |blocks|, last + 1)
    decreases maxBlocks - |blocks|
  {
    var next := start + |blocks|;
    if |blocks| < maxBlocks && next <= last && next in source && Extends(source[next], next) {
      NumberedBounds(source, last, start, blocks + [source[next]], maxBlocks);
    }
  }

  // ---------------------------------------------------------------------------------------------
  // Statistics
  // ---------------------------------------------------------------------------------------------

  datatype Stats = Stats(blocks: nat, txs: nat, gas: nat)

  function Totals(blocks: seq<EthBlock>): (totals: Stats)
    ensures totals.blocks == |blocks|
  {
    if blocks == [] then Stats(0, 0, 0) else
    var rest := Totals(blocks[..|blocks| - 1]);
    var last := blocks[|blocks| - 1];
    Stats(rest.blocks + 1, rest.txs + last.txs, rest.gas + last.gas)
  }

  /** Totals never shrink as blocks are added. */
  lemma {:induction false} TotalsGrow(blocks: seq<EthBlock>, n: nat)
    requires n <= |blocks|
    ensures Totals(blocks[..n]).txs <= Totals(blocks).txs && Totals(blocks[..n]).gas <= Totals(blocks).gas
    decreases |blocks| - n
  {
    if n < |blocks| {
      TotalsGrow(blocks, n + 1);
      assert blocks[..n + 1][..n] == blocks[..n];
    } else {
      assert blocks[..n] == blocks;
    }
  }

  /** The totals of some blocks and some more add up, starting from those of a single block. */
  lemma {:induction false} TotalsAdd(blocks: seq<EthBlock>, more: seq<EthBlock>)
    ensures var all, first, rest := Totals(blocks + more), Totals(blocks), Totals(more);
            && all.txs == first.txs + rest.txs && all.gas == first.gas + rest.gas
            && (|more| == 1 ==> rest == Stats(1, more[0].txs, more[0].gas))
    decreases |more|
  {
    if more == [] {
      assert blocks + more == blocks;
    } else {
      var n := |more| - 1;
      assert (blocks + more)[..|blocks| + n] == blocks + more[..n];
      assert (blocks + more)[|blocks| + n] == more[n];
      TotalsAdd(blocks, more[..n]);
    }
  }

  function SumOf(rows: seq<Stats>): Stats {
    if rows == [] then Stats(0, 0, 0) else
    var rest := SumOf(rows[..|rows| - 1]);
    var last := rows[|rows| - 1];
    Stats(rest.blocks + last.blocks, rest.txs + last.txs, rest.gas + last.gas)
  }

  class Importer {
    const start: uint64
    const chunkSize: nat
    const maxBlocks: nat
    var blk: EthBlock
    var slot: uint64
    /** The blocks applied in this run, and how many of them the last checkpoint moved to disk. */
    var persisted: seq<EthBlock>
    var durable: nat
    /** The totals, the totals at the last report, and the reported differences. */
    var stats: Stats
    var cstats: Stats
    var rows: seq<Stats>

    /** The totals are those of the blocks; the reports add up to the totals at the last checkpoint. */
    ghost predicate Valid()
      reads this
    {
      && 0 < chunkSize
      && stats == Totals(persisted)
      && durable <= |persisted|
      && cstats == SumOf(rows) == Totals(persisted[..durable])
    }

    /** Whole chunks are on disk, and at most `behind` blocks are not. */
    ghost predicate IsBehindBy(behind: int)
      reads this
    {
      0 < chunkSize && durable % chunkSize == 0 && |persisted| - durable <= behind
    }

    constructor (saved: uint64, chunkSize: nat, maxBlocks: nat)
      requires saved < UINT64_MAX && 0 < chunkSize
      ensures Valid() && IsBehindBy(0)
      ensures start == saved + 1 && this.chunkSize == chunkSize && this.maxBlocks == maxBlocks
      ensures persisted == [] && slot == 1
    {
      this.start, this.chunkSize, this.maxBlocks := saved + 1, chunkSize, maxBlocks;
      blk, slot, persisted, durable := EthBlock(0, 0, 0, false), 1, [], 0;
      stats, cstats, rows := Stats(0, 0, 0), Stats(0, 0, 0), [];
    }

    /** Applies the loaded block; it must extend the chain by one. */
    method PersistBlock() returns (ok: bool)
      requires Valid()
      modifies this`persisted, this`stats
      ensures Valid()
      ensures ok <==> Extends(blk, start + |old(persisted)|)
      ensures persisted == if ok then old(persisted) + [blk] else old(persisted)
    {
      if !Extends(blk, start + stats.blocks) {
        return false;
      }
      assert (persisted + [blk])[..durable] == persisted[..durable];
      persisted := persisted + [blk];
      stats := Stats(stats.blocks + 1, stats.txs + blk.txs, stats.gas + blk.gas);
      assert persisted[..|persisted| - 1] == old(persisted);
      return true;
    }

    method Checkpoint(force: bool)
      requires Valid()
      requires IsBehindBy(chunkSize)
      modifies this`durable, this`cstats, this`rows
      ensures Valid()
      ensures if force then durable == |persisted| && cstats == stats else IsBehindBy(chunkSize - 1)
      ensures old(rows) <= rows && |rows| <= |old(rows)| + 1
      ensures |old(rows)| < |rows| ==> 0 < rows[|old(rows)|].blocks
    {
      if !force && stats.blocks % chunkSize != 0 {
        NextChunk(durable, chunkSize);
        return;
      }
      TotalsGrow(persisted, durable);
      durable := |persisted|;
      assert persisted[..durable] == persisted;
      var delta := Stats(stats.blocks - cstats.blocks, stats.txs - cstats.txs, stats.gas - cstats.gas);
      if delta.blocks == 0 {
        return;
      }
      cstats := stats;
      rows := rows + [delta];
    }

    /** Persists the loaded block and checkpoints at the end of a chunk. */
    method ImportLoadedBlock() returns (ok: bool)
      requires Valid() && IsBehindBy(chunkSize - 1)
      modifies this`persisted, this`stats, this`durable, this`cstats, this`rows
      ensures Valid() && IsBehindBy(chunkSize - 1)
      ensures ok <==> Extends(blk, start + |old(persisted)|)
      ensures persisted == if ok then old(persisted) + [blk] else old(persisted)
    {
      ok := PersistBlock();
      if ok {
        Checkpoint(false);
      }
    }

    /** The `ere` and the `era1` loop. */
    method ImportByNumber(source: map<uint64, EthBlock>, last: uint64) returns (end: RunEnd)
      requires Valid() && IsBehindBy(chunkSize - 1)
      modifies this
      ensures Valid() && IsBehindBy(chunkSize - 1) && slot == old(slot)
      ensures Run(persisted, end) == ImportNumbered(source, last, start, old(persisted), maxBlocks)
    {
      hide Totals, SumOf;
      while stats.blocks < maxBlocks && start + stats.blocks <= last
        invariant Valid() && IsBehindBy(chunkSize - 1) && slot == old(slot)
        invariant ImportNumbered(source, last, start, persisted, maxBlocks)
               == ImportNumbered(source, last, start, old(persisted), maxBlocks)
        decreases maxBlocks - |persisted|
      {
        var blockNumber: uint64 := start + stats.blocks;
        if blockNumber !in source {
          break;
        }
        blk := source[blockNumber];
        var ok := ImportLoadedBlock();
        if !ok {
          return Fatal;
        }
      }
      return Complete;
    }

    /** The `era` loop, from the current slot. */
    method ImportBySlot(slots: seq<Option<EthBlock>>) returns (end: RunEnd)
      requires Valid() && IsBehindBy(chunkSize - 1) && |slots| < TWO_TO_THE_64
      modifies this
      ensures Valid() && IsBehindBy(chunkSize - 1)
      ensures Run(persisted, end) == ImportSlots(slots, old(slot), start, old(persisted), maxBlocks)
    {
      hide Totals, SumOf;
      while stats.blocks < maxBlocks && slot < |slots|
        invariant Valid() && IsBehindBy(chunkSize - 1)
        invariant ImportSlots(slots, slot, start, persisted, maxBlocks)
               == ImportSlots(slots, old(slot), start, old(persisted), maxBlocks)
        decreases |slots| - slot
      {
        if slots[slot].None? {
          slot := slot + 1;
          continue;
        }
        blk := slots[slot].value;
        slot := slot + 1;
        var ok := ImportLoadedBlock();
        if !ok {
          return Fatal;
        }
      }
      return Complete;
    }

    /** Looks for something to import, and for its slot. */
    method UpdateLastImportedSlot(
        files: EraFiles, next: uint64, lastEra1Block: uint64, firstSlotAfterMerge: uint64) returns (found: SearchEnd)
      requires |files.slots| + next < TWO_TO_THE_64 && lastEra1Block + 1 < next
      ensures found == if !HasMore(files.slots, files.windowStart, next) then Aborted
                       else SearchSlot(ViewOf(files.slots), FirstGuess(next, lastEra1Block, firstSlotAfterMerge), next)
    {
      var startSlot := files.windowStart;
      while startSlot < |files.slots|
        invariant HasMore(files.slots, files.windowStart, next) == HasMore(files.slots, startSlot, next)
      {
        if files.slots[startSlot].None? {
          startSlot := startSlot + 1;
          if startSlot + 1 == |files.slots| {
            return Aborted;
          }
          continue;
        }
        if files.slots[startSlot].value.number < next {
          return Aborted;
        }
        break;
      }
      ghost var probed;
      found, probed := FindSlot(ViewOf(files.slots), next, FirstGuess(next, lastEra1Block, firstSlotAfterMerge), [],
          0, 0);
    }

    /**
     * The whole import. A completed run leaves every persisted block on disk, and reports that add up to all of
     * them.
     */
    method Import(archive: Archive) returns (end: RunEnd)
      requires Valid() && IsBehindBy(0) && persisted == [] && slot == 1
      requires InRange(archive, start)
      modifies this
      ensures Valid()
      ensures Run(persisted, end) == ImportResult(archive, start, maxBlocks)
      ensures end == Complete ==> durable == |persisted| && SumOf(rows) == Totals(persisted)
      ensures end != Complete ==> IsBehindBy(chunkSize - 1)
    {
      match archive {
        case Ere(blocks) =>
          end := ImportByNumber(blocks, UINT64_MAX);
        case Legacy(era1, era, lastEra1Block, firstSlotAfterMerge) =>
          end := ImportLegacy(era1, era, lastEra1Block, firstSlotAfterMerge);
      }
      if end == Complete && 0 < stats.blocks {
        Checkpoint(true);
      }
    }

    method ImportLegacy(
        era1: map<uint64, EthBlock>, era: Option<EraFiles>, lastEra1Block: uint64, firstSlotAfterMerge: uint64)
      returns (end: RunEnd)
      requires Valid() && IsBehindBy(chunkSize - 1) && persisted == [] && slot == 1
      requires InRange(Legacy(era1, era, lastEra1Block, firstSlotAfterMerge), start)
      modifies this
      ensures Valid() && IsBehindBy(chunkSize - 1)
      ensures Run(persisted, end)
           == ImportResult(Legacy(era1, era, lastEra1Block, firstSlotAfterMerge), start, maxBlocks)
    {
      hide ImportNumbered, ImportSlots, HasMore, SearchSlot, Totals, SumOf;
      NumberedBounds(era1, lastEra1Block, start, [], maxBlocks);
      if 0 < lastEra1Block && start <= lastEra1Block {
        end := ImportByNumber(era1, lastEra1Block);
        if end != Complete {
          return;
        }
      }
      if start + stats.blocks <= lastEra1Block || era.None? {
        return Complete;
      }
      var next: uint64 := start + stats.blocks;
      var found := Found(slot);
      if next > lastEra1Block + 1 {
        found := UpdateLastImportedSlot(era.value, next, lastEra1Block, firstSlotAfterMerge);
      }
      match found
      case Aborted => return Complete;
      case Endless => return Stuck;
      case Found(first) =>
        slot := if first < firstSlotAfterMerge then firstSlotAfterMerge else first;
        end := ImportBySlot(era.value.slots);
    }
  }

  /** One chunk later the remainder is the same. */
  lemma NextChunk(n: nat, chunkSize: nat)
    requires 0 < chunkSize
    ensures (n + chunkSize) % chunkSize == n % chunkSize
  {
    var before, after := n / chunkSize, (n + chunkSize) / chunkSize;
    var delta := after - before - 1;
    assert delta * chunkSize == n % chunkSize - (n + chunkSize) % chunkSize by {
      assert n == before * chunkSize + n % chunkSize;
      assert n + chunkSize == after * chunkSize + (n + chunkSize) % chunkSize;
      assert delta * chunkSize == after * chunkSize - before * chunkSize - chunkSize;
    }
    assert 0 < delta ==> delta * chunkSize >= chunkSize;
    assert delta < 0 ==> delta * chunkSize + chunkSize <= 0;
  }
}
