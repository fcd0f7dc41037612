/** The block access list pruner: one resumable pass, its batches, and the cycle around it. */
module BalPruner {
  import opened Words
  import opened CoreDb
  import opened BalSearch

  /** What a restart finds: the stored lists by block hash, and the persisted tail. */
  datatype BalStore = BalStore(lists: set<Hash32>, tail: uint64)

  /**
   * The environment of a pass. When its frames run out it is cancelled in a sleep; or, with a death, the
   * process has died within its last batch, having deleted only these lists and not written the tail.
   */
  datatype Env = Env(frames: Frames, death: Option<set<Hash32>>)

  /** A pass runs to its end, is cancelled while it sleeps between two batches, or dies within a batch. */
  datatype Outcome = Finished(pruned: nat) | Cancelled | Died

  class Kvt {
    var lists: set<Hash32>
    var balTail: uint64

    ghost function Contents(): BalStore
      reads this
    {
      BalStore(lists, balTail)
    }

    constructor (lists: set<Hash32>, balTail: uint64)
      ensures Contents() == BalStore(lists, balTail)
    {
      this.lists, this.balTail := lists, balTail;
    }

    method SetBalTailBe(n: uint64)
      modifies this
      ensures Contents() == old(Contents()).(tail := n)
    {
      balTail := n;
    }

    /** The lists go before the tail moves; the process may die in between, or with some of the lists left. */
    method DeleteBlockAccessListsBe(blockHashes: seq<Hash32>, newTail: uint64, death: Option<set<Hash32>>)
      returns (died: bool)
      modifies this
      ensures died <==> death.Some?
      ensures Contents() ==
                if death.Some? then BalStore(old(lists) - death.value * ElementsOf(blockHashes), old(balTail))
                else BalStore(old(lists) - ElementsOf(blockHashes), newTail)
    {
      var i := 0;
      while i < |blockHashes|
        invariant 0 <= i <= |blockHashes|
        invariant lists == if death.Some? then old(lists) - death.value * ElementsOf(blockHashes[..i])
                           else old(lists) - ElementsOf(blockHashes[..i])
        invariant balTail == old(balTail)
      {
        assert blockHashes[..i + 1] == blockHashes[..i] + [blockHashes[i]];
        if death.None? || blockHashes[i] in death.value {
          lists := lists - {blockHashes[i]};
        }
        i := i + 1;
      }
      assert blockHashes[..i] == blockHashes;
      if death.Some? {
        return true;
      }
      SetBalTailBe(newTail);
      return false;
    }
  }

  function ElementsOf(hashes: seq<Hash32>): set<Hash32> {
    set h | h in hashes
  }

  /** The first block in `[from, end)` whose hash cannot be read, or `end`; `from` if the range is empty. */
  function FirstHole(frame: Frame, from: uint64, end: uint64): (hole: uint64)
    ensures from <= hole <= Max(from, end)
    ensures forall n: uint64 :: from <= n < hole ==> n in frame.hashes
    ensures hole < end ==> hole !in frame.hashes
    decreases end - from
  {
    if end <= from || from !in frame.hashes then from else FirstHole(frame, from + 1, end)
  }

  /** The hashes of the readable blocks in `[from, end)`. */
  function HashesIn(frame: Frame, from: uint64, end: uint64): set<Hash32> {
    set n: uint64 | from <= n < end && n in frame.hashes :: frame.hashes[n]
  }

  /** Deletes the lists of the blocks from the tail up to `end`, and moves the tail there. */
  function DeleteUpTo(frame: Frame, store: BalStore, end: uint64): BalStore {
    BalStore(store.lists - HashesIn(frame, store.tail, end), end)
  }

  /** Deletes only those of the lists up to `end` that are in `gone`, and leaves the tail. */
  function TearUpTo(frame: Frame, store: BalStore, end: uint64, gone: set<Hash32>): BalStore {
    store.(lists := store.lists - gone * HashesIn(frame, store.tail, end))
  }

  /** The end of the batch that starts at `from`; the addition wraps in the machine word. */
  function BatchEnd(from: uint64, cutoff: uint64, batchSize: uint64): uint64 {
    Min(cutoff, WrapAdd(from, batchSize))
  }

  /** How a sequence of batches ends: at its end, in the sleep after a batch, or within one. */
  datatype SweepEnd = AtEnd | InSleep | InBatch

  /** The batches of one pass. */
  function Sweep(env: Env, awaits: nat, store: BalStore, cutoff: uint64, batchSize: uint64): (r: (BalStore, SweepEnd))
    requires awaits < |env.frames|
    ensures store.tail <= r.0.tail <= Max(store.tail, cutoff)
    ensures r.1 == InBatch ==> env.death.Some?
    decreases |env.frames| - awaits
  {
    if cutoff <= store.tail then (store, AtEnd) else
    var frame := env.frames[awaits];
    var batchEnd := BatchEnd(store.tail, cutoff, batchSize);
    var stop := FirstHole(frame, store.tail, batchEnd);
    var after := DeleteUpTo(frame, store, stop);
    if awaits + 1 == |env.frames| && env.death.Some? then (TearUpTo(frame, store, stop, env.death.value), InBatch)
    else if stop < batchEnd || stop == cutoff then (after, AtEnd)
    else if awaits + 1 == |env.frames| then (after, InSleep)
    else Sweep(env, awaits + 1, after, cutoff, batchSize)
  }

  /** What one batch contributes to a sweep. */
  lemma SweepBatch(env: Env, awaits: nat, store: BalStore, cutoff: uint64, batchSize: uint64)
    requires awaits < |env.frames| && store.tail < cutoff
    ensures BatchEnd(store.tail, cutoff, batchSize) <= cutoff
    ensures
      var frame := env.frames[awaits];
      var batchEnd := BatchEnd(store.tail, cutoff, batchSize);
      var stop := FirstHole(frame, store.tail, batchEnd);
      && store.tail <= stop <= Min(cutoff, store.tail + batchSize)
      && Sweep(env, awaits, store, cutoff, batchSize) ==
           if awaits + 1 == |env.frames| && env.death.Some? then
             (TearUpTo(frame, store, stop, env.death.value), InBatch)
           else if stop < batchEnd || stop == cutoff then (DeleteUpTo(frame, store, stop), AtEnd)
           else if awaits + 1 == |env.frames| then (DeleteUpTo(frame, store, stop), InSleep)
           else Sweep(env, awaits + 1, DeleteUpTo(frame, store, stop), cutoff, batchSize)
  {
  }

  function SweepOutcome(env: Env, store: BalStore, cutoff: uint64, batchSize: uint64): (BalStore, Outcome) {
    var (after, end) := Sweep(env, 0, store, cutoff, batchSize);
    (after, match end case AtEnd => Finished(after.tail - store.tail) case InSleep => Cancelled case InBatch => Died)
  }

  /** One pass from a tail that has been located. */
  function PruneFrom(env: Env, store: BalStore, head: uint64, headSlot: uint64, batchSize: uint64)
      : (BalStore, Outcome)
    requires head < UINT64_MAX
  {
    match GetBlockHeader(env.frames[0], store.tail)
    case None => (store.(tail := WrapAdd(store.tail, 1)), Finished(0))
    case Some(header) =>
      if IsWithinBalRetentionPeriod(header, headSlot) then (store, Finished(0)) else
      var cutoff := ProbeCutoff(env.frames[0], store.tail, head, headSlot);
      if cutoff <= store.tail then (store, Finished(0)) else
      SweepOutcome(env, store, cutoff, batchSize)
  }

  /** One pass: a zero tail is first replaced by the first block that holds a list. */
  function PruneResult(env: Env, store: BalStore, head: uint64, headSlot: uint64, batchSize: uint64)
      : (BalStore, Outcome)
    requires head < UINT64_MAX
  {
    if store.tail != 0 then PruneFrom(env, store, head, headSlot, batchSize)
    else match FirstBal(env.frames[0], head)
      case None => (store, Finished(0))
      case Some(first) => PruneFrom(env, store.(tail := first), head, headSlot, batchSize)
  }

  /** One cycle starts a pass at the saved head. */
  datatype Cycle = Cycle(head: uint64, env: Env)

  function CycleResult(store: BalStore, cycle: Cycle, batchSize: uint64): BalStore
    requires cycle.head < UINT64_MAX
  {
    match GetBlockHeader(cycle.env.frames[0], cycle.head)
    case None => store
    case Some(header) =>
      match header.slotNumber
      case None => store
      case Some(headSlot) => PruneResult(cycle.env, store, cycle.head, headSlot, batchSize).0
  }

  class BalPrunerRef {
    const kvt: Kvt
    const batchSize: uint64

    constructor (kvt: Kvt, batchSize: uint64)
      ensures this.kvt == kvt
      ensures this.batchSize >= 1 && (batchSize >= 1 ==> this.batchSize == batchSize)
    {
      this.kvt, this.batchSize := kvt, Max(1, batchSize);
    }

    method Prune(env: Env, head: uint64, headSlot: uint64) returns (outcome: Outcome)
      requires head < UINT64_MAX
      modifies kvt
      ensures (kvt.Contents(), outcome) == PruneResult(env, old(kvt.Contents()), head, headSlot, batchSize)
    {
      var txFrame := env.frames[0];
      var tail := kvt.balTail;

      if tail == 0 {
        var first, _ := FindFirstBalBlock(txFrame, head);
        if first.None? {
          return Finished(0);
        }
        tail := first.value;
        kvt.SetBalTailBe(tail);
      }

      var header := GetBlockHeader(txFrame, tail);
      if header.None? {
        kvt.SetBalTailBe(WrapAdd(tail, 1));
        return Finished(0);
      }
      if IsWithinBalRetentionPeriod(header.value, headSlot) {
        return Finished(0);
      }
      var cutoff, _ := FindRetentionCutoff(txFrame, tail, head, headSlot);
      if cutoff <= tail {
        return Finished(0);
      }
      outcome := DeleteBatches(env, tail, cutoff);
    }

    method DeleteBatches(env: Env, tail: uint64, cutoff: uint64) returns (outcome: Outcome)
      requires kvt.balTail == tail < cutoff
      modifies kvt
      ensures (kvt.Contents(), outcome) == SweepOutcome(env, old(kvt.Contents()), cutoff, batchSize)
    {
      hide Sweep;
      var awaits: nat := 0;
      var currentBlock := tail;
      var pruned: nat := 0;
      ghost var whole := Sweep(env, 0, kvt.Contents(), cutoff, batchSize);

      while currentBlock < cutoff
        invariant currentBlock == kvt.balTail && tail <= currentBlock < cutoff && pruned == currentBlock - tail
        invariant awaits < |env.frames|
        invariant Sweep(env, awaits, kvt.Contents(), cutoff, batchSize) == whole
        decreases |env.frames| - awaits, cutoff - currentBlock
      {
        var count, end := DeleteBatch(env, awaits, currentBlock, cutoff);
        if end == InBatch {
          return Died;
        }
        currentBlock := currentBlock + count;
        pruned := pruned + count;
        if end == AtEnd {
          break;
        }
        if awaits + 1 == |env.frames| {
          return Cancelled;
        }
        awaits := awaits + 1;
      }
      return Finished(pruned);
    }

    /** One batch: its lists and then the new tail. It is the last one at the cutoff or at an unreadable block. */
    method DeleteBatch(env: Env, awaits: nat, currentBlock: uint64, cutoff: uint64) returns (count: nat, end: SweepEnd)
      requires currentBlock == kvt.balTail < cutoff && awaits < |env.frames|
      modifies kvt
      ensures end != InBatch ==> kvt.balTail == currentBlock + count
      ensures end == InSleep ==> kvt.balTail < cutoff
      ensures Sweep(env, awaits, old(kvt.Contents()), cutoff, batchSize)
           == if end == InSleep && awaits + 1 < |env.frames|
              then Sweep(env, awaits + 1, kvt.Contents(), cutoff, batchSize) else (kvt.Contents(), end)
    {
      hide Sweep;
      SweepBatch(env, awaits, kvt.Contents(), cutoff, batchSize);
      var txFrame := env.frames[awaits];
      var batchEnd := BatchEnd(currentBlock, cutoff, batchSize);
      var blockHashes, stop, unreadableBlock := CollectHashes(txFrame, currentBlock, batchEnd);
      var death := if awaits + 1 == |env.frames| then env.death else None;
      var died := kvt.DeleteBlockAccessListsBe(blockHashes, stop, death);
      return |blockHashes|, if died then InBatch else if unreadableBlock || stop == cutoff then AtEnd else InSleep;
    }

    /** The inner loop: reads hashes until the batch is full or a block cannot be read. */
    method CollectHashes(txFrame: Frame, from: uint64, batchEnd: uint64)
      returns (blockHashes: seq<Hash32>, currentBlock: uint64, unreadableBlock: bool)
      ensures currentBlock == FirstHole(txFrame, from, batchEnd)
      ensures |blockHashes| == currentBlock - from
      ensures ElementsOf(blockHashes) == HashesIn(txFrame, from, currentBlock)
      ensures unreadableBlock <==> currentBlock < batchEnd
    {
      blockHashes, currentBlock, unreadableBlock := [], from, false;
      while currentBlock < batchEnd
        invariant from <= currentBlock <= Max(from, batchEnd)
        invariant FirstHole(txFrame, currentBlock, batchEnd) == FirstHole(txFrame, from, batchEnd)
        invariant |blockHashes| == currentBlock - from
        invariant forall i :: 0 <= i < |blockHashes| ==>
                    (from + i) in txFrame.hashes && blockHashes[i] == txFrame.hashes[from + i]
        invariant !unreadableBlock
      {
        var blockHash := GetBlockHash(txFrame, currentBlock);
        if blockHash.None? {
          unreadableBlock := true;
          break;
        }
        blockHashes := blockHashes + [blockHash.value];
        currentBlock := currentBlock + 1;
      }
      forall n: uint64 | from <= n < currentBlock
        ensures n in txFrame.hashes && txFrame.hashes[n] in blockHashes
      {
        assert blockHashes[n - from] == txFrame.hashes[from + (n - from)];
      }
    }

    method PruneCycle(cycle: Cycle)
      requires cycle.head < UINT64_MAX
      modifies kvt
      ensures kvt.Contents() == CycleResult(old(kvt.Contents()), cycle, batchSize)
    {
      var headHeader := GetBlockHeader(cycle.env.frames[0], cycle.head);
      if headHeader.None? || headHeader.value.slotNumber.None? {
        return;
      }
      var _ := Prune(cycle.env, cycle.head, headHeader.value.slotNumber.value);
    }
  }
}
