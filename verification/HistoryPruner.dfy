/** The background pruner of block bodies and receipts: deletes run ahead of the saved tail. */
module HistoryPruner {
  import opened Words
  import opened CoreDb

  /** MIN_EPOCHS_FOR_BLOCK_REQUESTS epochs of 32 slots of 12 seconds. */
  const RETENTION_PERIOD: uint64 := 33024 * 32 * 12

  const EMPTY_ROOT_HASH := Hash32(0x56e81f171bcc55a6ff8345e692c0f86e5b48e01b996cadc001622fb5e363b421)
  const EMPTY_UNCLE_HASH := Hash32(0x1dcc4de8dec75d7aab85b567b6ccd41ad312451b948a7413f0a142fd40d49347)

  /**
   * Block data is stored by content root, so blocks with equal roots share it. Transactions and receipts both
   * live under their root and an index, in one key space.
   */
  datatype Key = Indexed(root: Hash32) | Uncles(hash: Hash32) | Withdrawals(root: Hash32)

  datatype HistoryStore = HistoryStore(data: set<Key>, tail: uint64)

  /** A cycle completes, is cancelled in a sleep, or the process dies before one of its writes. */
  datatype CycleEnd = Completed | Cancelled | Died

  /** The one delete under this key, unless it is skipped. */
  function DeleteUnless(skipped: bool, key: Key): seq<Key> {
    if skipped then [] else [key]
  }

  predicate LacksWithdrawals(header: Header) {
    header.withdrawalsRoot.None? || header.withdrawalsRoot.value == EMPTY_ROOT_HASH
  }

  function WithdrawalsKey(header: Header): Key {
    Withdrawals(if header.withdrawalsRoot.None? then EMPTY_ROOT_HASH else header.withdrawalsRoot.value)
  }

  /** The deletes of the block with this header, in order; nothing is stored under the empty roots. */
  function DeletesOf(header: Header): seq<Key> {
    DeleteUnless(header.transactionsRoot == EMPTY_ROOT_HASH, Indexed(header.transactionsRoot))
    + DeleteUnless(header.ommersHash == EMPTY_UNCLE_HASH, Uncles(header.ommersHash))
    + DeleteUnless(LacksWithdrawals(header), WithdrawalsKey(header))
    + DeleteUnless(header.receiptsRoot == EMPTY_ROOT_HASH, Indexed(header.receiptsRoot))
  }

  /** Transactions, ommers, withdrawals and receipts, where the block has any. */
  lemma DeletesInOrder(header: Header)
    requires header.transactionsRoot != EMPTY_ROOT_HASH && header.ommersHash != EMPTY_UNCLE_HASH
    requires header.withdrawalsRoot.Some? && header.withdrawalsRoot.value != EMPTY_ROOT_HASH
    requires header.receiptsRoot != EMPTY_ROOT_HASH
    ensures DeletesOf(header) == [Indexed(header.transactionsRoot), Uncles(header.ommersHash),
                                  Withdrawals(header.withdrawalsRoot.value), Indexed(header.receiptsRoot)]
  {
  }

  function ElementsOf(keys: seq<Key>): set<Key> {
    set key | key in keys
  }

  /** What deleting the block with this header removes. */
  function KeysOf(header: Header): set<Key> {
    ElementsOf(DeletesOf(header))
  }

  class HistoryKvt {
    var data: set<Key>
    var chainTail: uint64

    ghost function Contents(): HistoryStore
      reads this
    {
      HistoryStore(data, chainTail)
    }

    constructor (data: set<Key>, chainTail: uint64)
      ensures Contents() == HistoryStore(data, chainTail)
    {
      this.data, this.chainTail := data, chainTail;
    }

    method SetChainTailBe(n: uint64)
      modifies this
      ensures Contents() == old(Contents()).(tail := n)
    {
      chainTail := n;
    }

    /** One delete; the process dies before it when no write is left. */
    method DelBe(skipped: bool, key: Key, writes: nat) returns (died: bool, left: nat)
      modifies this
      ensures died <==> writes < |DeleteUnless(skipped, key)|
      ensures Contents() == old(Contents()).(data :=
                old(data) - if died then {} else ElementsOf(DeleteUnless(skipped, key)))
      ensures left == if died then 0 else writes - |DeleteUnless(skipped, key)|
    {
      if skipped {
        return false, writes;
      }
      if writes == 0 {
        return true, 0;
      }
      data := data - {key};
      return false, writes - 1;
    }

    /** The deletes of one block, with a death before any of them. */
    method DeleteBlockBodyAndReceiptsBe(header: Header, writes: nat) returns (died: bool)
      modifies this
      ensures died <==> writes < |DeletesOf(header)|
      ensures Contents() == old(Contents()).(data :=
                old(data) - if died then ElementsOf(DeletesOf(header)[..writes]) else KeysOf(header))
    {
      hide DeleteUnless;
      ghost var txs := DeleteUnless(header.transactionsRoot == EMPTY_ROOT_HASH, Indexed(header.transactionsRoot));
      ghost var uncles := DeleteUnless(header.ommersHash == EMPTY_UNCLE_HASH, Uncles(header.ommersHash));
      ghost var withdrawals := DeleteUnless(LacksWithdrawals(header), WithdrawalsKey(header));
      ghost var deletes := DeletesOf(header);
      AtMostOne(header);
      var left;
      died, left := DelBe(header.transactionsRoot == EMPTY_ROOT_HASH, Indexed(header.transactionsRoot), writes);
      if died {
        assert deletes[..writes] == [];
        return;
      }
      died, left := DelBe(header.ommersHash == EMPTY_UNCLE_HASH, Uncles(header.ommersHash), left);
      if died {
        assert deletes[..writes] == txs;
        return;
      }
      died, left := DelBe(LacksWithdrawals(header), WithdrawalsKey(header), left);
      if died {
        assert deletes[..writes] == txs + uncles;
        return;
      }
      died, left := DelBe(header.receiptsRoot == EMPTY_ROOT_HASH, Indexed(header.receiptsRoot), left);
      if died {
        assert deletes[..writes] == txs + uncles + withdrawals;
        return;
      }
    }
  }

  lemma AtMostOne(header: Header)
    ensures |DeleteUnless(header.transactionsRoot == EMPTY_ROOT_HASH, Indexed(header.transactionsRoot))| <= 1
    ensures |DeleteUnless(header.ommersHash == EMPTY_UNCLE_HASH, Uncles(header.ommersHash))| <= 1
    ensures |DeleteUnless(LacksWithdrawals(header), WithdrawalsKey(header))| <= 1
    ensures |DeleteUnless(header.receiptsRoot == EMPTY_ROOT_HASH, Indexed(header.receiptsRoot))| <= 1
  {
  }

  /** The block can be read and is older than the cutoff. */
  predicate IsPrunable(frame: Frame, n: uint64, cutoff: uint64) {
    var header := GetBlockHeader(frame, n);
    header.Some? && header.value.timestamp < cutoff
  }

  /**
   * Where a scan ended: the durable store, the first block it did not delete completely, what it deleted of
   * that block, and why it ended.
   */
  datatype Scanned = Scanned(store: HistoryStore, reached: uint64, torn: set<Key>, end: CycleEnd)

  /**
   * One scan: the blocks deleted one by one, the tail saved after each full batch and at the end. The process
   * dies when it has no `writes` left.
   */
  function Scan(
      frames: Frames, awaits: nat, store: HistoryStore, current: uint64, head: uint64, cutoff: uint64,
      batchSize: uint64, writes: nat)
      : (scanned: Scanned)
    requires awaits < |frames| && head < UINT64_MAX
    ensures current <= scanned.reached
    decreases head + 1 - current
  {
    if head < current || !IsPrunable(frames[awaits], current, cutoff) then
      if current <= store.tail then Scanned(store, current, {}, Completed)
      else if writes == 0 then Scanned(store, current, {}, Died)
      else Scanned(store.(tail := current), current, {}, Completed)
    else
      var deletes := DeletesOf(GetBlockHeader(frames[awaits], current).value);
      if writes < |deletes| then
        var torn := ElementsOf(deletes[..writes]);
        Scanned(store.(data := store.data - torn), current, torn, Died)
      else
        var deleted := store.(data := store.data - ElementsOf(deletes));
        var left := writes - |deletes|;
        if current + 1 - store.tail < batchSize then
          Scan(frames, awaits, deleted, current + 1, head, cutoff, batchSize, left)
        else if left == 0 then Scanned(deleted, current + 1, {}, Died)
        else
          var saved := deleted.(tail := current + 1);
          if awaits + 1 == |frames| then Scanned(saved, current + 1, {}, Cancelled)
          else Scan(frames, awaits + 1, saved, current + 1, head, cutoff, batchSize, left - 1)
  }

  /** One cycle; a tail at or above the head leaves nothing to do. */
  function CycleResult(
      frames: Frames, store: HistoryStore, head: uint64, cutoff: uint64, batchSize: uint64, writes: nat): Scanned
    requires head < UINT64_MAX
  {
    if head <= store.tail then Scanned(store, store.tail, {}, Completed)
    else Scan(frames, 0, store, store.tail, head, cutoff, batchSize, writes)
  }

  /** The cutoff of a cycle; the subtraction wraps when the clock is younger than the retention period. */
  function CutoffAt(now: uint64): uint64 {
    WrapSub(now, RETENTION_PERIOD)
  }

  /** Older than 12681216 seconds, the 33024 epochs of 32 slots of 12 seconds. */
  predicate IsPastRetention(timestamp: uint64, now: uint64) {
    timestamp + 12681216 < now
  }

  /** The cutoff selects exactly the blocks past the retention period if the clock is not younger than the period. */
  lemma CutoffIsRetention(now: uint64)
    ensures 12681216 <= now
            <==> forall timestamp: uint64 :: timestamp < CutoffAt(now) ==> IsPastRetention(timestamp, now)
    ensures 12681216 <= now ==>
              forall timestamp: uint64 :: IsPastRetention(timestamp, now) ==> timestamp < CutoffAt(now)
  {
    assert now < 12681216 ==> 0 < CutoffAt(now) && !IsPastRetention(0, now);
  }

  datatype PrunerState = PrunerState(active: bool, tail: uint64, head: uint64)

  class BackgroundPrunerRef {
    const kvt: HistoryKvt
    const batchSize: uint64
    var state: PrunerState

    constructor (kvt: HistoryKvt, batchSize: uint64, saved: PrunerState)
      ensures this.kvt == kvt && this.batchSize == batchSize
      ensures state == saved.(active := true)
    {
      this.kvt, this.batchSize, this.state := kvt, batchSize, saved.(active := true);
    }

    /** One turn of the pruner's loop at the saved head `head` and wall clock `now`. */
    method Cycle(frames: Frames, head: uint64, now: uint64, writes: nat) returns (end: CycleEnd)
      requires head < UINT64_MAX
      modifies this, kvt
      ensures var scanned := CycleResult(frames, old(kvt.Contents()), head, CutoffAt(now), batchSize, writes);
              kvt.Contents() == scanned.store && end == scanned.end
      ensures state.head == head && state.active == old(state.active)
      ensures end != Died ==> state.tail == kvt.chainTail
    {
      var cutoff := CutoffAt(now);
      state := state.(head := head, tail := kvt.chainTail);
      if state.tail >= state.head {
        return Completed;
      }
      end := ScanFrom(frames, cutoff, writes);
    }

    method ScanFrom(frames: Frames, cutoff: uint64, writes: nat) returns (end: CycleEnd)
      requires state.tail == kvt.chainTail < state.head < UINT64_MAX
      modifies this, kvt
      ensures var scanned := Scan(frames, 0, old(kvt.Contents()), old(state.tail), old(state.head), cutoff,
                                  batchSize, writes);
              kvt.Contents() == scanned.store && end == scanned.end
      ensures state == old(state).(tail := state.tail)
      ensures end != Died ==> state.tail == kvt.chainTail
    {
      hide DeletesOf;
      var currentBlock := state.tail;
      var blocksSinceSave: nat := 0;
      var awaits: nat := 0;
      var left: nat := writes;
      ghost var whole := Scan(frames, 0, kvt.Contents(), currentBlock, state.head, cutoff, batchSize, writes);

      while currentBlock <= state.head
        invariant state == old(state).(tail := kvt.chainTail)
        invariant kvt.chainTail <= currentBlock <= state.head + 1
        invariant blocksSinceSave == currentBlock - kvt.chainTail
        invariant awaits < |frames|
        invariant Scan(frames, awaits, kvt.Contents(), currentBlock, state.head, cutoff, batchSize, left) == whole
        decreases state.head + 1 - currentBlock
      {
        var header := GetBlockHeader(frames[awaits], currentBlock);
        if header.None? || header.value.timestamp >= cutoff {
          break;
        }
        var died := kvt.DeleteBlockBodyAndReceiptsBe(header.value, left);
        if died {
          return Died;
        }
        left := left - |DeletesOf(header.value)|;
        currentBlock := currentBlock + 1;
        blocksSinceSave := blocksSinceSave + 1;

        if blocksSinceSave >= batchSize {
          if left == 0 {
            return Died;
          }
          kvt.SetChainTailBe(currentBlock);
          left := left - 1;
          state := state.(tail := currentBlock);
          blocksSinceSave := 0;
          if awaits + 1 == |frames| {
            return Cancelled;
          }
          awaits := awaits + 1;
        }
      }

      if currentBlock > state.tail {
        if left == 0 {
          return Died;
        }
        kvt.SetChainTailBe(currentBlock);
        state := state.(tail := currentBlock);
      }
      return Completed;
    }
  }
}
