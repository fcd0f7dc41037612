/** What the background history pruner leaves behind after cycles, cancellations, crashes and restarts. */
module HistoryPrunerProofs {
  import opened Words
  import opened CoreDb
  import opened HistoryPruner

  /** The data of the canonical blocks in `[from, end)`. */
  ghost function KeysIn(chain: seq<Block>, from: nat, end: nat): set<Key> {
    set n: nat, key | from <= n < end && n < |chain| && key in KeysOf(chain[n].header) :: key
  }

  lemma KeysSplit(chain: seq<Block>, a: nat, b: nat, c: nat)
    requires a <= b <= c
    ensures KeysIn(chain, a, c) == KeysIn(chain, a, b) + KeysIn(chain, b, c)
    ensures KeysIn(chain, a, a) == {}
  {
    hide KeysOf;
  }

  /** How far deletes have got: the first block not deleted completely, and what is gone of that one. */
  datatype Extent = Extent(reach: nat, torn: set<Key>)

  /** The first block not deleted at all. */
  function Untouched(extent: Extent): nat {
    extent.reach + if extent.torn == {} then 0 else 1
  }

  function Further(a: Extent, b: Extent): Extent {
    if a.reach < b.reach then b else if b.reach < a.reach then a else Extent(a.reach, a.torn + b.torn)
  }

  /** Exactly the data of the blocks from `first` to this extent is gone. */
  ghost predicate IsGoneUpTo(chain: seq<Block>, before: set<Key>, after: set<Key>, first: nat, extent: Extent) {
    && after == before - KeysIn(chain, first, extent.reach) - extent.torn
    && extent.torn <= KeysIn(chain, extent.reach, extent.reach + 1)
  }

  ghost predicate AllOlder(chain: seq<Block>, from: nat, end: nat, cutoff: uint64) {
    forall n: nat :: from <= n < end && n < |chain| ==> chain[n].header.timestamp < cutoff
  }

  /** The first block from `from` on that is unreadable, newer than the cutoff, or above the head. */
  function ScanStop(frame: Frame, from: uint64, head: uint64, cutoff: uint64): (stop: uint64)
    requires head < UINT64_MAX && from <= head + 1
    ensures from <= stop <= head + 1
    ensures forall n: uint64 :: from <= n < stop ==> IsPrunable(frame, n, cutoff)
    ensures stop <= head ==> !IsPrunable(frame, stop, cutoff)
    decreases head + 1 - from
  {
    if from <= head && IsPrunable(frame, from, cutoff) then ScanStop(frame, from + 1, head, cutoff) else from
  }

  /** In terms of the headers: everything below is readable and old, and the block there is not. */
  lemma LinearScanStops(frame: Frame, from: uint64, head: uint64, cutoff: uint64)
    requires head < UINT64_MAX && from <= head + 1
    ensures var stop := ScanStop(frame, from, head, cutoff);
            && (forall n: uint64 :: from <= n < stop ==>
                  GetBlockHeader(frame, n).Some? && GetBlockHeader(frame, n).value.timestamp < cutoff)
            && (stop <= head ==>
                  GetBlockHeader(frame, stop).None? || cutoff <= GetBlockHeader(frame, stop).value.timestamp)
  {
    var stop := ScanStop(frame, from, head, cutoff);
    forall n: uint64 | from <= n < stop
      ensures GetBlockHeader(frame, n).Some? && GetBlockHeader(frame, n).value.timestamp < cutoff
    {
      assert IsPrunable(frame, n, cutoff);
    }
  }

  // ---------------------------------------------------------------------------------------------
  // One scan
  // ---------------------------------------------------------------------------------------------

  function ExtentOf(scanned: Scanned): Extent {
    Extent(scanned.reached, scanned.torn)
  }

  /** Deleting one block and then those after it deletes the whole range. */
  lemma GoneStep(chain: seq<Block>, data: set<Key>, after: set<Key>, n: nat, extent: Extent)
    requires n < |chain| && n < extent.reach
    requires IsGoneUpTo(chain, data - KeysOf(chain[n].header), after, n + 1, extent)
    ensures IsGoneUpTo(chain, data, after, n, extent)
  {
    hide KeysOf;
    assert KeysIn(chain, n, n + 1) == KeysOf(chain[n].header);
    KeysSplit(chain, n, n + 1, extent.reach);
  }

  lemma GoneAtOnce(chain: seq<Block>, data: set<Key>, n: nat)
    ensures IsGoneUpTo(chain, data, data, n, Extent(n, {}))
  {
    hide KeysOf;
    KeysSplit(chain, n, n, n);
  }

  lemma TornBlock(chain: seq<Block>, data: set<Key>, n: nat, writes: nat)
    requires n < |chain| && writes <= |DeletesOf(chain[n].header)|
    ensures var torn := ElementsOf(DeletesOf(chain[n].header)[..writes]);
            IsGoneUpTo(chain, data, data - torn, n, Extent(n, torn))
  {
    hide DeletesOf;
    KeysSplit(chain, n, n, n);
    assert KeysIn(chain, n, n + 1) == KeysOf(chain[n].header);
  }

  /** Whatever the frames and the end, a scan deletes exactly the data up to its extent, all of it old. */
  lemma {:induction false} ScanDeletesWhatItPasses(
      chain: seq<Block>, frames: Frames, awaits: nat, store: HistoryStore, current: uint64, head: uint64,
      cutoff: uint64, batchSize: uint64, writes: nat)
    requires AllAgree(frames, chain, head) && awaits < |frames| && head < UINT64_MAX
    ensures var scanned := Scan(frames, awaits, store, current, head, cutoff, batchSize, writes);
            && IsGoneUpTo(chain, store.data, scanned.store.data, current, ExtentOf(scanned))
            && AllOlder(chain, current, Untouched(ExtentOf(scanned)), cutoff)
    decreases head + 1 - current
  {
    hide DeletesOf, IsGoneUpTo;
    GoneAtOnce(chain, store.data, current);
    if current <= head && IsPrunable(frames[awaits], current, cutoff) {
      assert Agrees(frames[awaits], chain, head);
      var deletes := DeletesOf(chain[current].header);
      if writes < |deletes| {
        TornBlock(chain, store.data, current, writes);
      } else {
        ScanAfterOneBlock(chain, frames, awaits, store, current, head, cutoff, batchSize, writes);
      }
    }
  }

  lemma {:induction false} ScanAfterOneBlock(
      chain: seq<Block>, frames: Frames, awaits: nat, store: HistoryStore, current: uint64, head: uint64,
      cutoff: uint64, batchSize: uint64, writes: nat)
    requires AllAgree(frames, chain, head) && awaits < |frames| && head < UINT64_MAX
    requires current <= head && IsPrunable(frames[awaits], current, cutoff)
    requires Agrees(frames[awaits], chain, head) && |DeletesOf(chain[current].header)| <= writes
    ensures var scanned := Scan(frames, awaits, store, current, head, cutoff, batchSize, writes);
            && IsGoneUpTo(chain, store.data, scanned.store.data, current, ExtentOf(scanned))
            && AllOlder(chain, current, Untouched(ExtentOf(scanned)), cutoff)
    decreases head + 1 - current, 0
  {
    hide DeletesOf, IsGoneUpTo;
    var scanned := Scan(frames, awaits, store, current, head, cutoff, batchSize, writes);
    var deleted := store.(data := store.data - KeysOf(chain[current].header));
    var left := writes - |DeletesOf(chain[current].header)|;
    GoneAtOnce(chain, deleted.data, current + 1);
    if current + 1 - store.tail < batchSize {
      ScanDeletesWhatItPasses(chain, frames, awaits, deleted, current + 1, head, cutoff, batchSize, left);
    } else if left != 0 && awaits + 1 != |frames| {
      ScanDeletesWhatItPasses(chain, frames, awaits + 1, deleted.(tail := current + 1), current + 1, head, cutoff,
                              batchSize, left - 1);
    }
    GoneStep(chain, store.data, scanned.store.data, current, ExtentOf(scanned));
  }

  /** At every interruption at most one batch lies beyond the saved tail, and nothing unless the process died. */
  lemma {:induction false} ScanStaysWithinOneBatch(
      frames: Frames, awaits: nat, store: HistoryStore, current: uint64, head: uint64, cutoff: uint64,
      batchSize: uint64, writes: nat)
    requires awaits < |frames| && head < UINT64_MAX && store.tail <= current
    requires current == store.tail || current - store.tail < batchSize
    ensures var scanned := Scan(frames, awaits, store, current, head, cutoff, batchSize, writes);
            && store.tail <= scanned.store.tail <= scanned.reached
            && Untouched(ExtentOf(scanned)) <= scanned.store.tail + Max(1, batchSize)
            && (scanned.end != Died ==> scanned.torn == {} && scanned.reached == scanned.store.tail)
    decreases head + 1 - current
  {
    hide DeletesOf, ElementsOf;
    if current <= head && IsPrunable(frames[awaits], current, cutoff) {
      var deletes := DeletesOf(GetBlockHeader(frames[awaits], current).value);
      if |deletes| <= writes {
        var deleted, left := store.(data := store.data - ElementsOf(deletes)), writes - |deletes|;
        if current + 1 - store.tail < batchSize {
          ScanStaysWithinOneBatch(frames, awaits, deleted, current + 1, head, cutoff, batchSize, left);
        } else if left != 0 && awaits + 1 != |frames| {
          ScanStaysWithinOneBatch(frames, awaits + 1, deleted.(tail := current + 1), current + 1, head, cutoff,
                                  batchSize, left - 1);
        }
      }
    }
  }

  /**
   * The tail is saved once in a batch: interrupted, a scan has saved it after some number of whole batches, and
   * after one for each of its sleeps if it was cancelled.
   */
  lemma {:induction false} SavedAfterWholeBatches(
      frames: Frames, awaits: nat, store: HistoryStore, current: uint64, head: uint64, cutoff: uint64,
      batchSize: uint64, writes: nat)
      returns (batches: nat)
    requires awaits < |frames| && head < UINT64_MAX && store.tail <= current
    requires current == store.tail || current - store.tail < batchSize
    ensures var scanned := Scan(frames, awaits, store, current, head, cutoff, batchSize, writes);
            scanned.end != Completed ==>
              && scanned.store.tail == store.tail + batches * Max(1, batchSize)
              && batches <= |frames| - awaits
              && (scanned.end == Cancelled ==> batches == |frames| - awaits)
    decreases head + 1 - current
  {
    hide DeletesOf, ElementsOf;
    batches := 0;
    if current <= head && IsPrunable(frames[awaits], current, cutoff) {
      var deletes := DeletesOf(GetBlockHeader(frames[awaits], current).value);
      if |deletes| <= writes {
        var deleted, left := store.(data := store.data - ElementsOf(deletes)), writes - |deletes|;
        if current + 1 - store.tail < batchSize {
          batches := SavedAfterWholeBatches(frames, awaits, deleted, current + 1, head, cutoff, batchSize, left);
        } else if left != 0 {
          var more := 0;
          if awaits + 1 != |frames| {
            more := SavedAfterWholeBatches(frames, awaits + 1, deleted.(tail := current + 1), current + 1, head, cutoff,
                                           batchSize, left - 1);
          }
          batches := 1 + more;
          OneBatchMore(more, Max(1, batchSize));
        }
      }
    }
  }

  lemma OneBatchMore(batches: nat, size: nat)
    ensures (1 + batches) * size == size + batches * size
  {
  }

  /** On one frame a scan stays below the linear scan, and ends there when it completes. */
  lemma {:induction false} ScanFollowsLinearScan(
      frames: Frames, awaits: nat, store: HistoryStore, current: uint64, head: uint64, cutoff: uint64,
      batchSize: uint64, writes: nat)
    requires IsFixed(frames, frames[0]) && awaits < |frames| && head < UINT64_MAX
    requires store.tail <= current <= head + 1
    ensures var scanned := Scan(frames, awaits, store, current, head, cutoff, batchSize, writes);
            var stop := ScanStop(frames[0], current, head, cutoff);
            && scanned.store.tail <= scanned.reached && Untouched(ExtentOf(scanned)) <= stop
            && (scanned.end == Completed ==> scanned.store.tail == stop)
    decreases head + 1 - current
  {
    hide DeletesOf, ElementsOf;
    if current <= head && IsPrunable(frames[awaits], current, cutoff) {
      var deletes := DeletesOf(GetBlockHeader(frames[awaits], current).value);
      if |deletes| <= writes {
        var deleted, left := store.(data := store.data - ElementsOf(deletes)), writes - |deletes|;
        if current + 1 - store.tail < batchSize {
          ScanFollowsLinearScan(frames, awaits, deleted, current + 1, head, cutoff, batchSize, left);
        } else if left != 0 && awaits + 1 != |frames| {
          ScanFollowsLinearScan(frames, awaits + 1, deleted.(tail := current + 1), current + 1, head, cutoff,
                                batchSize, left - 1);
        }
      }
    }
  }

  /**
   * One cycle on one frame, from a clean store. Completed, it has deleted exactly the blocks from the tail
   * to the first one that is unreadable, too new or above the head. Cancelled or dead, it has deleted a
   * prefix of those, with at most one batch beyond the saved tail, and none if it was cancelled.
   */
  lemma CycleOnFixedFrame(
      chain: seq<Block>, frames: Frames, store: HistoryStore, head: uint64, cutoff: uint64, batchSize: uint64,
      writes: nat)
    requires AllAgree(frames, chain, head) && IsFixed(frames, frames[0]) && store.tail < head < UINT64_MAX
    ensures var scanned := CycleResult(frames, store, head, cutoff, batchSize, writes);
            var stop := ScanStop(frames[0], store.tail, head, cutoff);
            && IsGoneUpTo(chain, store.data, scanned.store.data, store.tail, ExtentOf(scanned))
            && store.tail <= scanned.store.tail <= scanned.reached && Untouched(ExtentOf(scanned)) <= stop
            && Untouched(ExtentOf(scanned)) <= scanned.store.tail + Max(1, batchSize)
            && (scanned.end != Died ==> scanned.torn == {} && scanned.reached == scanned.store.tail)
            && (scanned.end == Completed ==> scanned.store.tail == stop)
  {
    ScanDeletesWhatItPasses(chain, frames, 0, store, store.tail, head, cutoff, batchSize, writes);
    ScanStaysWithinOneBatch(frames, 0, store, store.tail, head, cutoff, batchSize, writes);
    ScanFollowsLinearScan(frames, 0, store, store.tail, head, cutoff, batchSize, writes);
  }

  /** With enough writes left, and a frame after every sleep, a scan is neither cut short by a death nor cancelled. */
  lemma {:induction false} ScanCompletes(
      frames: Frames, awaits: nat, store: HistoryStore, current: uint64, head: uint64, cutoff: uint64,
      batchSize: uint64, writes: nat)
    requires head < UINT64_MAX && current <= head + 1
    requires awaits + head + 1 - current < |frames| && 5 * (head + 1 - current) < writes
    ensures Scan(frames, awaits, store, current, head, cutoff, batchSize, writes).end == Completed
    decreases head + 1 - current
  {
    hide DeletesOf, ElementsOf;
    if current <= head && IsPrunable(frames[awaits], current, cutoff) {
      var header := GetBlockHeader(frames[awaits], current).value;
      AtMostFour(header);
      var deletes := DeletesOf(header);
      var deleted, left := store.(data := store.data - ElementsOf(deletes)), writes - |deletes|;
      if current + 1 - store.tail < batchSize {
        ScanCompletes(frames, awaits, deleted, current + 1, head, cutoff, batchSize, left);
      } else {
        ScanCompletes(frames, awaits + 1, deleted.(tail := current + 1), current + 1, head, cutoff, batchSize,
                      left - 1);
      }
    }
  }

  lemma AtMostFour(header: Header)
    ensures |DeletesOf(header)| <= 4
  {
    hide DeleteUnless;
    AtMostOne(header);
  }

  // ---------------------------------------------------------------------------------------------
  // Restarts
  // ---------------------------------------------------------------------------------------------

  lemma ScanFromMiddle(frame: Frame, from: uint64, mid: uint64, head: uint64, cutoff: uint64)
    requires head < UINT64_MAX && from <= head + 1 && from <= mid <= ScanStop(frame, from, head, cutoff)
    ensures ScanStop(frame, mid, head, cutoff) == ScanStop(frame, from, head, cutoff)
  {
  }

  /** One attempt at a cycle, in its environment; the batch size may differ from restart to restart. */
  datatype Attempt = Attempt(frames: Frames, batchSize: uint64, writes: nat)

  function AttemptResult(store: HistoryStore, attempt: Attempt, head: uint64, cutoff: uint64): Scanned
    requires head < UINT64_MAX
  {
    CycleResult(attempt.frames, store, head, cutoff, attempt.batchSize, attempt.writes)
  }

  function RunAttempts(store: HistoryStore, attempts: seq<Attempt>, head: uint64, cutoff: uint64): HistoryStore
    requires head < UINT64_MAX
    decreases |attempts|
  {
    if attempts == [] then store
    else RunAttempts(AttemptResult(store, attempts[0], head, cutoff).store, attempts[1..], head, cutoff)
  }

  /** Every one of the attempts is cancelled or dies. */
  predicate AllInterrupted(store: HistoryStore, attempts: seq<Attempt>, head: uint64, cutoff: uint64)
    requires head < UINT64_MAX
    decreases |attempts|
  {
    attempts == [] ||
    var scanned := AttemptResult(store, attempts[0], head, cutoff);
    scanned.end != Completed && AllInterrupted(scanned.store, attempts[1..], head, cutoff)
  }

  ghost predicate AllFixed(attempts: seq<Attempt>, frame: Frame) {
    forall i :: 0 <= i < |attempts| ==> IsFixed(attempts[i].frames, frame)
  }

  /** All blocks up to the saved tail are gone, and nothing of the blocks from `stop` on. */
  ghost predicate IsOnTheWay(chain: seq<Block>, before: HistoryStore, store: HistoryStore, stop: nat) {
    && before.tail <= store.tail <= stop
    && before.data - KeysIn(chain, before.tail, stop) <= store.data
    && store.data <= before.data - KeysIn(chain, before.tail, store.tail)
  }

  lemma WayContinues(chain: seq<Block>, before: HistoryStore, mid: HistoryStore, store: HistoryStore, stop: nat)
    requires IsOnTheWay(chain, before, mid, stop) && IsOnTheWay(chain, mid, store, stop)
    ensures IsOnTheWay(chain, before, store, stop)
  {
    hide KeysIn;
    KeysSplit(chain, before.tail, mid.tail, store.tail);
    KeysSplit(chain, before.tail, mid.tail, stop);
  }

  /** At the end of the way everything up to there is gone, and nothing else. */
  lemma WayEnds(chain: seq<Block>, before: HistoryStore, store: HistoryStore, stop: nat)
    requires IsOnTheWay(chain, before, store, stop) && store.tail == stop
    ensures store.data == before.data - KeysIn(chain, before.tail, stop)
  {
  }

  /** A cycle moves the store on its way to where the linear scan stops, and to the end if it completes. */
  lemma CycleIsOnTheWay(
      chain: seq<Block>, attempt: Attempt, frame: Frame, store: HistoryStore, head: uint64, cutoff: uint64)
    requires Agrees(frame, chain, head) && IsFixed(attempt.frames, frame) && store.tail < head < UINT64_MAX
    ensures var scanned := AttemptResult(store, attempt, head, cutoff);
            var stop := ScanStop(frame, store.tail, head, cutoff);
            && IsOnTheWay(chain, store, scanned.store, stop)
            && (scanned.end == Completed ==> scanned.store.tail == stop)
  {
    hide KeysIn;
    CycleOnFixedFrame(chain, attempt.frames, store, head, cutoff, attempt.batchSize, attempt.writes);
    var scanned := AttemptResult(store, attempt, head, cutoff);
    var stop := ScanStop(frame, store.tail, head, cutoff);
    KeysSplit(chain, store.tail, scanned.store.tail, scanned.reached);
    KeysSplit(chain, store.tail, scanned.reached, stop);
    if scanned.torn != {} {
      KeysSplit(chain, scanned.reached, scanned.reached + 1, stop);
    }
  }

  lemma {:induction false} InterruptedStayOnTheWay(
      chain: seq<Block>, frame: Frame, store: HistoryStore, attempts: seq<Attempt>, head: uint64, cutoff: uint64)
    requires Agrees(frame, chain, head) && AllFixed(attempts, frame) && store.tail <= head + 1 && head < UINT64_MAX
    requires AllInterrupted(store, attempts, head, cutoff)
    ensures IsOnTheWay(chain, store, RunAttempts(store, attempts, head, cutoff),
             ScanStop(frame, store.tail, head, cutoff))
    decreases |attempts|
  {
    hide KeysIn;
    var stop := ScanStop(frame, store.tail, head, cutoff);
    KeysSplit(chain, store.tail, store.tail, store.tail);
    if attempts != [] {
      var next := AttemptResult(store, attempts[0], head, cutoff).store;
      CycleIsOnTheWay(chain, attempts[0], frame, store, head, cutoff);
      ScanFromMiddle(frame, store.tail, next.tail, head, cutoff);
      InterruptedStayOnTheWay(chain, frame, next, attempts[1..], head, cutoff);
      WayContinues(chain, store, next, RunAttempts(next, attempts[1..], head, cutoff), stop);
    }
  }

  /**
   * Crash consistency: after any number of cancellations and crashes, before any of the writes, a completed
   * cycle from the store left behind reaches the state of one uninterrupted cycle, whatever the batch sizes.
   * The one exception is an interruption with the saved tail exactly at a head that is old enough to be
   * pruned: the next cycle finds the tail at the head and leaves that block for a later head.
   */
  lemma RestartReachesSameState(
      chain: seq<Block>, frame: Frame, store: HistoryStore, head: uint64, cutoff: uint64,
      interrupted: seq<Attempt>, rerun: Attempt, single: Attempt)
    requires Agrees(frame, chain, head) && store.tail < head < UINT64_MAX
    requires AllFixed(interrupted, frame) && IsFixed(rerun.frames, frame) && IsFixed(single.frames, frame)
    requires AllInterrupted(store, interrupted, head, cutoff)
    requires AttemptResult(RunAttempts(store, interrupted, head, cutoff), rerun, head, cutoff).end == Completed
    requires AttemptResult(store, single, head, cutoff).end == Completed
    ensures
      var mid := RunAttempts(store, interrupted, head, cutoff);
      AttemptResult(mid, rerun, head, cutoff).store == AttemptResult(store, single, head, cutoff).store
      <==> mid.tail != head || !IsPrunable(frame, head, cutoff)
  {
    hide KeysIn, RunAttempts, IsOnTheWay, IsPrunable;
    var mid := RunAttempts(store, interrupted, head, cutoff);
    var stop := ScanStop(frame, store.tail, head, cutoff);
    var whole := AttemptResult(store, single, head, cutoff).store;
    InterruptedStayOnTheWay(chain, frame, store, interrupted, head, cutoff);
    CycleIsOnTheWay(chain, single, frame, store, head, cutoff);
    WayEnds(chain, store, whole, stop);
    TailIsOnTheWay(chain, store, mid, stop);
    if mid.tail < head {
      var again := AttemptResult(mid, rerun, head, cutoff).store;
      CycleIsOnTheWay(chain, rerun, frame, mid, head, cutoff);
      ScanFromMiddle(frame, store.tail, mid.tail, head, cutoff);
      WayContinues(chain, store, mid, again, stop);
      WayEnds(chain, store, again, stop);
    } else if mid.tail == stop {
      WayEnds(chain, store, mid, stop);
    }
  }

  lemma TailIsOnTheWay(chain: seq<Block>, before: HistoryStore, store: HistoryStore, stop: nat)
    requires IsOnTheWay(chain, before, store, stop)
    ensures before.tail <= store.tail <= stop
  {
  }

  /** Blocks 0 and 1 are old, block 1 is the head: cancelled after block 0, the next cycle leaves block 1 alone. */
  lemma RestartAtTheHead(header: Header, store: HistoryStore)
    requires header.timestamp == 0 && store.tail == 0
    ensures
      var frame := Frame(map[0 := Hash32(0), 1 := Hash32(1)], map[Hash32(0) := header, Hash32(1) := header]);
      var mid := CycleResult([frame], store, 1, 1, 1, 9);
      && mid.end == Cancelled && mid.store.tail == 1
      && CycleResult([frame], mid.store, 1, 1, 1, 9).store == mid.store
      && CycleResult([frame], store, 1, 1, 3, 9).store.tail == 2
  {
    hide ElementsOf;
    assert |DeletesOf(header)| <= 4;
    hide DeletesOf;
  }

  // ---------------------------------------------------------------------------------------------
  // Whole runs
  // ---------------------------------------------------------------------------------------------

  /**
   * The data gone is exactly that from `first` to this extent, all of blocks older than the cutoff, and at
   * most one batch of blocks is touched beyond the saved tail.
   */
  ghost predicate IsPrunedTo(
      chain: seq<Block>, initial: set<Key>, first: nat, store: HistoryStore, extent: Extent, cutoff: uint64,
      batchSize: uint64)
  {
    && IsGoneUpTo(chain, initial, store.data, first, extent)
    && AllOlder(chain, first, Untouched(extent), cutoff)
    && store.tail <= extent.reach
    && Untouched(extent) <= store.tail + Max(1, batchSize)
  }

  /** Two deletes of overlapping ranges delete their union. */
  lemma ExtentsJoin(
      chain: seq<Block>, initial: set<Key>, data: set<Key>, after: set<Key>, first: nat, mid: nat, a: Extent, b: Extent)
    requires first <= mid <= a.reach && mid <= b.reach
    requires IsGoneUpTo(chain, initial, data, first, a) && IsGoneUpTo(chain, data, after, mid, b)
    ensures IsGoneUpTo(chain, initial, after, first, Further(a, b))
  {
    hide KeysIn;
    KeysSplit(chain, first, mid, a.reach);
    KeysSplit(chain, first, mid, b.reach);
    if a.reach < b.reach {
      KeysSplit(chain, mid, a.reach, b.reach);
      KeysSplit(chain, a.reach, a.reach + 1, b.reach);
    } else if b.reach < a.reach {
      KeysSplit(chain, mid, b.reach, a.reach);
      KeysSplit(chain, b.reach, b.reach + 1, a.reach);
    }
  }

  /** A cycle from a store that has lost a range of blocks leaves a store that has lost a longer range. */
  lemma CycleKeepsRange(
      chain: seq<Block>, frames: Frames, store: HistoryStore, head: uint64, cutoff: uint64, batchSize: uint64,
      writes: nat, initial: set<Key>, first: nat, extent: Extent, latest: uint64)
    requires AllAgree(frames, chain, head) && head < UINT64_MAX && first <= store.tail && cutoff <= latest
    requires IsPrunedTo(chain, initial, first, store, extent, latest, batchSize)
    ensures var scanned := CycleResult(frames, store, head, cutoff, batchSize, writes);
            && IsPrunedTo(chain, initial, first, scanned.store, Further(extent, ExtentOf(scanned)), latest, batchSize)
            && store.tail <= scanned.store.tail
  {
    hide KeysIn;
    var scanned := CycleResult(frames, store, head, cutoff, batchSize, writes);
    if store.tail < head {
      hide Scan, IsGoneUpTo;
      ScanDeletesWhatItPasses(chain, frames, 0, store, store.tail, head, cutoff, batchSize, writes);
      ScanStaysWithinOneBatch(frames, 0, store, store.tail, head, cutoff, batchSize, writes);
      ExtentsJoin(chain, initial, store.data, scanned.store.data, first, store.tail, extent, ExtentOf(scanned));
    }
  }

  datatype HistoryCycle = HistoryCycle(frames: Frames, head: uint64, now: uint64, writes: nat)

  /** The durable state after a number of cycles; a cycle may be cut short by a cancellation or a crash. */
  function RunCycles(store: HistoryStore, cycles: seq<HistoryCycle>, batchSize: uint64): HistoryStore
    requires forall i :: 0 <= i < |cycles| ==> cycles[i].head < UINT64_MAX
    decreases |cycles|
  {
    if cycles == [] then store else
    var last := cycles[|cycles| - 1];
    CycleResult(last.frames, RunCycles(store, cycles[..|cycles| - 1], batchSize),
                last.head, CutoffAt(last.now), batchSize, last.writes).store
  }

  /** The wall clock is past the retention period, but may step back; frames agree with the chain up to their head. */
  ghost predicate IsRun(chain: seq<Block>, cycles: seq<HistoryCycle>) {
    forall i :: 0 <= i < |cycles| ==>
      && cycles[i].head < UINT64_MAX
      && RETENTION_PERIOD <= cycles[i].now
      && AllAgree(cycles[i].frames, chain, cycles[i].head)
  }

  /** The latest reading of the wall clock so far. */
  function LatestClock(cycles: seq<HistoryCycle>): uint64
    decreases |cycles|
  {
    if cycles == [] then RETENTION_PERIOD
    else Max(LatestClock(cycles[..|cycles| - 1]), cycles[|cycles| - 1].now)
  }

  /** How far the deletes have got over a run, from the first tail on. */
  function RunExtent(store: HistoryStore, cycles: seq<HistoryCycle>, batchSize: uint64): Extent
    requires forall i :: 0 <= i < |cycles| ==> cycles[i].head < UINT64_MAX
    decreases |cycles|
  {
    if cycles == [] then Extent(store.tail, {}) else
    var last, earlier := cycles[|cycles| - 1], cycles[..|cycles| - 1];
    Further(RunExtent(store, earlier, batchSize),
            ExtentOf(CycleResult(last.frames, RunCycles(store, earlier, batchSize),
                                 last.head, CutoffAt(last.now), batchSize, last.writes)))
  }

  /**
   * Over every run of complete, cancelled and crashed cycles, the data gone is exactly that of one range of
   * blocks starting at the first tail, and a part of the block after it; all of them were past the retention
   * period when the clock read latest, and at most one batch of them lies beyond the saved tail, which never
   * decreases.
   */
  lemma {:induction false} RunPrunesOneRange(
      chain: seq<Block>, store: HistoryStore, cycles: seq<HistoryCycle>, batchSize: uint64)
    requires IsRun(chain, cycles)
    ensures var after := RunCycles(store, cycles, batchSize);
            var extent := RunExtent(store, cycles, batchSize);
            && IsPrunedTo(chain, store.data, store.tail, after, extent, CutoffAt(LatestClock(cycles)), batchSize)
            && RETENTION_PERIOD <= LatestClock(cycles)
            && (cycles != [] ==> RunCycles(store, cycles[..|cycles| - 1], batchSize).tail <= after.tail)
            && store.tail <= after.tail
            && forall n: nat :: store.tail <= n < Untouched(extent) && n < |chain| ==>
                 IsPastRetention(chain[n].header.timestamp, LatestClock(cycles))
    decreases |cycles|
  {
    hide KeysIn, IsGoneUpTo, CycleResult;
    if cycles == [] {
      GoneAtOnce(chain, store.data, store.tail);
    } else {
      var last := cycles[|cycles| - 1];
      var earlier := cycles[..|cycles| - 1];
      RunPrunesOneRange(chain, store, earlier, batchSize);
      LaterCutoff(chain, store, RunCycles(store, earlier, batchSize), RunExtent(store, earlier, batchSize),
                  CutoffAt(LatestClock(earlier)), CutoffAt(LatestClock(cycles)), batchSize);
      CycleKeepsRange(chain, last.frames, RunCycles(store, earlier, batchSize), last.head, CutoffAt(last.now),
          batchSize,
                      last.writes, store.data, store.tail, RunExtent(store, earlier, batchSize),
                      CutoffAt(LatestClock(cycles)));
    }
  }

  lemma LaterCutoff(
      chain: seq<Block>, first: HistoryStore, store: HistoryStore, extent: Extent, cutoff: uint64, later: uint64,
      batchSize: uint64)
    requires IsPrunedTo(chain, first.data, first.tail, store, extent, cutoff, batchSize) && cutoff <= later
    ensures IsPrunedTo(chain, first.data, first.tail, store, extent, later, batchSize)
  {
  }

  /**
   * Whatever came before, an uninterrupted cycle ends with nothing past the retention period left: exactly the
   * blocks from the stored tail on are deleted up to the first one that is unreadable, still within the period,
   * or above the head, and that one is the new tail.
   */
  lemma UninterruptedCyclePrunesAll(
      chain: seq<Block>, store: HistoryStore, cycles: seq<HistoryCycle>, last: HistoryCycle, batchSize: uint64)
    requires IsRun(chain, cycles) && IsRun(chain, [last]) && IsFixed(last.frames, last.frames[0])
    requires var from := RunCycles(store, cycles, batchSize).tail;
             && from < last.head && last.head + 1 - from < |last.frames| && 5 * (last.head + 1 - from) < last.writes
    ensures var before, after, frame :=
              RunCycles(store, cycles, batchSize), RunCycles(store, cycles + [last], batchSize), last.frames[0];
            && before.tail <= after.tail <= last.head + 1
            && after.data == before.data - KeysIn(chain, before.tail, after.tail)
            && (forall n: uint64 :: before.tail <= n < after.tail ==>
                  && GetBlockHeader(frame, n).Some?
                  && IsPastRetention(GetBlockHeader(frame, n).value.timestamp, last.now))
            && (after.tail <= last.head ==>
                  || GetBlockHeader(frame, after.tail).None?
                  || !IsPastRetention(GetBlockHeader(frame, after.tail).value.timestamp, last.now))
  {
    hide KeysIn, Scan;
    var before, cutoff := RunCycles(store, cycles, batchSize), CutoffAt(last.now);
    assert (cycles + [last])[..|cycles|] == cycles;
    assert [last][0] == last;
    ScanCompletes(last.frames, 0, before, before.tail, last.head, cutoff, batchSize, last.writes);
    CycleOnFixedFrame(chain, last.frames, before, last.head, cutoff, batchSize, last.writes);
    LinearScanStops(last.frames[0], before.tail, last.head, cutoff);
    CutoffIsRetention(last.now);
  }

  // ---------------------------------------------------------------------------------------------
  // Shared content roots
  // ---------------------------------------------------------------------------------------------

  /** The blocks have a root in common under which data is stored; the empty roots store none. */
  predicate ShareData(a: Header, b: Header) {
    || (a.transactionsRoot != EMPTY_ROOT_HASH && a.transactionsRoot in {b.transactionsRoot, b.receiptsRoot})
    || (a.receiptsRoot != EMPTY_ROOT_HASH && a.receiptsRoot in {b.transactionsRoot, b.receiptsRoot})
    || (a.ommersHash != EMPTY_UNCLE_HASH && a.ommersHash == b.ommersHash)
    || (a.withdrawalsRoot.Some? && a.withdrawalsRoot.value != EMPTY_ROOT_HASH && a.withdrawalsRoot == b.withdrawalsRoot)
  }

  lemma KeysOfHeader(header: Header)
    ensures KeysOf(header) ==
              (if header.transactionsRoot == EMPTY_ROOT_HASH then {} else {Indexed(header.transactionsRoot)})
              + (if header.ommersHash == EMPTY_UNCLE_HASH then {} else {Uncles(header.ommersHash)})
              + (if LacksWithdrawals(header) then {} else {WithdrawalsKey(header)})
              + (if header.receiptsRoot == EMPTY_ROOT_HASH then {} else {Indexed(header.receiptsRoot)})
  {
  }

  lemma SharedKeys(a: Header, b: Header)
    ensures ShareData(a, b) <==> exists key :: key in KeysOf(a) && key in KeysOf(b)
  {
    hide KeysOf;
    KeysOfHeader(a);
    KeysOfHeader(b);
    if ShareData(a, b) {
      if a.transactionsRoot != EMPTY_ROOT_HASH && a.transactionsRoot in {b.transactionsRoot, b.receiptsRoot} {
        assert Indexed(a.transactionsRoot) in KeysOf(a) && Indexed(a.transactionsRoot) in KeysOf(b);
      } else if a.receiptsRoot != EMPTY_ROOT_HASH && a.receiptsRoot in {b.transactionsRoot, b.receiptsRoot} {
        assert Indexed(a.receiptsRoot) in KeysOf(a) && Indexed(a.receiptsRoot) in KeysOf(b);
      } else if a.ommersHash != EMPTY_UNCLE_HASH && a.ommersHash == b.ommersHash {
        assert Uncles(a.ommersHash) in KeysOf(a) && Uncles(a.ommersHash) in KeysOf(b);
      } else {
        assert WithdrawalsKey(a) in KeysOf(a) && WithdrawalsKey(a) in KeysOf(b);
      }
    }
  }

  /**
   * Data is deleted by root. After a run, a block above everything touched still has all its data exactly when
   * none of the blocks deleted stores data under one of its roots, nor was such data deleted of the last one.
   */
  lemma RetainedDataSurvives(
      chain: seq<Block>, store: HistoryStore, cycles: seq<HistoryCycle>, batchSize: uint64, kept: nat)
    requires IsRun(chain, cycles)
    requires Untouched(RunExtent(store, cycles, batchSize)) <= kept < |chain|
    requires KeysOf(chain[kept].header) <= store.data
    ensures var extent := RunExtent(store, cycles, batchSize);
            KeysOf(chain[kept].header) <= RunCycles(store, cycles, batchSize).data
            <==> && (forall n: nat :: store.tail <= n < extent.reach ==>
                       !ShareData(chain[n].header, chain[kept].header))
                 && KeysOf(chain[kept].header) !! extent.torn
  {
    hide KeysOf, ShareData, RunCycles, RunExtent;
    RunPrunesOneRange(chain, store, cycles, batchSize);
    var extent := RunExtent(store, cycles, batchSize);
    var mine := KeysOf(chain[kept].header);
    forall n: nat | store.tail <= n < extent.reach
      ensures ShareData(chain[n].header, chain[kept].header) <==>
                exists key :: key in KeysOf(chain[n].header) && key in mine
    {
      SharedKeys(chain[n].header, chain[kept].header);
    }
    if n: nat :| store.tail <= n < extent.reach && ShareData(chain[n].header, chain[kept].header) {
      var key :| key in KeysOf(chain[n].header) && key in mine;
      assert key in KeysIn(chain, store.tail, extent.reach);
    }
  }
}
