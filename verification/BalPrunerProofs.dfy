/** What the block access list pruner guarantees over passes, interruptions and whole runs. */
module BalPrunerProofs {
  import opened Words
  import opened CoreDb
  import opened BalSearch
  import opened BalPruner

  /** The hashes of the canonical blocks in `[from, end)`. */
  ghost function CanonicalHashes(chain: seq<Block>, from: nat, end: nat): set<Hash32> {
    set n: nat | from <= n < end && n < |chain| :: chain[n].hash
  }

  /** How far lists may be missing above the tail: one batch, if the process may have died within one. */
  function Slack(env: Env, batchSize: uint64): nat {
    if env.death.Some? then batchSize else 0
  }

  // ---------------------------------------------------------------------------------------------
  // Progress of the batches
  // ---------------------------------------------------------------------------------------------

  /**
   * Batches move the tail over a readable block exactly when their size is positive and the end of the
   * first one does not wrap around.
   */
  lemma SweepAdvances(env: Env, store: BalStore, cutoff: uint64, batchSize: uint64)
    requires store.tail < cutoff && store.tail in env.frames[0].hashes
    requires env.death.None? || 1 < |env.frames|
    ensures store.tail < Sweep(env, 0, store, cutoff, batchSize).0.tail
            <==> 0 < batchSize && store.tail + batchSize < TWO_TO_THE_64
  {
    if batchSize == 0 || TWO_TO_THE_64 <= store.tail + batchSize {
      WrappedBatchNeverMoves(env, 0, store, cutoff, batchSize);
    }
  }

  /**
   * A batch that is empty or wraps is repeated after every sleep: the pass changes nothing and never ends by
   * itself.
   */
  lemma {:induction false} WrappedBatchNeverMoves(
      env: Env, awaits: nat, store: BalStore, cutoff: uint64, batchSize: uint64)
    requires awaits < |env.frames| && store.tail < cutoff
    requires batchSize == 0 || TWO_TO_THE_64 <= store.tail + batchSize
    ensures Sweep(env, awaits, store, cutoff, batchSize) == (store, if env.death.Some? then InBatch else InSleep)
    decreases |env.frames| - awaits
  {
    var frame := env.frames[awaits];
    assert HashesIn(frame, store.tail, store.tail) == {};
    assert DeleteUpTo(frame, store, store.tail) == store;
    assert env.death.Some? ==> TearUpTo(frame, store, store.tail, env.death.value) == store;
    if awaits + 1 < |env.frames| {
      WrappedBatchNeverMoves(env, awaits + 1, store, cutoff, batchSize);
    }
  }

  /** Cancelled in a sleep, a pass has deleted exactly one whole batch before each of its sleeps. */
  lemma {:induction false} CancelledAfterWholeBatches(
      env: Env, awaits: nat, store: BalStore, cutoff: uint64, batchSize: uint64)
    requires awaits < |env.frames| && cutoff + batchSize <= TWO_TO_THE_64
    requires Sweep(env, awaits, store, cutoff, batchSize).1 == InSleep
    ensures Sweep(env, awaits, store, cutoff, batchSize).0.tail == store.tail + (|env.frames| - awaits) * batchSize
    decreases |env.frames| - awaits
  {
    hide Sweep;
    SweepEndsAtOnce(env, awaits, store, cutoff, batchSize);
    SweepBatch(env, awaits, store, cutoff, batchSize);
    var stop := FirstHole(env.frames[awaits], store.tail, BatchEnd(store.tail, cutoff, batchSize));
    assert stop == store.tail + batchSize;
    if awaits + 1 < |env.frames| {
      CancelledAfterWholeBatches(env, awaits + 1, DeleteUpTo(env.frames[awaits], store, stop), cutoff, batchSize);
      var n := |env.frames| - awaits;
      assert batchSize + (n - 1) * batchSize == n * batchSize;
    }
  }

  lemma SweepEndsAtOnce(env: Env, awaits: nat, store: BalStore, cutoff: uint64, batchSize: uint64)
    requires awaits < |env.frames|
    ensures cutoff <= store.tail ==> Sweep(env, awaits, store, cutoff, batchSize).1 == AtEnd
  {
  }

  // ---------------------------------------------------------------------------------------------
  // Retention safety
  // ---------------------------------------------------------------------------------------------

  /** All lists from the old tail up to the new one are gone, and none from `reach` on. */
  ghost predicate DeletesWhatItPasses(chain: seq<Block>, before: BalStore, after: BalStore, reach: nat) {
    && after.lists <= before.lists - CanonicalHashes(chain, before.tail, after.tail)
    && before.lists - CanonicalHashes(chain, before.tail, reach) <= after.lists
  }

  /**
   * Whatever the frames, the batches delete exactly the lists of the blocks the tail moves over; a death
   * within a batch may also have deleted lists of that batch, above the tail.
   */
  lemma {:induction false} SweepDeletesWhatItPasses(
      chain: seq<Block>, env: Env, awaits: nat, store: BalStore, cutoff: uint64, batchSize: uint64, head: uint64)
    requires awaits < |env.frames| && AllAgree(env.frames, chain, head)
    requires store.tail <= cutoff <= head + 1
    ensures var (after, end) := Sweep(env, awaits, store, cutoff, batchSize);
            var reach := if end == InBatch then Min(cutoff, after.tail + batchSize) else after.tail;
            DeletesWhatItPasses(chain, store, after, reach)
    decreases |env.frames| - awaits
  {
    hide CanonicalHashes, HashesIn, DeletesWhatItPasses, BatchEnd, FirstHole;
    NothingPassed(chain, store);
    if store.tail < cutoff {
      hide Sweep;
      SweepBatch(env, awaits, store, cutoff, batchSize);
      var frame := env.frames[awaits];
      var batchEnd := BatchEnd(store.tail, cutoff, batchSize);
      var stop := FirstHole(frame, store.tail, batchEnd);
      var after := DeleteUpTo(frame, store, stop);
      BatchPasses(chain, frame, store, stop, head);
      if awaits + 1 == |env.frames| && env.death.Some? {
        BatchTears(chain, frame, store, stop, env.death.value, Min(cutoff, store.tail + batchSize), head);
      } else if awaits + 1 < |env.frames| && stop >= batchEnd && stop != cutoff {
        SweepDeletesWhatItPasses(chain, env, awaits + 1, after, cutoff, batchSize, head);
        var (last, end) := Sweep(env, awaits + 1, after, cutoff, batchSize);
        PassesJoin(chain, store, after, last,
                   if end == InBatch then Min(cutoff, last.tail + batchSize) else last.tail);
      }
    }
  }

  lemma NothingPassed(chain: seq<Block>, store: BalStore)
    ensures DeletesWhatItPasses(chain, store, store, store.tail)
  {
  }

  lemma BatchPasses(chain: seq<Block>, frame: Frame, store: BalStore, stop: uint64, head: uint64)
    requires Agrees(frame, chain, head) && store.tail <= stop <= head + 1
    requires forall n: uint64 :: store.tail <= n < stop ==> n in frame.hashes
    ensures DeletesWhatItPasses(chain, store, DeleteUpTo(frame, store, stop), stop)
  {
    BatchIsCanonical(chain, frame, store.tail, stop, head);
  }

  lemma BatchTears(
      chain: seq<Block>, frame: Frame, store: BalStore, stop: uint64, gone: set<Hash32>, reach: nat, head: uint64)
    requires Agrees(frame, chain, head) && store.tail <= stop <= head + 1 && stop <= reach
    requires forall n: uint64 :: store.tail <= n < stop ==> n in frame.hashes
    ensures DeletesWhatItPasses(chain, store, TearUpTo(frame, store, stop, gone), reach)
  {
    BatchIsCanonical(chain, frame, store.tail, stop, head);
    CanonicalHashesSplit(chain, store.tail, stop, reach);
  }

  lemma PassesJoin(chain: seq<Block>, before: BalStore, mid: BalStore, after: BalStore, reach: nat)
    requires before.tail <= mid.tail <= after.tail <= reach
    requires DeletesWhatItPasses(chain, before, mid, mid.tail) && DeletesWhatItPasses(chain, mid, after, reach)
    ensures DeletesWhatItPasses(chain, before, after, reach)
  {
    hide CanonicalHashes;
    CanonicalHashesSplit(chain, before.tail, mid.tail, after.tail);
    CanonicalHashesSplit(chain, before.tail, mid.tail, reach);
  }

  lemma BatchIsCanonical(chain: seq<Block>, frame: Frame, from: uint64, stop: uint64, head: uint64)
    requires Agrees(frame, chain, head) && from <= stop <= head + 1
    requires forall n: uint64 :: from <= n < stop ==> n in frame.hashes
    ensures HashesIn(frame, from, stop) == CanonicalHashes(chain, from, stop)
  {
  }

  lemma CanonicalHashesSplit(chain: seq<Block>, a: nat, b: nat, c: nat)
    requires a <= b <= c
    ensures CanonicalHashes(chain, a, c) == CanonicalHashes(chain, a, b) + CanonicalHashes(chain, b, c)
  {
  }

  /** The block a located pass starts from, after a zero tail has been replaced. */
  ghost function StartOf(store: BalStore, frame: Frame, head: uint64): uint64
    requires head < UINT64_MAX
  {
    if store.tail == 0 && FirstBal(frame, head).Some? then FirstBal(frame, head).value else store.tail
  }

  /** `h` is the hash of an expired canonical block in `[from, end)`. */
  ghost predicate IsExpiredHash(chain: seq<Block>, from: nat, end: nat, headSlot: uint64, h: Hash32) {
    exists n: nat :: from <= n < end && n < |chain| && chain[n].hash == h
                     && !IsWithinBalRetentionPeriod(chain[n].header, headSlot)
  }

  /**
   * Everything deleted lies below the new tail or less than `slack` above it, was not below the old one, and
   * had expired.
   */
  ghost predicate DeletesOnlyExpired(
      chain: seq<Block>, before: BalStore, after: BalStore, slack: nat, headSlot: uint64) {
    && after.lists <= before.lists
    && forall h :: h in before.lists && h !in after.lists ==>
         IsExpiredHash(chain, before.tail, after.tail + slack, headSlot, h)
  }

  /** A pass from a located tail skips an unreadable block, stays, or sweeps up to a cutoff above the tail. */
  lemma PruneFromCases(env: Env, store: BalStore, head: uint64, headSlot: uint64, batchSize: uint64)
    requires head < UINT64_MAX
    ensures
      var (after, outcome) := PruneFrom(env, store, head, headSlot, batchSize);
      var cutoff := ProbeCutoff(env.frames[0], store.tail, head, headSlot);
      if GetBlockHeader(env.frames[0], store.tail).None? then
        after == store.(tail := WrapAdd(store.tail, 1)) && outcome == Finished(0)
      else if IsRetained(env.frames[0], store.tail, headSlot) || head < store.tail then
        after == store && outcome == Finished(0)
      else
        && store.tail < cutoff <= head + 1
        && IsExpired(env.frames[0], cutoff - 1, headSlot)
        && (after, outcome) == SweepOutcome(env, store, cutoff, batchSize)
  {
    if store.tail <= head {
      CutoffIsLocalBoundary(env.frames[0], store.tail, head, headSlot);
    }
  }

  lemma SweepDeletesOnlyExpired(
      chain: seq<Block>, env: Env, store: BalStore, cutoff: uint64, head: uint64, headSlot: uint64, batchSize: uint64)
    requires IsChain(chain) && AllAgree(env.frames, chain, head)
    requires store.tail < cutoff <= head + 1
    requires IsExpired(env.frames[0], cutoff - 1, headSlot)
    ensures var after := Sweep(env, 0, store, cutoff, batchSize).0;
            DeletesOnlyExpired(chain, store, after, Slack(env, batchSize), headSlot)
  {
    hide Sweep, IsWithinBalRetentionPeriod;
    var (after, end) := Sweep(env, 0, store, cutoff, batchSize);
    SweepDeletesWhatItPasses(chain, env, 0, store, cutoff, batchSize, head);
    var reach := if end == InBatch then Min(cutoff, after.tail + batchSize) else after.tail;
    assert !IsWithinBalRetentionPeriod(chain[cutoff - 1].header, headSlot);
    forall h | h in store.lists && h !in after.lists
      ensures IsExpiredHash(chain, store.tail, after.tail + Slack(env, batchSize), headSlot, h)
    {
      assert h in CanonicalHashes(chain, store.tail, reach);
      var n: nat :| store.tail <= n < reach && n < |chain| && chain[n].hash == h;
      NoLaterExpiry(chain, n, cutoff - 1, headSlot);
    }
  }

  /** A block below an expired block has expired, readable or not. */
  lemma NoLaterExpiry(chain: seq<Block>, n: nat, expired: nat, headSlot: uint64)
    requires IsChain(chain) && n <= expired < |chain|
    requires !IsWithinBalRetentionPeriod(chain[expired].header, headSlot)
    ensures !IsWithinBalRetentionPeriod(chain[n].header, headSlot)
  {
  }

  lemma PruneFromDeletesOnlyExpired(
      chain: seq<Block>, env: Env, store: BalStore, head: uint64, headSlot: uint64, batchSize: uint64)
    requires IsChain(chain) && AllAgree(env.frames, chain, head) && head < UINT64_MAX
    ensures var after := PruneFrom(env, store, head, headSlot, batchSize).0;
            DeletesOnlyExpired(chain, store, after, Slack(env, batchSize), headSlot)
  {
    PruneFromCases(env, store, head, headSlot, batchSize);
    if store.tail <= head && IsExpired(env.frames[0], store.tail, headSlot) {
      var cutoff := ProbeCutoff(env.frames[0], store.tail, head, headSlot);
      SweepDeletesOnlyExpired(chain, env, store, cutoff, head, headSlot, batchSize);
    }
  }

  /**
   * Retention safety: no pass deletes the list of a block within the retention period, whatever headers
   * are unreadable, whatever the frames do during the sleeps, whatever the batch size, and wherever the pass
   * is cancelled or dies.
   */
  lemma RetentionSafety(chain: seq<Block>, env: Env, store: BalStore, head: uint64, headSlot: uint64, batchSize: uint64)
    requires IsChain(chain) && AllAgree(env.frames, chain, head) && head < UINT64_MAX
    ensures var after := PruneResult(env, store, head, headSlot, batchSize).0;
            && DeletesOnlyExpired(chain, store, after, Slack(env, batchSize), headSlot)
            && forall n: nat :: n < |chain| && chain[n].hash in store.lists
                                && (after.tail + Slack(env, batchSize) <= n
                                    || IsWithinBalRetentionPeriod(chain[n].header, headSlot))
                                ==> chain[n].hash in after.lists
  {
    hide PruneFrom, IsWithinBalRetentionPeriod;
    var start := StartOf(store, env.frames[0], head);
    PruneFromDeletesOnlyExpired(chain, env, store.(tail := start), head, headSlot, batchSize);
  }

  // ---------------------------------------------------------------------------------------------
  // Convergence
  // ---------------------------------------------------------------------------------------------

  /** `block` is the first readable block that must be retained. */
  ghost predicate IsFirstRetained(frame: Frame, head: uint64, headSlot: uint64, block: uint64) {
    && block <= head
    && IsRetained(frame, block, headSlot)
    && forall n: uint64 :: n < block ==> !IsRetained(frame, n, headSlot)
  }

  /** A pass leaves the tail alone before it locates the block to start from, or already starts from the tail. */
  ghost predicate IsLocated(frame: Frame, store: BalStore, head: uint64)
    requires head < UINT64_MAX
  {
    store.tail != 0 || FirstBal(frame, head) == Some(0)
  }

  /** A batch size whose batches never wrap below the head. */
  predicate FitsBelow(head: uint64, batchSize: uint64) {
    0 < batchSize && head + batchSize < TWO_TO_THE_64
  }

  /** Every pass that does not die moves the tail up, and none moves it past the first retained block. */
  lemma PassAdvances(
      chain: seq<Block>, env: Env, store: BalStore, head: uint64, headSlot: uint64, retained: uint64, batchSize: uint64)
    requires IsChain(chain) && Agrees(env.frames[0], chain, head) && FitsBelow(head, batchSize)
    requires IsFirstRetained(env.frames[0], head, headSlot, retained) && store.tail <= retained
    ensures var after := PruneFrom(env, store, head, headSlot, batchSize).0;
            && store.tail <= after.tail <= retained
            && (store.tail == retained ==> after == store)
            && (store.tail < retained && env.death.None? ==> store.tail < after.tail)
  {
    PruneFromCases(env, store, head, headSlot, batchSize);
    if store.tail < retained && IsExpired(env.frames[0], store.tail, headSlot) {
      var cutoff := ProbeCutoff(env.frames[0], store.tail, head, headSlot);
      if env.death.None? {
        SweepAdvances(env, store, cutoff, batchSize);
      }
      CutoffStopsAtRetained(chain, env.frames[0], store.tail, head, headSlot, retained);
    }
  }

  /** A pass in its environment; the batch size may differ from pass to pass. */
  datatype Pass = Pass(env: Env, batchSize: uint64)

  /** Repeated passes at one head; each has its own environment, and may be cancelled or die. */
  function RunPasses(store: BalStore, passes: seq<Pass>, head: uint64, headSlot: uint64): BalStore
    requires head < UINT64_MAX
    decreases |passes|
  {
    if passes == [] then store else
    var next := PruneResult(passes[0].env, store, head, headSlot, passes[0].batchSize).0;
    RunPasses(next, passes[1..], head, headSlot)
  }

  /** The passes start from one view of the database, and their batches do not wrap. */
  ghost predicate StartFrom(passes: seq<Pass>, frame: Frame, head: uint64) {
    forall i :: 0 <= i < |passes| ==> passes[i].env.frames[0] == frame && FitsBelow(head, passes[i].batchSize)
  }

  /** The number of passes in which the process does not die. */
  function Survived(passes: seq<Pass>): nat
    decreases |passes|
  {
    if passes == [] then 0 else Survived(passes[1..]) + if passes[0].env.death.None? then 1 else 0
  }

  /**
   * Convergence with holes: from a located tail at or below the first retained block, every pass that does
   * not die moves the tail by at least one block until it is exactly there, whatever headers are unreadable.
   */
  lemma {:induction false} Convergence(
      chain: seq<Block>, frame: Frame, store: BalStore, passes: seq<Pass>, head: uint64, headSlot: uint64,
      retained: uint64)
    requires IsChain(chain) && Agrees(frame, chain, head) && head < UINT64_MAX && StartFrom(passes, frame, head)
    requires IsFirstRetained(frame, head, headSlot, retained) && IsLocated(frame, store, head) && store.tail <= retained
    ensures var after := RunPasses(store, passes, head, headSlot);
            && store.tail <= after.tail <= retained
            && (after.tail < retained ==> store.tail + Survived(passes) <= after.tail)
    decreases |passes|
  {
    if passes != [] {
      var pass := passes[0];
      PassAdvances(chain, pass.env, store, head, headSlot, retained, pass.batchSize);
      var next := PruneResult(pass.env, store, head, headSlot, pass.batchSize).0;
      Convergence(chain, frame, next, passes[1..], head, headSlot, retained);
    }
  }

  /** From a located tail at a retained block, passes change nothing. */
  lemma {:induction false} LocatedAboveStays(
      frame: Frame, store: BalStore, passes: seq<Pass>, head: uint64, headSlot: uint64)
    requires head < UINT64_MAX && StartFrom(passes, frame, head)
    requires 0 < store.tail && IsRetained(frame, store.tail, headSlot)
    ensures RunPasses(store, passes, head, headSlot) == store
    decreases |passes|
  {
    if passes != [] {
      PruneFromCases(passes[0].env, store, head, headSlot, passes[0].batchSize);
      LocatedAboveStays(frame, store, passes[1..], head, headSlot);
    }
  }

  lemma {:induction false} NothingFound(
      frame: Frame, store: BalStore, passes: seq<Pass>, head: uint64, headSlot: uint64)
    requires head < UINT64_MAX && StartFrom(passes, frame, head)
    requires store.tail == 0 && FirstBal(frame, head).None?
    ensures RunPasses(store, passes, head, headSlot) == store
    decreases |passes|
  {
    if passes != [] {
      NothingFound(frame, store, passes[1..], head, headSlot);
    }
  }

  /**
   * From a zero tail the first-block search decides: passes reach the first retained block exactly when
   * the search does not answer with a block above it. Otherwise the lists below its answer are never visited.
   */
  lemma ConvergenceFromZero(
      chain: seq<Block>, frame: Frame, store: BalStore, passes: seq<Pass>, head: uint64, headSlot: uint64,
      retained: uint64)
    requires IsChain(chain) && Agrees(frame, chain, head) && head < UINT64_MAX && StartFrom(passes, frame, head)
    requires IsFirstRetained(frame, head, headSlot, retained) && store.tail == 0 && retained < Survived(passes)
    ensures RunPasses(store, passes, head, headSlot).tail == retained
            <==> match FirstBal(frame, head) case None => retained == 0 case Some(first) => first <= retained
  {
    FirstBalIsBoundary(frame, head);
    match FirstBal(frame, head)
    case None => NothingFound(frame, store, passes, head, headSlot);
    case Some(first) =>
      var located := store.(tail := first);
      assert RunPasses(store, passes, head, headSlot) == RunPasses(located, passes, head, headSlot);
      if first <= retained {
        Convergence(chain, frame, located, passes, head, headSlot, retained);
      } else {
        RetentionIsMonotone(chain[retained].header, chain[first].header, headSlot, headSlot);
        LocatedAboveStays(frame, located, passes, head, headSlot);
      }
  }

  /**
   * With readable lists only in an upper part of the chain, as after a snap sync, convergence from a zero
   * tail can be seen from the data: the first retained block must have its list, unless it is genesis and
   * there are no lists at all.
   */
  lemma ConvergenceWithUpperLists(
      chain: seq<Block>, frame: Frame, store: BalStore, passes: seq<Pass>, head: uint64, headSlot: uint64,
      retained: uint64)
    requires IsChain(chain) && Agrees(frame, chain, head) && head < UINT64_MAX && StartFrom(passes, frame, head)
    requires IsFirstRetained(frame, head, headSlot, retained) && store.tail == 0 && retained < Survived(passes)
    requires forall n: uint64 :: n < head && HasBal(frame, n) ==> HasBal(frame, n + 1)
    ensures RunPasses(store, passes, head, headSlot).tail == retained
            <==> HasBal(frame, retained) || (retained == 0 && forall n: uint64 :: n <= head ==> !HasBal(frame, n))
  {
    hide HasBal, FirstBal, IsFirstRetained, RunPasses, Survived;
    FirstBalIsLeast(frame, head);
    ConvergenceFromZero(chain, frame, store, passes, head, headSlot, retained);
    assert retained <= head by {
      RetainedIsBelowHead(frame, head, headSlot, retained);
    }
  }

  lemma RetainedIsBelowHead(frame: Frame, head: uint64, headSlot: uint64, retained: uint64)
    requires IsFirstRetained(frame, head, headSlot, retained)
    ensures retained <= head
  {
  }

  /** A header of an Amsterdam block. */
  function AmsterdamHeader(slot: uint64): Header {
    var none := Hash32(0);
    Header(slot, none, none, None, none, Some(slot), Some(none))
  }

  /** A frame with holes at 0 and 2: of the first six blocks, whose number is their slot, it reads 1, 3, 4 and 5. */
  function HoledFrame(): Frame {
    Frame(map[1 := Hash32(1), 3 := Hash32(3), 4 := Hash32(4), 5 := Hash32(5)],
          map[Hash32(1) := AmsterdamHeader(1), Hash32(3) := AmsterdamHeader(3),
              Hash32(4) := AmsterdamHeader(4), Hash32(5) := AmsterdamHeader(5)])
  }

  lemma HoledFrameReads(n: uint64)
    requires n <= 5
    ensures n in HoledFrame().hashes <==> n != 0 && n != 2
    ensures GetBlockHeader(HoledFrame(), n) == if n == 0 || n == 2 then None else Some(AmsterdamHeader(n))
  {
  }

  /** The first-block search below head 4 probes the hole at 2 and never looks at block 1. */
  lemma FirstBalSearchJumpsOverAHole()
    ensures IsFirstRetained(HoledFrame(), 4, 4, 1) && FirstBal(HoledFrame(), 4) == Some(3)
  {
    HoledFrameRetained();
    hide HoledFrame, ProbeFirstBal, IsFirstRetained;
    HoledFrameReads(2);
    HoledFrameReads(3);
    assert Middle(0, 4) == 2 && Middle(3, 4) == 3;
    hide Middle;
    FirstBalProbe(HoledFrame(), 0, 4, None);
    FirstBalProbe(HoledFrame(), 3, 4, None);
    FirstBalProbe(HoledFrame(), 3, 2, Some(3));
  }

  lemma HoledFrameRetained()
    ensures IsFirstRetained(HoledFrame(), 4, 4, 1)
  {
    hide HoledFrame;
    HoledFrameReads(0);
    HoledFrameReads(1);
  }

  // ---------------------------------------------------------------------------------------------
  // Independence of batch size, cancellation and crashes
  // ---------------------------------------------------------------------------------------------

  lemma FirstHoleIs(frame: Frame, from: uint64, end: uint64, hole: uint64)
    requires from <= hole <= end
    requires forall n: uint64 :: from <= n < hole ==> n in frame.hashes
    requires hole < end ==> hole !in frame.hashes
    ensures FirstHole(frame, from, end) == hole
  {
  }

  lemma HashesSplit(frame: Frame, from: uint64, mid: uint64, end: uint64)
    requires from <= mid <= end
    ensures HashesIn(frame, from, end) == HashesIn(frame, from, mid) + HashesIn(frame, mid, end)
    ensures HashesIn(frame, from, from) == {}
  {
  }

  lemma DeleteUpToSplit(frame: Frame, store: BalStore, mid: uint64, end: uint64)
    requires store.tail <= mid <= end
    ensures DeleteUpTo(frame, DeleteUpTo(frame, store, mid), end) == DeleteUpTo(frame, store, end)
  {
  }

  /** The store lies on the way from `before` to `stop`: all lists up to its tail are gone, and none from `stop` on. */
  ghost predicate IsOnTheWay(frame: Frame, before: BalStore, store: BalStore, stop: uint64) {
    && before.tail <= store.tail <= stop
    && before.lists - HashesIn(frame, before.tail, stop) <= store.lists
    && store.lists <= before.lists - HashesIn(frame, before.tail, store.tail)
  }

  lemma WayContinues(frame: Frame, before: BalStore, mid: BalStore, store: BalStore, stop: uint64)
    requires IsOnTheWay(frame, before, mid, stop) && IsOnTheWay(frame, mid, store, stop)
    ensures IsOnTheWay(frame, before, store, stop)
  {
    hide HashesIn;
    HashesSplit(frame, before.tail, mid.tail, store.tail);
    HashesSplit(frame, before.tail, mid.tail, stop);
  }

  /** From anywhere on the way, deleting the rest leaves what deleting everything at once does. */
  lemma WayEnds(frame: Frame, before: BalStore, store: BalStore, stop: uint64)
    requires IsOnTheWay(frame, before, store, stop)
    ensures DeleteUpTo(frame, store, stop) == DeleteUpTo(frame, before, stop)
  {
    hide HashesIn;
    HashesSplit(frame, before.tail, store.tail, stop);
  }

  /**
   * On one frame the batches add up: where they stop does not depend on their size, and interrupted they are
   * on the way there.
   */
  lemma {:induction false} SweepOnFixedFrame(
      env: Env, frame: Frame, awaits: nat, store: BalStore, cutoff: uint64, batchSize: uint64)
    requires IsFixed(env.frames, frame) && awaits < |env.frames| && store.tail < cutoff
    ensures var (after, end) := Sweep(env, awaits, store, cutoff, batchSize);
            var hole := FirstHole(frame, store.tail, cutoff);
            && IsOnTheWay(frame, store, after, hole)
            && (end == AtEnd ==> after == DeleteUpTo(frame, store, hole))
            && (end == InSleep ==> after == DeleteUpTo(frame, store, after.tail))
            && (end != AtEnd ==> after.tail < cutoff)
    decreases |env.frames| - awaits
  {
    hide HashesIn, Sweep, BatchEnd;
    SweepBatch(env, awaits, store, cutoff, batchSize);
    var batchEnd := BatchEnd(store.tail, cutoff, batchSize);
    var stop := FirstHole(frame, store.tail, batchEnd);
    var after := DeleteUpTo(frame, store, stop);
    var hole := FirstHole(frame, store.tail, cutoff);
    HoleOfBatch(frame, store.tail, batchEnd, cutoff);
    HashesSplit(frame, store.tail, store.tail, hole);
    HashesSplit(frame, store.tail, stop, hole);
    if awaits + 1 < |env.frames| && stop >= batchEnd && stop != cutoff {
      SweepOnFixedFrame(env, frame, awaits + 1, after, cutoff, batchSize);
      var end := Sweep(env, awaits + 1, after, cutoff, batchSize).0;
      WayContinues(frame, store, after, end, hole);
      DeleteUpToSplit(frame, store, stop, hole);
      DeleteUpToSplit(frame, store, stop, end.tail);
    }
  }

  /** A batch ends at or below the hole of the whole range, and right there when it is cut short. */
  lemma HoleOfBatch(frame: Frame, from: uint64, batchEnd: uint64, cutoff: uint64)
    requires from < cutoff && batchEnd <= cutoff
    ensures var stop := FirstHole(frame, from, batchEnd);
            var hole := FirstHole(frame, from, cutoff);
            && stop <= hole
            && (stop < batchEnd || stop == cutoff ==> stop == hole)
            && hole == FirstHole(frame, stop, cutoff)
  {
    var stop := FirstHole(frame, from, batchEnd);
    FirstHoleIs(frame, from, cutoff, FirstHole(frame, stop, cutoff));
  }

  /** The linear scan: the first block from `from` on that is unreadable, retained, or above the head. */
  function ScanStop(frame: Frame, from: uint64, head: uint64, headSlot: uint64): (stop: uint64)
    requires head < UINT64_MAX && from <= head + 1
    ensures from <= stop <= head + 1
    ensures forall n: uint64 :: from <= n < stop ==> IsExpired(frame, n, headSlot)
    ensures stop <= head ==> !IsExpired(frame, stop, headSlot)
    decreases head + 1 - from
  {
    if from <= head && IsExpired(frame, from, headSlot) then ScanStop(frame, from + 1, head, headSlot) else from
  }

  /** Where a pass from `tail` stops on a fixed frame. */
  ghost function PassStop(frame: Frame, tail: uint64, head: uint64, headSlot: uint64): uint64
    requires head < UINT64_MAX
  {
    FirstHole(frame, tail, ProbeCutoff(frame, tail, head, headSlot))
  }

  /**
   * The bisection never stops short of the linear scan, and agrees with it exactly when the scan stops at
   * the cutoff or at a block without a hash.
   */
  lemma PassStopVersusScan(frame: Frame, tail: uint64, head: uint64, headSlot: uint64)
    requires tail <= head < UINT64_MAX && IsExpired(frame, tail, headSlot)
    ensures var cutoff := ProbeCutoff(frame, tail, head, headSlot);
            var scan := ScanStop(frame, tail, head, headSlot);
            && tail < scan <= cutoff
            && scan <= PassStop(frame, tail, head, headSlot)
            && (PassStop(frame, tail, head, headSlot) == scan <==> scan == cutoff || scan !in frame.hashes)
  {
    CutoffIsLocalBoundary(frame, tail, head, headSlot);
    var cutoff := ProbeCutoff(frame, tail, head, headSlot);
    var scan := ScanStop(frame, tail, head, headSlot);
    var stop := PassStop(frame, tail, head, headSlot);
    assert scan <= cutoff || IsExpired(frame, cutoff, headSlot);
    assert scan <= stop || IsExpired(frame, stop, headSlot);
  }

  /** Every readable hash in the range leads to a readable header. */
  ghost predicate EveryHashHasHeader(frame: Frame, from: uint64, head: uint64, last: uint64) {
    forall n: uint64 :: from <= n <= last && n <= head && n in frame.hashes ==> frame.hashes[n] in frame.headers
  }

  /** Everything from `tail` to `stop` can be pruned, and `stop` is above the head, retained, or without a hash. */
  ghost predicate IsCleanStop(frame: Frame, tail: uint64, stop: uint64, head: uint64, headSlot: uint64) {
    && tail <= stop <= head + 1
    && (forall n: uint64 :: tail <= n < stop ==> IsExpired(frame, n, headSlot))
    && (stop <= head ==> IsRetained(frame, stop, headSlot) || stop !in frame.hashes)
  }

  /** No cutoff lies below a block that can be pruned together with all blocks before it. */
  lemma CutoffReaches(frame: Frame, tail: uint64, stop: uint64, head: uint64, headSlot: uint64)
    requires tail <= head < UINT64_MAX && tail <= stop <= head + 1
    requires forall n: uint64 :: tail <= n < stop ==> IsExpired(frame, n, headSlot)
    ensures stop <= ProbeCutoff(frame, tail, head, headSlot) <= head + 1
  {
    CutoffIsLocalBoundary(frame, tail, head, headSlot);
  }

  /** Up to where a pass stops everything can be pruned, if it has its header. */
  lemma PassStopIsReachable(chain: seq<Block>, frame: Frame, tail: uint64, head: uint64, headSlot: uint64)
    requires IsChain(chain) && Agrees(frame, chain, head)
    requires tail <= head < UINT64_MAX && IsExpired(frame, tail, headSlot)
             && tail < PassStop(frame, tail, head, headSlot)
    requires EveryHashHasHeader(frame, tail, head, PassStop(frame, tail, head, headSlot) - 1)
    ensures forall n: uint64 :: tail <= n < PassStop(frame, tail, head, headSlot) ==> IsExpired(frame, n, headSlot)
    ensures PassStop(frame, tail, head, headSlot) <= head + 1
  {
    var cutoff := ProbeCutoff(frame, tail, head, headSlot);
    CutoffIsLocalBoundary(frame, tail, head, headSlot);
    NothingRetainedBelow(chain, frame, head, headSlot, cutoff - 1);
  }

  /** Such a place stops a pass from anywhere below it. */
  lemma CleanStopIsPassStop(
      chain: seq<Block>, frame: Frame, tail: uint64, stop: uint64, head: uint64, headSlot: uint64)
    requires IsChain(chain) && Agrees(frame, chain, head) && head < UINT64_MAX
    requires tail < stop && IsCleanStop(frame, tail, stop, head, headSlot)
    ensures stop <= ProbeCutoff(frame, tail, head, headSlot) && PassStop(frame, tail, head, headSlot) == stop
  {
    var cutoff := ProbeCutoff(frame, tail, head, headSlot);
    CutoffReaches(frame, tail, stop, head, headSlot);
    forall n: uint64 | tail <= n < stop
      ensures n in frame.hashes
    {
      assert IsExpired(frame, n, headSlot);
    }
    if stop <= head && IsRetained(frame, stop, headSlot) {
      CutoffStopsAtRetained(chain, frame, tail, head, headSlot, stop);
    }
    FirstHoleIs(frame, tail, cutoff, stop);
  }

  /** A pass stops at such a place when every hash up to there has its header. */
  lemma PassStopIsClean(chain: seq<Block>, frame: Frame, tail: uint64, head: uint64, headSlot: uint64)
    requires IsChain(chain) && Agrees(frame, chain, head)
    requires tail <= head < UINT64_MAX && IsExpired(frame, tail, headSlot)
    requires EveryHashHasHeader(frame, tail, head, PassStop(frame, tail, head, headSlot))
    ensures IsCleanStop(frame, tail, PassStop(frame, tail, head, headSlot), head, headSlot)
    ensures tail < PassStop(frame, tail, head, headSlot)
  {
    hide IsChain, Agrees, ProbeCutoff, IsWithinBalRetentionPeriod;
    CutoffIsLocalBoundary(frame, tail, head, headSlot);
    assert tail in frame.hashes && tail < ProbeCutoff(frame, tail, head, headSlot);
    PassStopIsReachable(chain, frame, tail, head, headSlot);
  }

  /** A pass over a fixed frame stops there if it finishes, and is on the way there if it is interrupted. */
  lemma PassOnFixedFrame(pass: Pass, frame: Frame, store: BalStore, head: uint64, headSlot: uint64)
    requires IsFixed(pass.env.frames, frame)
    requires 0 < store.tail <= head < UINT64_MAX && IsExpired(frame, store.tail, headSlot)
    ensures var (after, outcome) := PruneResult(pass.env, store, head, headSlot, pass.batchSize);
            var stop := PassStop(frame, store.tail, head, headSlot);
            && IsOnTheWay(frame, store, after, stop)
            && (outcome.Finished? ==> after == DeleteUpTo(frame, store, stop) && outcome == Finished(stop - store.tail))
            && (outcome == Cancelled ==> after == DeleteUpTo(frame, store, after.tail))
            && (!outcome.Finished? ==> after.tail < ProbeCutoff(frame, store.tail, head, headSlot) <= head + 1)
  {
    hide Sweep;
    PruneFromCases(pass.env, store, head, headSlot, pass.batchSize);
    SweepOnFixedFrame(pass.env, frame, 0, store, ProbeCutoff(frame, store.tail, head, headSlot), pass.batchSize);
  }

  /** A finished pass over a fixed frame does what the linear scan would do, for every batch size. */
  lemma PassRefinesScan(chain: seq<Block>, pass: Pass, frame: Frame, store: BalStore, head: uint64, headSlot: uint64)
    requires IsChain(chain) && Agrees(frame, chain, head) && IsFixed(pass.env.frames, frame)
    requires 0 < store.tail <= head < UINT64_MAX && IsExpired(frame, store.tail, headSlot)
    requires EveryHashHasHeader(frame, store.tail, head, PassStop(frame, store.tail, head, headSlot))
    ensures var (after, outcome) := PruneResult(pass.env, store, head, headSlot, pass.batchSize);
            var stop := ScanStop(frame, store.tail, head, headSlot);
            outcome.Finished? ==>
              && after == DeleteUpTo(frame, store, stop)
              && outcome == Finished(stop - store.tail)
  {
    PassOnFixedFrame(pass, frame, store, head, headSlot);
    PassStopIsClean(chain, frame, store.tail, head, headSlot);
    var stop, scan := PassStop(frame, store.tail, head, headSlot), ScanStop(frame, store.tail, head, headSlot);
    assert scan < stop ==> IsExpired(frame, scan, headSlot);
    assert stop < scan ==> IsExpired(frame, stop, headSlot);
  }

  /** Every one of the passes is cancelled or dies. */
  predicate AllInterrupted(store: BalStore, passes: seq<Pass>, head: uint64, headSlot: uint64)
    requires head < UINT64_MAX
    decreases |passes|
  {
    passes == [] ||
    var (next, outcome) := PruneResult(passes[0].env, store, head, headSlot, passes[0].batchSize);
    !outcome.Finished? && AllInterrupted(next, passes[1..], head, headSlot)
  }

  ghost predicate AllFixed(passes: seq<Pass>, frame: Frame) {
    forall i :: 0 <= i < |passes| ==> IsFixed(passes[i].env.frames, frame)
  }

  /** Interrupted passes stay on the way to a clean stop. */
  lemma {:induction false} InterruptedStayOnTheWay(
      chain: seq<Block>, frame: Frame, store: BalStore, passes: seq<Pass>, head: uint64, headSlot: uint64, stop: uint64)
    requires IsChain(chain) && Agrees(frame, chain, head) && head < UINT64_MAX && AllFixed(passes, frame)
    requires 0 < store.tail && IsCleanStop(frame, store.tail, stop, head, headSlot)
    requires store.tail == stop ==> stop <= head && stop !in frame.hashes
    requires AllInterrupted(store, passes, head, headSlot)
    ensures var mid := RunPasses(store, passes, head, headSlot);
            && IsOnTheWay(frame, store, mid, stop)
            && IsCleanStop(frame, mid.tail, stop, head, headSlot)
            && (mid.tail == stop ==> stop <= head && stop !in frame.hashes)
    decreases |passes|
  {
    hide HashesIn;
    HashesSplit(frame, store.tail, store.tail, stop);
    if passes != [] {
      var pass := passes[0];
      var next := PruneResult(pass.env, store, head, headSlot, pass.batchSize).0;
      PruneFromCases(pass.env, store, head, headSlot, pass.batchSize);
      CleanStopIsPassStop(chain, frame, store.tail, stop, head, headSlot);
      PassOnFixedFrame(pass, frame, store, head, headSlot);
      InterruptedStayOnTheWay(chain, frame, next, passes[1..], head, headSlot, stop);
      WayContinues(frame, store, next, RunPasses(store, passes, head, headSlot), stop);
    }
  }

  /**
   * Any number of cancelled or dead passes and then a finished one delete exactly what one uninterrupted
   * pass deletes, whatever the batch sizes, if every hash up to where that pass stops has its header. The
   * tail agrees as well, unless the last interruption came right at the unreadable block the uninterrupted
   * pass stops at: then the finished pass has already stepped over it.
   */
  lemma InterruptAndRerun(
      chain: seq<Block>, frame: Frame, store: BalStore, head: uint64, headSlot: uint64,
      interrupted: seq<Pass>, rerun: Pass, single: Pass)
    requires IsChain(chain) && Agrees(frame, chain, head) && 0 < store.tail <= head < UINT64_MAX
    requires AllFixed(interrupted, frame) && IsFixed(rerun.env.frames, frame) && IsFixed(single.env.frames, frame)
    requires interrupted != [] && AllInterrupted(store, interrupted, head, headSlot)
    requires var mid := RunPasses(store, interrupted, head, headSlot);
             PruneResult(rerun.env, mid, head, headSlot, rerun.batchSize).1.Finished?
    requires var (whole, outcome) := PruneResult(single.env, store, head, headSlot, single.batchSize);
             outcome.Finished? && EveryHashHasHeader(frame, store.tail, head, whole.tail)
    ensures
      var mid := RunPasses(store, interrupted, head, headSlot);
      var again := PruneResult(rerun.env, mid, head, headSlot, rerun.batchSize).0;
      var whole := PruneResult(single.env, store, head, headSlot, single.batchSize).0;
      && again.lists == whole.lists
      && (again.tail == whole.tail <==> GetBlockHeader(frame, mid.tail).Some?)
      && (again.tail != whole.tail ==> mid.tail == whole.tail && again.tail == whole.tail + 1)
  {
    hide HashesIn, RunPasses, PruneResult, PassStop;
    InterruptedIsExpired(frame, store, interrupted[0], head, headSlot);
    var stop := PassStop(frame, store.tail, head, headSlot);
    PassOnFixedFrame(single, frame, store, head, headSlot);
    PassStopIsClean(chain, frame, store.tail, head, headSlot);
    InterruptedStayOnTheWay(chain, frame, store, interrupted, head, headSlot, stop);
    var mid := RunPasses(store, interrupted, head, headSlot);
    WayEnds(frame, store, mid, stop);
    if mid.tail < stop {
      assert IsExpired(frame, mid.tail, headSlot);
      CleanStopIsPassStop(chain, frame, mid.tail, stop, head, headSlot);
      PassOnFixedFrame(rerun, frame, mid, head, headSlot);
    } else {
      PassStepsOver(rerun, frame, mid, head, headSlot);
      HashesSplit(frame, stop, stop, stop);
    }
  }

  lemma PassStepsOver(pass: Pass, frame: Frame, store: BalStore, head: uint64, headSlot: uint64)
    requires 0 < store.tail <= head < UINT64_MAX && pass.env.frames[0] == frame && store.tail !in frame.hashes
    ensures PruneResult(pass.env, store, head, headSlot, pass.batchSize)
             == (store.(tail := store.tail + 1), Finished(0))
  {
  }

  /**
   * A death before the first tail write leaves lists missing above the tail; the next pass ends in the same
   * state, and with the same count, as if there had been no death, whatever headers or hashes are unreadable.
   */
  lemma CrashBetweenWrites(
      frame: Frame, store: BalStore, head: uint64, headSlot: uint64, dead: Pass, recovery: Pass, single: Pass)
    requires 0 < store.tail <= head < UINT64_MAX
    requires IsFixed(dead.env.frames, frame) && IsFixed(recovery.env.frames, frame) && IsFixed(single.env.frames, frame)
    requires var (torn, outcome) := PruneResult(dead.env, store, head, headSlot, dead.batchSize);
             && outcome == Died && torn.tail == store.tail
             && PruneResult(recovery.env, torn, head, headSlot, recovery.batchSize).1.Finished?
    requires PruneResult(single.env, store, head, headSlot, single.batchSize).1.Finished?
    ensures
      var torn := PruneResult(dead.env, store, head, headSlot, dead.batchSize).0;
      PruneResult(recovery.env, torn, head, headSlot, recovery.batchSize)
        == PruneResult(single.env, store, head, headSlot, single.batchSize)
  {
    hide PruneResult, PassStop, HashesIn;
    InterruptedIsExpired(frame, store, dead, head, headSlot);
    var torn := PruneResult(dead.env, store, head, headSlot, dead.batchSize).0;
    PassOnFixedFrame(dead, frame, store, head, headSlot);
    PassOnFixedFrame(recovery, frame, torn, head, headSlot);
    PassOnFixedFrame(single, frame, store, head, headSlot);
    WayEnds(frame, store, torn, PassStop(frame, store.tail, head, headSlot));
  }

  /** Only a pass from an expired block at or below the head can be interrupted. */
  lemma InterruptedIsExpired(frame: Frame, store: BalStore, pass: Pass, head: uint64, headSlot: uint64)
    requires 0 < store.tail && head < UINT64_MAX && IsFixed(pass.env.frames, frame)
    requires !PruneResult(pass.env, store, head, headSlot, pass.batchSize).1.Finished?
    ensures store.tail <= head && IsExpired(frame, store.tail, headSlot)
  {
    PruneFromCases(pass.env, store, head, headSlot, pass.batchSize);
  }

  /** Interrupted passes only move the tail up, and delete all lists they pass. */
  lemma {:induction false} InterruptedOnlyDelete(
      frame: Frame, store: BalStore, passes: seq<Pass>, head: uint64, headSlot: uint64)
    requires 0 < store.tail && head < UINT64_MAX && AllFixed(passes, frame)
    requires AllInterrupted(store, passes, head, headSlot)
    ensures var mid := RunPasses(store, passes, head, headSlot);
            store.tail <= mid.tail && mid.lists <= store.lists - HashesIn(frame, store.tail, mid.tail)
    decreases |passes|
  {
    hide HashesIn;
    HashesSplit(frame, store.tail, store.tail, store.tail);
    if passes != [] {
      var next := PruneResult(passes[0].env, store, head, headSlot, passes[0].batchSize).0;
      InterruptedIsExpired(frame, store, passes[0], head, headSlot);
      PassOnFixedFrame(passes[0], frame, store, head, headSlot);
      InterruptedOnlyDelete(frame, next, passes[1..], head, headSlot);
      HashesSplit(frame, store.tail, next.tail, RunPasses(store, passes, head, headSlot).tail);
    }
  }

  /**
   * A hash without its header right where an uninterrupted pass stops, the one place left open: that pass
   * stops at its cutoff. After any number of interruptions the next pass agrees with it exactly when they have
   * left its lists alone and the tail below it, and its own bisection, which probes other blocks, finds the
   * same cutoff.
   */
  lemma OrphanAtTheStop(
      chain: seq<Block>, frame: Frame, store: BalStore, head: uint64, headSlot: uint64,
      interrupted: seq<Pass>, rerun: Pass, single: Pass)
    requires IsChain(chain) && Agrees(frame, chain, head) && 0 < store.tail <= head < UINT64_MAX
    requires AllFixed(interrupted, frame) && IsFixed(rerun.env.frames, frame) && IsFixed(single.env.frames, frame)
    requires interrupted != [] && AllInterrupted(store, interrupted, head, headSlot)
    requires var mid := RunPasses(store, interrupted, head, headSlot);
             PruneResult(rerun.env, mid, head, headSlot, rerun.batchSize).1.Finished?
    requires var (whole, outcome) := PruneResult(single.env, store, head, headSlot, single.batchSize);
             && outcome.Finished? && store.tail < whole.tail
             && EveryHashHasHeader(frame, store.tail, head, whole.tail - 1)
             && whole.tail in frame.hashes && frame.hashes[whole.tail] !in frame.headers
    ensures
      var mid := RunPasses(store, interrupted, head, headSlot);
      var again := PruneResult(rerun.env, mid, head, headSlot, rerun.batchSize).0;
      var whole := PruneResult(single.env, store, head, headSlot, single.batchSize).0;
      && whole.tail == ProbeCutoff(frame, store.tail, head, headSlot)
      && (again == whole <==> && mid.tail < whole.tail
                              && whole.lists <= mid.lists
                              && ProbeCutoff(frame, mid.tail, head, headSlot) == whole.tail)
  {
    hide HashesIn, PruneResult, IsExpired, RunPasses, PassStop;
    InterruptedIsExpired(frame, store, interrupted[0], head, headSlot);
    PassOnFixedFrame(single, frame, store, head, headSlot);
    InterruptedOnlyDelete(frame, store, interrupted, head, headSlot);
    var mid := RunPasses(store, interrupted, head, headSlot);
    var stop := PassStop(frame, store.tail, head, headSlot);
    OrphanIsCutoff(chain, frame, store.tail, store.tail, head, headSlot);
    if mid.tail < stop {
      OrphanIsCutoff(chain, frame, store.tail, mid.tail, head, headSlot);
      PassOnFixedFrame(rerun, frame, mid, head, headSlot);
      HashesSplit(frame, store.tail, mid.tail, stop);
    } else {
      PassMovesOn(rerun, frame, mid, head, headSlot, stop);
    }
  }

  /** From a hash without its header, or from beyond, no finished pass ends there. */
  lemma PassMovesOn(pass: Pass, frame: Frame, store: BalStore, head: uint64, headSlot: uint64, orphan: uint64)
    requires head < UINT64_MAX && IsFixed(pass.env.frames, frame) && 0 < orphan <= store.tail
    requires orphan in frame.hashes && frame.hashes[orphan] !in frame.headers
    requires PruneResult(pass.env, store, head, headSlot, pass.batchSize).1.Finished?
    ensures PruneResult(pass.env, store, head, headSlot, pass.batchSize).0.tail != orphan
  {
    hide Sweep;
    PruneFromCases(pass.env, store, head, headSlot, pass.batchSize);
  }

  /**
   * At such a hash the pass ends at its cutoff, and a pass from a block below stops there exactly at the same
   * cutoff.
   */
  lemma OrphanIsCutoff(chain: seq<Block>, frame: Frame, tail: uint64, mid: uint64, head: uint64, headSlot: uint64)
    requires IsChain(chain) && Agrees(frame, chain, head)
    requires tail <= head < UINT64_MAX && IsExpired(frame, tail, headSlot)
    requires var stop := PassStop(frame, tail, head, headSlot);
             && tail < stop && EveryHashHasHeader(frame, tail, head, stop - 1)
             && stop in frame.hashes && frame.hashes[stop] !in frame.headers
    requires tail <= mid < PassStop(frame, tail, head, headSlot)
    ensures var stop := PassStop(frame, tail, head, headSlot);
            && mid < stop == ProbeCutoff(frame, tail, head, headSlot) && mid <= head
            && IsExpired(frame, mid, headSlot)
            && stop <= PassStop(frame, mid, head, headSlot)
            && (PassStop(frame, mid, head, headSlot) == stop <==> ProbeCutoff(frame, mid, head, headSlot) == stop)
  {
    hide ProbeCutoff, IsExpired, IsChain, Agrees;
    var stop := PassStop(frame, tail, head, headSlot);
    PassStopIsReachable(chain, frame, tail, head, headSlot);
    assert IsExpired(frame, mid, headSlot) || mid == stop;
    CutoffReaches(frame, mid, stop, head, headSlot);
  }

  /** A head at which the blocks of the example have expired. */
  const LATE_SLOT: uint64 := SLOTS_PER_EPOCH * BAL_RETENTION_EPOCHS

  lemma HoledFrameExpired(n: uint64)
    requires n <= 5
    ensures IsExpired(HoledFrame(), n, LATE_SLOT) <==> n != 0 && n != 2
  {
  }

  /** When the upper half has expired, the bisection never looks below it. */
  lemma {:induction false} UpperHalfExpired(frame: Frame, lo: uint64, hi: uint64, headSlot: uint64)
    requires lo <= hi + 1 && hi < UINT64_MAX
    requires forall n: uint64 :: (lo + hi) / 2 <= n <= hi ==> IsExpired(frame, n, headSlot)
    ensures ProbeCutoff(frame, lo, hi, headSlot) == hi + 1
    decreases hi + 1 - lo
  {
    if lo <= hi {
      var mid := Middle(lo, hi);
      assert mid == (lo + hi) / 2 && IsExpired(frame, mid, headSlot);
      UpperHalfExpired(frame, mid + 1, hi, headSlot);
    }
  }

  lemma HoledFrameCutoff()
    ensures ProbeCutoff(HoledFrame(), 1, 5, LATE_SLOT) == 6
  {
    hide HoledFrame, IsExpired, ProbeCutoff;
    HoledFrameExpired(3);
    HoledFrameExpired(4);
    HoledFrameExpired(5);
    UpperHalfExpired(HoledFrame(), 1, 5, LATE_SLOT);
  }

  /** One pass over the example from block 1 is cancelled at the hole, or stops there, depending on its batch size. */
  lemma HoledFramePass(store: BalStore, batchSize: uint64)
    requires store.tail == 1 && (batchSize == 1 || batchSize == 4)
    ensures PruneResult(Env([HoledFrame()], None), store, 5, LATE_SLOT, batchSize)
         == (DeleteUpTo(HoledFrame(), store, 2), if batchSize == 1 then Cancelled else Finished(1))
  {
    hide HoledFrame, IsExpired, HashesIn, ProbeCutoff, FirstHole, IsWithinBalRetentionPeriod, GetBlockHeader;
    HoledFrameReads(1);
    HoledFrameReads(2);
    HoledFrameExpired(1);
    HoledFrameCutoff();
    HoledFrameHole(1 + batchSize);
    HoledFrameNotRetained();
    PruneFromCases(Env([HoledFrame()], None), store, 5, LATE_SLOT, batchSize);
  }

  lemma HoledFrameNotRetained()
    ensures !IsRetained(HoledFrame(), 1, LATE_SLOT)
  {
  }

  lemma HoledFrameHole(end: uint64)
    requires 2 <= end
    ensures FirstHole(HoledFrame(), 1, end) == 2
  {
  }

  /** Cancelled after block 1, a pass is cancelled at the hole; the next pass steps over it, a single one stops. */
  lemma CancelledAtAHole(store: BalStore)
    requires store.tail == 1
    ensures
      var mid := DeleteUpTo(HoledFrame(), store, 2);
      && PruneResult(Env([HoledFrame()], None), store, 5, LATE_SLOT, 1) == (mid, Cancelled)
      && PruneResult(Env([HoledFrame()], None), mid, 5, LATE_SLOT, 1).0.tail == 3
      && PruneResult(Env([HoledFrame()], None), store, 5, LATE_SLOT, 4).0 == mid
  {
    hide HoledFrame, IsExpired, HashesIn, ProbeCutoff, FirstHole;
    HoledFramePass(store, 1);
    HoledFramePass(store, 4);
    HoledFrameReads(2);
    PruneFromCases(Env([HoledFrame()], None), DeleteUpTo(HoledFrame(), store, 2), 5, LATE_SLOT, 1);
  }

  /** With batches of one block, the pass can be cancelled at any block below the place where it stops. */
  lemma {:induction false} CancelAt(
      frames: Frames, frame: Frame, awaits: nat, store: BalStore, cutoff: uint64, at: uint64)
    requires IsFixed(frames, frame) && awaits < |frames| && |frames| - awaits == at - store.tail
    requires store.tail < at < cutoff && at <= FirstHole(frame, store.tail, cutoff)
    ensures Sweep(Env(frames, None), awaits, store, cutoff, 1) == (DeleteUpTo(frame, store, at), InSleep)
    decreases at - store.tail
  {
    hide HashesIn, Sweep, FirstHole;
    var env := Env(frames, None);
    SweepBatch(env, awaits, store, cutoff, 1);
    assert store.tail in frame.hashes && BatchEnd(store.tail, cutoff, 1) == store.tail + 1;
    FirstHoleIs(frame, store.tail, store.tail + 1, store.tail + 1);
    HoleOfBatch(frame, store.tail, store.tail + 1, cutoff);
    var after := DeleteUpTo(frame, store, store.tail + 1);
    if store.tail + 1 < at {
      CancelAt(frames, frame, awaits + 1, after, cutoff, at);
      DeleteUpToSplit(frame, store, store.tail + 1, at);
    }
  }

  lemma HashIsNotBelow(chain: seq<Block>, frame: Frame, from: uint64, n: uint64, head: uint64)
    requires IsChain(chain) && Agrees(frame, chain, head) && from <= n <= head && n in frame.hashes
    ensures frame.hashes[n] !in HashesIn(frame, from, n)
    ensures forall end: uint64 :: n < end ==> frame.hashes[n] in HashesIn(frame, n, end)
  {
    forall m: uint64 | from <= m < n && m in frame.hashes
      ensures frame.hashes[m] != frame.hashes[n]
    {
      assert chain[m].hash != chain[n].hash;
    }
  }

  lemma PassStepsOverOrphan(pass: Pass, frame: Frame, store: BalStore, head: uint64, headSlot: uint64)
    requires 0 < store.tail <= head < UINT64_MAX && pass.env.frames[0] == frame
    requires GetBlockHeader(frame, store.tail).None?
    ensures PruneResult(pass.env, store, head, headSlot, pass.batchSize)
             == (store.(tail := store.tail + 1), Finished(0))
  {
  }

  /**
   * A hash whose header is missing, strictly inside the range one pass deletes, is what breaks the
   * independence: cancelled right there, the next pass skips the block and its list is never deleted.
   */
  lemma OrphanHashBreaksIndependence(
      chain: seq<Block>, frame: Frame, store: BalStore, head: uint64, headSlot: uint64, orphan: uint64,
      rerun: Pass, single: Pass)
    requires IsChain(chain) && Agrees(frame, chain, head)
    requires IsFixed(rerun.env.frames, frame) && IsFixed(single.env.frames, frame)
    requires 0 < store.tail <= head < UINT64_MAX && IsExpired(frame, store.tail, headSlot)
    requires var (whole, outcome) := PruneResult(single.env, store, head, headSlot, single.batchSize);
             outcome.Finished? && store.tail < orphan < whole.tail
    requires orphan in frame.hashes && frame.hashes[orphan] !in frame.headers && frame.hashes[orphan] in store.lists
    ensures
      var cancelled: Frames := seq(orphan - store.tail, _ => frame);
      var (mid, outcome) := PruneResult(Env(cancelled, None), store, head, headSlot, 1);
      var again := PruneResult(rerun.env, mid, head, headSlot, rerun.batchSize).0;
      && outcome == Cancelled && mid.tail == orphan
      && frame.hashes[orphan] in again.lists && orphan < again.tail
      && frame.hashes[orphan] !in PruneResult(single.env, store, head, headSlot, single.batchSize).0.lists
  {
    var cancelled: Frames := seq(orphan - store.tail, _ => frame);
    var cutoff := ProbeCutoff(frame, store.tail, head, headSlot);
    PruneFromCases(Env(cancelled, None), store, head, headSlot, 1);
    PassOnFixedFrame(single, frame, store, head, headSlot);
    CancelAt(cancelled, frame, 0, store, cutoff, orphan);
    var mid := DeleteUpTo(frame, store, orphan);
    HashIsNotBelow(chain, frame, store.tail, orphan, head);
    hide HashesIn;
    HashesSplit(frame, store.tail, orphan, PassStop(frame, store.tail, head, headSlot));
    PassStepsOverOrphan(rerun, frame, mid, head, headSlot);
  }

  // ---------------------------------------------------------------------------------------------
  // Whole runs of the cycle
  // ---------------------------------------------------------------------------------------------

  /** The state after a number of cycles, each at its own head and in its own environment. */
  function RunCycles(store: BalStore, cycles: seq<Cycle>, batchSize: uint64): BalStore
    requires forall i :: 0 <= i < |cycles| ==> cycles[i].head < UINT64_MAX
    decreases |cycles|
  {
    if cycles == [] then store
    else CycleResult(RunCycles(store, cycles[..|cycles| - 1], batchSize), cycles[|cycles| - 1], batchSize)
  }

  /** Every cycle runs at this head, starts from this view of the database, and agrees with the chain. */
  ghost predicate IsSettled(chain: seq<Block>, frame: Frame, cycles: seq<Cycle>, head: uint64) {
    forall i :: 0 <= i < |cycles| ==>
      cycles[i].head == head && cycles[i].env.frames[0] == frame && AllAgree(cycles[i].env.frames, chain, head)
  }

  /** The number of cycles in which the process does not die. */
  function LivedThrough(cycles: seq<Cycle>): nat
    decreases |cycles|
  {
    if cycles == [] then 0
    else LivedThrough(cycles[..|cycles| - 1]) + if cycles[|cycles| - 1].env.death.None? then 1 else 0
  }

  /**
   * The lists of all blocks passed are gone, where the block can be read; and no other list is, but for those of
   * less than a batch above the tail after a death.
   */
  ghost predicate PassedListsAreGone(chain: seq<Block>, frame: Frame, before: BalStore, after: BalStore, slack: nat) {
    && (forall n: uint64 :: before.tail <= n < after.tail && n < |chain| && GetBlockHeader(frame, n).Some? ==>
          chain[n].hash !in after.lists)
    && (forall n: nat :: n < |chain| && chain[n].hash in before.lists && chain[n].hash !in after.lists ==>
          before.tail <= n < after.tail + slack)
    && after.lists <= before.lists
  }

  /** One cycle at a readable head, from a located tail below the first block retained at the head's own slot. */
  lemma CycleAdvances(chain: seq<Block>, store: BalStore, cycle: Cycle, retained: uint64, batchSize: uint64)
    requires IsChain(chain) && AllAgree(cycle.env.frames, chain, cycle.head) && FitsBelow(cycle.head, batchSize)
    requires var frame, head := cycle.env.frames[0], cycle.head;
             && GetBlockHeader(frame, head).Some? && chain[head].header.slotNumber.Some?
             && IsFirstRetained(frame, head, chain[head].header.slotNumber.value, retained)
             && 0 < store.tail <= retained
    ensures var after := CycleResult(store, cycle, batchSize);
            && store.tail <= after.tail <= retained
            && (store.tail < retained && cycle.env.death.None? ==> store.tail < after.tail)
            && PassedListsAreGone(chain, cycle.env.frames[0], store, after, Slack(cycle.env, batchSize))
  {
    hide Sweep, IsWithinBalRetentionPeriod, ProbeCutoff;
    var frame, head := cycle.env.frames[0], cycle.head;
    assert Agrees(frame, chain, head);
    var headSlot := chain[head].header.slotNumber.value;
    PassAdvances(chain, cycle.env, store, head, headSlot, retained, batchSize);
    PassedByPass(chain, cycle.env, store, head, headSlot, retained, batchSize);
  }

  lemma PassedByPass(
      chain: seq<Block>, env: Env, store: BalStore, head: uint64, headSlot: uint64, retained: uint64, batchSize: uint64)
    requires IsChain(chain) && AllAgree(env.frames, chain, head) && FitsBelow(head, batchSize)
    requires IsFirstRetained(env.frames[0], head, headSlot, retained) && store.tail <= retained
    ensures var after := PruneFrom(env, store, head, headSlot, batchSize).0;
            PassedListsAreGone(chain, env.frames[0], store, after, Slack(env, batchSize))
  {
    hide Sweep, PruneFrom, IsWithinBalRetentionPeriod, ProbeCutoff;
    PruneFromCases(env, store, head, headSlot, batchSize);
    var cutoff := ProbeCutoff(env.frames[0], store.tail, head, headSlot);
    if IsExpired(env.frames[0], store.tail, headSlot) {
      PassedBySweep(chain, env, store, cutoff, batchSize, head);
    }
  }

  lemma PassedBySweep(chain: seq<Block>, env: Env, store: BalStore, cutoff: uint64, batchSize: uint64, head: uint64)
    requires IsChain(chain) && AllAgree(env.frames, chain, head) && store.tail <= cutoff <= head + 1
    ensures var after := Sweep(env, 0, store, cutoff, batchSize).0;
            PassedListsAreGone(chain, env.frames[0], store, after, Slack(env, batchSize))
  {
    hide Sweep;
    var (after, end) := Sweep(env, 0, store, cutoff, batchSize);
    SweepDeletesWhatItPasses(chain, env, 0, store, cutoff, batchSize, head);
    var reach := if end == InBatch then Min(cutoff, after.tail + batchSize) else after.tail;
    forall n: nat | n < |chain| && chain[n].hash in store.lists && chain[n].hash !in after.lists
      ensures store.tail <= n < reach
    {
      assert chain[n].hash in CanonicalHashes(chain, store.tail, reach);
      var m: nat :| store.tail <= m < reach && m < |chain| && chain[m].hash == chain[n].hash;
      assert m == n;
    }
  }

  lemma PassedListsJoin(
      chain: seq<Block>, frame: Frame, before: BalStore, mid: BalStore, after: BalStore, slack: nat, later: nat)
    requires before.tail <= mid.tail <= after.tail
    requires PassedListsAreGone(chain, frame, before, mid, slack)
    requires PassedListsAreGone(chain, frame, mid, after, later)
    ensures PassedListsAreGone(chain, frame, before, after, Max(slack, later))
  {
  }

  /**
   * Cycles do prune: with a readable head that carries a slot, from a located tail below the first block retained
   * at that slot, every cycle that does not die moves the tail up, until it is exactly there, and the lists of
   * the readable blocks it passes are gone.
   */
  lemma {:induction false} CyclesConverge(
      chain: seq<Block>, frame: Frame, store: BalStore, cycles: seq<Cycle>, head: uint64, retained: uint64,
      batchSize: uint64)
    requires IsChain(chain) && Agrees(frame, chain, head) && FitsBelow(head, batchSize)
    requires IsSettled(chain, frame, cycles, head)
    requires GetBlockHeader(frame, head).Some? && chain[head].header.slotNumber.Some?
    requires IsFirstRetained(frame, head, chain[head].header.slotNumber.value, retained) && 0 < store.tail <= retained
    ensures var after := RunCycles(store, cycles, batchSize);
            && store.tail <= after.tail <= retained
            && (after.tail < retained ==> store.tail + LivedThrough(cycles) <= after.tail)
            && PassedListsAreGone(chain, frame, store, after, RunSlack(cycles, batchSize))
    decreases |cycles|
  {
    hide CycleResult, IsFirstRetained, PassedListsAreGone;
    if cycles == [] {
      NothingIsPassed(chain, frame, store);
    } else {
      var last, earlier := cycles[|cycles| - 1], cycles[..|cycles| - 1];
      CyclesConverge(chain, frame, store, earlier, head, retained, batchSize);
      var mid := RunCycles(store, earlier, batchSize);
      CycleAdvances(chain, mid, last, retained, batchSize);
      PassedListsJoin(chain, frame, store, mid, CycleResult(mid, last, batchSize), RunSlack(earlier, batchSize),
                      Slack(last.env, batchSize));
    }
  }

  lemma NothingIsPassed(chain: seq<Block>, frame: Frame, store: BalStore)
    ensures PassedListsAreGone(chain, frame, store, store, 0)
  {
  }

  function PassesOf(cycles: seq<Cycle>, batchSize: uint64): (passes: seq<Pass>)
    ensures |passes| == |cycles|
    ensures forall i :: 0 <= i < |cycles| ==> passes[i] == Pass(cycles[i].env, batchSize)
    decreases |cycles|
  {
    if cycles == [] then []
    else PassesOf(cycles[..|cycles| - 1], batchSize) + [Pass(cycles[|cycles| - 1].env, batchSize)]
  }

  lemma {:induction false} OnePassMore(store: BalStore, passes: seq<Pass>, pass: Pass, head: uint64, headSlot: uint64)
    requires head < UINT64_MAX
    ensures RunPasses(store, passes + [pass], head, headSlot)
         == PruneResult(pass.env, RunPasses(store, passes, head, headSlot), head, headSlot, pass.batchSize).0
    ensures Survived(passes + [pass]) == Survived(passes) + if pass.env.death.None? then 1 else 0
    decreases |passes|
  {
    hide PruneResult;
    if passes == [] {
      assert passes + [pass] == [pass];
    } else {
      var next := PruneResult(passes[0].env, store, head, headSlot, passes[0].batchSize).0;
      assert (passes + [pass])[1..] == passes[1..] + [pass];
      OnePassMore(next, passes[1..], pass, head, headSlot);
    }
  }

  /** Cycles at one readable head are passes at the head's own slot. */
  lemma {:induction false} CyclesArePasses(
      chain: seq<Block>, frame: Frame, store: BalStore, cycles: seq<Cycle>, head: uint64, batchSize: uint64)
    requires Agrees(frame, chain, head) && head < UINT64_MAX && IsSettled(chain, frame, cycles, head)
    requires GetBlockHeader(frame, head).Some? && chain[head].header.slotNumber.Some?
    ensures RunCycles(store, cycles, batchSize)
         == RunPasses(store, PassesOf(cycles, batchSize), head, chain[head].header.slotNumber.value)
    ensures Survived(PassesOf(cycles, batchSize)) == LivedThrough(cycles)
    decreases |cycles|
  {
    hide PruneResult;
    if cycles != [] {
      var last, earlier := cycles[|cycles| - 1], cycles[..|cycles| - 1];
      CyclesArePasses(chain, frame, store, earlier, head, batchSize);
      OnePassMore(store, PassesOf(earlier, batchSize), Pass(last.env, batchSize), head,
          chain[head].header.slotNumber.value);
    }
  }

  /** From a zero tail, enough cycles reach the first retained block exactly when the first-block search lets them. */
  lemma CyclesConvergeFromZero(
      chain: seq<Block>, frame: Frame, store: BalStore, cycles: seq<Cycle>, head: uint64, retained: uint64,
      batchSize: uint64)
    requires IsChain(chain) && Agrees(frame, chain, head) && FitsBelow(head, batchSize)
    requires IsSettled(chain, frame, cycles, head)
    requires GetBlockHeader(frame, head).Some? && chain[head].header.slotNumber.Some?
    requires IsFirstRetained(frame, head, chain[head].header.slotNumber.value, retained)
    requires store.tail == 0 && retained < LivedThrough(cycles)
    ensures RunCycles(store, cycles, batchSize).tail == retained
            <==> match FirstBal(frame, head) case None => retained == 0 case Some(first) => first <= retained
  {
    hide IsFirstRetained, FirstBal;
    CyclesArePasses(chain, frame, store, cycles, head, batchSize);
    ConvergenceFromZero(chain, frame, store, PassesOf(cycles, batchSize), head, chain[head].header.slotNumber.value,
        retained);
  }

  /** Saved heads never decrease, and every frame agrees with the canonical chain up to the head of its cycle. */
  ghost predicate IsRun(chain: seq<Block>, cycles: seq<Cycle>) {
    && IsChain(chain)
    && (forall i :: 0 <= i < |cycles| ==>
          cycles[i].head < UINT64_MAX && AllAgree(cycles[i].env.frames, chain, cycles[i].head))
    && (forall i, j :: 0 <= i < j < |cycles| ==> cycles[i].head <= cycles[j].head)
  }

  /** One batch, if the process has died in any of the cycles. */
  function RunSlack(cycles: seq<Cycle>, batchSize: uint64): nat
    decreases |cycles|
  {
    if cycles == [] then 0
    else Max(RunSlack(cycles[..|cycles| - 1], batchSize), Slack(cycles[|cycles| - 1].env, batchSize))
  }

  /**
   * The tail is at most the head; a block that has lost its list is below the head, was expired there, and is
   * below the tail or less than `slack` above it.
   */
  ghost predicate RunInvariant(chain: seq<Block>, initial: set<Hash32>, store: BalStore, head: uint64, slack: nat)
    requires head < |chain|
  {
    && store.tail <= head
    && store.lists <= initial
    && forall n: nat :: n < |chain| && chain[n].hash in initial && chain[n].hash !in store.lists ==>
         && n < head && n < store.tail + slack
         && chain[head].header.slotNumber.Some?
         && !IsWithinBalRetentionPeriod(chain[n].header, chain[head].header.slotNumber.value)
  }

  /** One pass at a readable head keeps the tail between its old value and the head. */
  lemma PassKeepsTailBelowHead(chain: seq<Block>, env: Env, store: BalStore, head: uint64, batchSize: uint64)
    requires IsChain(chain) && AllAgree(env.frames, chain, head) && store.tail <= head < UINT64_MAX
    requires GetBlockHeader(env.frames[0], head).Some? && chain[head].header.slotNumber.Some?
    ensures var headSlot := chain[head].header.slotNumber.value;
            store.tail <= PruneResult(env, store, head, headSlot, batchSize).0.tail <= head
  {
    hide Sweep;
    var headSlot := chain[head].header.slotNumber.value;
    FirstBalIsBoundary(env.frames[0], head);
    var located := store.(tail := StartOf(store, env.frames[0], head));
    PruneFromCases(env, located, head, headSlot, batchSize);
    assert IsRetained(env.frames[0], head, headSlot);
    CutoffStopsAtRetained(chain, env.frames[0], located.tail, head, headSlot, head);
    SweepStaysBelowCutoff(env, located, ProbeCutoff(env.frames[0], located.tail, head, headSlot), batchSize);
  }

  lemma SweepStaysBelowCutoff(env: Env, store: BalStore, cutoff: uint64, batchSize: uint64)
    ensures store.tail <= Sweep(env, 0, store, cutoff, batchSize).0.tail <= Max(store.tail, cutoff)
  {
  }

  /** Expired with respect to the head's own slot, a block lies below the head. */
  lemma ExpiredIsBelowHead(chain: seq<Block>, n: nat, head: nat)
    requires IsChain(chain) && n < |chain| && head < |chain| && chain[head].header.slotNumber.Some?
    requires !IsWithinBalRetentionPeriod(chain[n].header, chain[head].header.slotNumber.value)
    ensures n < head
  {
    hide IsWithinBalRetentionPeriod;
    var headSlot := chain[head].header.slotNumber.value;
    HeadIsRetained(chain[head].header);
    if head <= n {
      NoLaterExpiry(chain, head, n, headSlot);
    }
  }

  lemma HeadIsRetained(header: Header)
    requires header.slotNumber.Some?
    ensures IsWithinBalRetentionPeriod(header, header.slotNumber.value)
  {
  }

  lemma CycleKeepsInvariant(
      chain: seq<Block>, initial: set<Hash32>, store: BalStore, before: uint64, cycle: Cycle, batchSize: uint64,
      slack: nat)
    requires IsChain(chain) && AllAgree(cycle.env.frames, chain, cycle.head) && cycle.head < UINT64_MAX
    requires before <= cycle.head && cycle.head < |chain| && RunInvariant(chain, initial, store, before, slack)
    ensures RunInvariant(chain, initial, CycleResult(store, cycle, batchSize), cycle.head,
                         Max(slack, Slack(cycle.env, batchSize)))
    ensures store.tail <= CycleResult(store, cycle, batchSize).tail
  {
    hide PruneResult, IsWithinBalRetentionPeriod;
    var head := cycle.head;
    assert Agrees(cycle.env.frames[0], chain, head);
    assert before < head ==> SlotAtMost(chain[before].header.slotNumber, chain[head].header.slotNumber);
    var after := CycleResult(store, cycle, batchSize);
    if after != store {
      var headSlot := chain[head].header.slotNumber.value;
      PassKeepsTailBelowHead(chain, cycle.env, store, head, batchSize);
      RetentionSafety(chain, cycle.env, store, head, headSlot, batchSize);
    }
    forall n: nat | n < |chain| && chain[n].hash in initial && chain[n].hash !in after.lists
      ensures n < head && n < after.tail + Max(slack, Slack(cycle.env, batchSize))
      ensures chain[head].header.slotNumber.Some?
      ensures !IsWithinBalRetentionPeriod(chain[n].header, chain[head].header.slotNumber.value)
    {
      if chain[n].hash !in store.lists {
        RetentionIsMonotone(chain[n].header, chain[n].header,
                            chain[before].header.slotNumber.value, chain[head].header.slotNumber.value);
      }
      ExpiredIsBelowHead(chain, n, head);
    }
  }

  /**
   * Every run from a fresh database, with any cancellations and deaths: the stored tail never exceeds the
   * head and never decreases; the head's own list is kept, and so is every list within the retention period
   * or at or above the tail, except less than one batch above it if the process has died.
   */
  lemma {:induction false} RunKeepsInvariant(chain: seq<Block>, store: BalStore, cycles: seq<Cycle>, batchSize: uint64)
    requires IsRun(chain, cycles) && cycles != [] && store.tail == 0
    ensures var after := RunCycles(store, cycles, batchSize);
            var head := cycles[|cycles| - 1].head;
            && RunInvariant(chain, store.lists, after, head, RunSlack(cycles, batchSize))
            && RunCycles(store, cycles[..|cycles| - 1], batchSize).tail <= after.tail
            && (chain[head].hash in store.lists ==> chain[head].hash in after.lists)
    decreases |cycles|
  {
    hide CycleResult, IsWithinBalRetentionPeriod;
    var last := cycles[|cycles| - 1];
    var earlier := cycles[..|cycles| - 1];
    assert AllAgree(last.env.frames, chain, last.head);
    assert Agrees(last.env.frames[0], chain, last.head);
    if earlier == [] {
      CycleKeepsInvariant(chain, store.lists, store, 0, last, batchSize, 0);
    } else {
      RunKeepsInvariant(chain, store, earlier, batchSize);
      assert earlier[|earlier| - 1] == cycles[|cycles| - 2];
      CycleKeepsInvariant(chain, store.lists, RunCycles(store, earlier, batchSize), earlier[|earlier| - 1].head, last,
                          batchSize, RunSlack(earlier, batchSize));
    }
  }
}
