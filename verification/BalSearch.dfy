/** The two binary searches of the block access list pruner, over a database with holes. */
module BalSearch {
  import opened Words
  import opened CoreDb

  const SLOTS_PER_EPOCH: uint64 := 32
  const BAL_RETENTION_EPOCHS: uint64 := 14299

  function IsWithinBalRetentionPeriod(header: Header, headSlot: uint64): bool {
    match header.slotNumber
    case None => false
    case Some(slot) => slot / SLOTS_PER_EPOCH + BAL_RETENTION_EPOCHS > headSlot / SLOTS_PER_EPOCH
  }

  /** Retention is upward closed in the block's slot and downward closed in the head's. */
  lemma RetentionIsMonotone(a: Header, b: Header, earlierHead: uint64, laterHead: uint64)
    requires SlotAtMost(a.slotNumber, b.slotNumber) && earlierHead <= laterHead
    ensures IsWithinBalRetentionPeriod(a, laterHead) ==> IsWithinBalRetentionPeriod(b, earlierHead)
  {
  }

  /**
   * The boundary in slots: a block is retained from the first slot of the epoch after the one that lies the
   * whole period behind the head's epoch. A young chain retains every block that has a slot.
   */
  lemma RetentionBoundary(header: Header, headSlot: uint64)
    ensures var headEpoch := headSlot / SLOTS_PER_EPOCH;
            IsWithinBalRetentionPeriod(header, headSlot)
            <==> header.slotNumber.Some?
                 && (BAL_RETENTION_EPOCHS <= headEpoch ==>
                       (headEpoch - BAL_RETENTION_EPOCHS + 1) * SLOTS_PER_EPOCH <= header.slotNumber.value)
  {
  }

  /** In numbers: a block of slot `slot` is retained for 457568 slots, counted from the start of its epoch. */
  lemma RetentionEndsAt(header: Header, headSlot: uint64)
    requires header.slotNumber.Some?
    ensures var slot := header.slotNumber.value;
            IsWithinBalRetentionPeriod(header, headSlot) <==> headSlot < slot - slot % 32 + 457568
  {
  }

  /** A readable header that announces a block access list. */
  predicate HasBal(frame: Frame, n: uint64) {
    var header := GetBlockHeader(frame, n);
    header.Some? && header.value.blockAccessListHash.Some?
  }

  /** A readable header whose block may be pruned. */
  predicate IsExpired(frame: Frame, n: uint64, headSlot: uint64) {
    var header := GetBlockHeader(frame, n);
    header.Some? && !IsWithinBalRetentionPeriod(header.value, headSlot)
  }

  /** A readable header whose block must be retained. */
  predicate IsRetained(frame: Frame, n: uint64, headSlot: uint64) {
    var header := GetBlockHeader(frame, n);
    header.Some? && IsWithinBalRetentionPeriod(header.value, headSlot)
  }

  /** The upper half is at most one block longer than the lower one. */
  function Middle(lo: uint64, hi: uint64): (mid: uint64)
    requires lo <= hi
    ensures lo <= mid <= hi
    ensures mid - lo <= hi - mid <= mid - lo + 1
  {
    lo + (hi - lo) / 2
  }

  function Power2(n: nat): (power: nat)
    ensures 0 < power
  {
    if n == 0 then 1 else 2 * Power2(n - 1)
  }

  lemma Power64()
    ensures Power2(64) == TWO_TO_THE_64
  {
    Power8(8);
    hide Power2;
    PowerSquared(8, 0x100);
    PowerSquared(16, 0x1_0000);
    PowerSquared(32, 0x1_0000_0000);
  }

  lemma Power8(n: nat)
    requires n == 8
    ensures Power2(n) == 0x100
  {
  }

  lemma PowerSquared(n: nat, power: nat)
    requires Power2(n) == power
    ensures Power2(2 * n) == power * power
  {
    hide Power2;
    PowersMultiply(n, n);
  }

  /** So many blocks are left that the probes left suffice. */
  ghost predicate IsWithinProbes(lo: uint64, hi: uint64, probes: nat) {
    probes <= 64 && hi + 1 - lo < Power2(64 - probes)
  }

  lemma AllWithinProbes(lo: uint64, hi: uint64)
    requires hi < UINT64_MAX
    ensures IsWithinProbes(lo, hi, 0)
  {
    hide Power2;
    Power64();
  }

  /** A probe in the middle leaves at most half of the blocks. */
  lemma ProbeHalves(lo: uint64, hi: uint64, probes: nat)
    requires lo <= hi && IsWithinProbes(lo, hi, probes)
    ensures probes < 64
    ensures hi < UINT64_MAX ==> IsWithinProbes(Middle(lo, hi) + 1, hi, probes + 1)
    ensures 0 < Middle(lo, hi) ==> IsWithinProbes(lo, Middle(lo, hi) - 1, probes + 1)
  {
    hide Middle;
    assert probes < 64 ==> Power2(64 - probes) == 2 * Power2(63 - probes);
  }

  lemma {:induction false} PowersMultiply(a: nat, b: nat)
    ensures Power2(a + b) == Power2(a) * Power2(b)
  {
    if a != 0 {
      PowersMultiply(a - 1, b);
      assert 2 * (Power2(a - 1) * Power2(b)) == (2 * Power2(a - 1)) * Power2(b);
    }
  }

  /** The probes of `FindFirstBalBlock`. */
  function ProbeFirstBal(frame: Frame, lo: uint64, hi: uint64, found: Option<uint64>): Option<uint64>
    requires hi < UINT64_MAX
    decreases hi + 1 - lo
  {
    if hi < lo then found else
    var mid := Middle(lo, hi);
    if !HasBal(frame, mid) then ProbeFirstBal(frame, mid + 1, hi, found)
    else if mid == 0 then Some(mid)
    else ProbeFirstBal(frame, lo, mid - 1, Some(mid))
  }

  /** What one probe contributes to the search. */
  lemma FirstBalProbe(frame: Frame, lo: uint64, hi: uint64, found: Option<uint64>)
    requires hi < UINT64_MAX
    ensures ProbeFirstBal(frame, lo, hi, found) ==
              if hi < lo then found
              else if !HasBal(frame, Middle(lo, hi)) then ProbeFirstBal(frame, Middle(lo, hi) + 1, hi, found)
              else if Middle(lo, hi) == 0 then Some(0)
              else ProbeFirstBal(frame, lo, Middle(lo, hi) - 1, Some(Middle(lo, hi)))
  {
  }

  function FirstBal(frame: Frame, head: uint64): Option<uint64>
    requires head < UINT64_MAX
  {
    ProbeFirstBal(frame, 0, head, None)
  }

  /** Neither readability nor list presence needs to be monotone for the answer to be a boundary. */
  ghost predicate IsFirstBalBoundary(frame: Frame, head: uint64, found: Option<uint64>) {
    match found
    case None => !HasBal(frame, head)
    case Some(k) => k <= head && HasBal(frame, k) && (k == 0 || !HasBal(frame, k - 1))
  }

  lemma {:induction false} ProbeFirstBalIsBoundary(
      frame: Frame, lo: uint64, hi: uint64, found: Option<uint64>, head: uint64)
    requires hi < UINT64_MAX && lo <= hi + 1 && hi <= head
    requires lo == 0 || !HasBal(frame, lo - 1)
    requires match found case None => hi == head case Some(k) => k == hi + 1 <= head && HasBal(frame, k)
    ensures IsFirstBalBoundary(frame, head, ProbeFirstBal(frame, lo, hi, found))
    decreases hi + 1 - lo
  {
    if lo <= hi {
      var mid := Middle(lo, hi);
      if !HasBal(frame, mid) {
        ProbeFirstBalIsBoundary(frame, mid + 1, hi, found, head);
      } else if mid > 0 {
        ProbeFirstBalIsBoundary(frame, lo, mid - 1, Some(mid), head);
      }
    }
  }

  lemma FirstBalIsBoundary(frame: Frame, head: uint64)
    requires head < UINT64_MAX
    ensures IsFirstBalBoundary(frame, head, FirstBal(frame, head))
  {
    ProbeFirstBalIsBoundary(frame, 0, head, None, head);
  }

  /** When the readable lists are an upper part of the chain, as after a snap sync, the answer is the least of them. */
  lemma FirstBalIsLeast(frame: Frame, head: uint64)
    requires head < UINT64_MAX
    requires forall n: uint64 :: n < head && HasBal(frame, n) ==> HasBal(frame, n + 1)
    ensures FirstBal(frame, head).None? <==> (forall n: uint64 :: n <= head ==> !HasBal(frame, n))
    ensures FirstBal(frame, head).Some? ==>
              forall n: uint64 :: n <= head ==> (HasBal(frame, n) <==> FirstBal(frame, head).value <= n)
  {
    FirstBalIsBoundary(frame, head);
    forall m: uint64, n: uint64 | m <= n <= head && HasBal(frame, m)
      ensures HasBal(frame, n)
    {
      BalPersists(frame, head, m, n);
    }
  }

  lemma {:induction false} BalPersists(frame: Frame, head: uint64, m: uint64, n: uint64)
    requires forall i: uint64 :: i < head && HasBal(frame, i) ==> HasBal(frame, i + 1)
    requires m <= n <= head && HasBal(frame, m)
    ensures HasBal(frame, n)
    decreases n - m
  {
    if m < n {
      BalPersists(frame, head, m + 1, n);
    }
  }

  /** The search takes at most 64 probes. */
  method FindFirstBalBlock(frame: Frame, head: uint64) returns (found: Option<uint64>, ghost probes: nat)
    requires head < UINT64_MAX
    ensures found == FirstBal(frame, head)
    ensures IsFirstBalBoundary(frame, head, found)
    ensures probes <= 64
  {
    hide Middle;
    var lo: uint64, hi: uint64 := 0, head;
    found, probes := None, 0;
    hide IsWithinProbes;
    AllWithinProbes(lo, hi);
    while lo <= hi
      invariant hi <= head && lo <= hi + 1
      invariant ProbeFirstBal(frame, lo, hi, found) == FirstBal(frame, head)
      invariant probes <= 64 && IsWithinProbes(lo, hi, probes)
      decreases hi + 1 - lo
    {
      ProbeHalves(lo, hi, probes);
      var mid := Middle(lo, hi);
      probes := probes + 1;
      var header := GetBlockHeader(frame, mid);
      if header.None? {
        lo := mid + 1;
        continue;
      }
      if header.value.blockAccessListHash.Some? {
        found := Some(mid);
        if mid == 0 {
          break;
        }
        hi := mid - 1;
      } else {
        lo := mid + 1;
      }
    }
    FirstBalIsBoundary(frame, head);
  }

  /** The probes of `FindRetentionCutoff`. */
  function ProbeCutoff(frame: Frame, lo: uint64, hi: uint64, headSlot: uint64): uint64
    requires hi < UINT64_MAX
    decreases hi + 1 - lo
  {
    if hi < lo then lo else
    var mid := Middle(lo, hi);
    if IsExpired(frame, mid, headSlot) then ProbeCutoff(frame, mid + 1, hi, headSlot)
    else if mid == 0 then 0
    else ProbeCutoff(frame, lo, mid - 1, headSlot)
  }

  /** The block below the cutoff may be pruned; the block at the cutoff must not be, or cannot be read. */
  ghost predicate IsCutoff(frame: Frame, tail: uint64, head: uint64, headSlot: uint64, cutoff: uint64)
    requires head < UINT64_MAX
  {
    && tail <= cutoff <= head + 1
    && (cutoff == tail || IsExpired(frame, cutoff - 1, headSlot))
    && (cutoff == head + 1 || !IsExpired(frame, cutoff, headSlot))
  }

  lemma {:induction false} ProbeCutoffIsCutoff(
      frame: Frame, lo: uint64, hi: uint64, headSlot: uint64, tail: uint64, head: uint64)
    requires hi < UINT64_MAX && head < UINT64_MAX && tail <= lo <= hi + 1 && hi <= head
    requires lo == tail || IsExpired(frame, lo - 1, headSlot)
    requires hi == head || !IsExpired(frame, hi + 1, headSlot)
    ensures IsCutoff(frame, tail, head, headSlot, ProbeCutoff(frame, lo, hi, headSlot))
    decreases hi + 1 - lo
  {
    if lo <= hi {
      var mid := Middle(lo, hi);
      if IsExpired(frame, mid, headSlot) {
        ProbeCutoffIsCutoff(frame, mid + 1, hi, headSlot, tail, head);
      } else if mid > 0 {
        if mid == lo && lo == tail {
          assert ProbeCutoff(frame, lo, mid - 1, headSlot) == lo;
        } else {
          ProbeCutoffIsCutoff(frame, lo, mid - 1, headSlot, tail, head);
        }
      }
    }
  }

  lemma CutoffIsLocalBoundary(frame: Frame, tail: uint64, head: uint64, headSlot: uint64)
    requires tail <= head < UINT64_MAX
    ensures IsCutoff(frame, tail, head, headSlot, ProbeCutoff(frame, tail, head, headSlot))
  {
    ProbeCutoffIsCutoff(frame, tail, head, headSlot, tail, head);
  }

  /** This search takes at most 64 probes as well. */
  method FindRetentionCutoff(frame: Frame, tail: uint64, head: uint64, headSlot: uint64)
      returns (cutoff: uint64, ghost probes: nat)
    requires head < UINT64_MAX
    ensures cutoff == ProbeCutoff(frame, tail, head, headSlot)
    ensures tail <= head ==> IsCutoff(frame, tail, head, headSlot, cutoff)
    ensures head < tail ==> cutoff == tail
    ensures probes <= 64
  {
    hide IsWithinBalRetentionPeriod;
    if tail <= head {
      CutoffIsLocalBoundary(frame, tail, head, headSlot);
    }
    hide IsCutoff, ProbeCutoff, Middle;
    var lo: uint64, hi: uint64 := tail, head;
    probes := 0;
    hide IsWithinProbes;
    AllWithinProbes(lo, hi);
    while lo <= hi
      invariant hi <= head
      invariant ProbeCutoff(frame, lo, hi, headSlot) == ProbeCutoff(frame, tail, head, headSlot)
      invariant probes <= 64 && IsWithinProbes(lo, hi, probes)
      decreases hi + 1 - lo
    {
      CutoffProbe(frame, lo, hi, headSlot);
      ProbeHalves(lo, hi, probes);
      var mid := Middle(lo, hi);
      probes := probes + 1;
      var header := GetBlockHeader(frame, mid);
      if header.None? {
        if mid == 0 {
          return 0, probes;
        }
        hi := mid - 1;
        continue;
      }
      if IsWithinBalRetentionPeriod(header.value, headSlot) {
        if mid == 0 {
          return 0, probes;
        }
        hi := mid - 1;
      } else {
        lo := mid + 1;
      }
    }
    CutoffProbe(frame, lo, hi, headSlot);
    return lo, probes;
  }

  /** What one probe contributes to the search. */
  lemma CutoffProbe(frame: Frame, lo: uint64, hi: uint64, headSlot: uint64)
    requires hi < UINT64_MAX
    ensures ProbeCutoff(frame, lo, hi, headSlot) ==
              if hi < lo then lo
              else if IsExpired(frame, Middle(lo, hi), headSlot) then ProbeCutoff(frame, Middle(lo, hi) + 1, hi,
                  headSlot)
              else if Middle(lo, hi) == 0 then 0
              else ProbeCutoff(frame, lo, Middle(lo, hi) - 1, headSlot)
  {
  }

  /** With slots that never decrease, no block below an expired one is retained. */
  lemma NothingRetainedBelow(chain: seq<Block>, frame: Frame, head: uint64, headSlot: uint64, expired: uint64)
    requires IsChain(chain) && Agrees(frame, chain, head)
    requires expired <= head && IsExpired(frame, expired, headSlot)
    ensures forall n: uint64 :: n <= expired ==> !IsRetained(frame, n, headSlot)
  {
  }

  /** So no cutoff search jumps past a readable retained block. */
  lemma CutoffStopsAtRetained(
      chain: seq<Block>, frame: Frame, tail: uint64, head: uint64, headSlot: uint64, retained: uint64)
    requires tail <= head < UINT64_MAX && IsChain(chain) && Agrees(frame, chain, head)
    requires tail <= retained <= head && IsRetained(frame, retained, headSlot)
    ensures ProbeCutoff(frame, tail, head, headSlot) <= retained
  {
    var cutoff := ProbeCutoff(frame, tail, head, headSlot);
    CutoffIsLocalBoundary(frame, tail, head, headSlot);
    if tail < cutoff {
      NothingRetainedBelow(chain, frame, head, headSlot, cutoff - 1);
    }
  }
}
