/** The gap-skipping search from a block number to its beacon slot, in its two variants. */
module SlotSearch {
  import opened Words

  /** What a lookup says about a slot: no block data at hand, no block proposed, or a block with this number. */
  datatype SlotInfo = NotAvailable | Empty | Proposed(number: uint64)

  /** A search finds a slot, gives up on missing data, or probes empty slots for ever past the last known one. */
  datatype SearchEnd = Found(slot: uint64) | Aborted | Endless

  // ---------------------------------------------------------------------------------------------
  // The beacon chain
  // ---------------------------------------------------------------------------------------------

  /** Two proposed slots with nothing but empty slots between them. */
  ghost predicate AreAdjacent(chain: seq<Option<uint64>>, s: nat, t: nat) {
    && s < t < |chain| && chain[s].Some? && chain[t].Some?
    && forall u :: s < u < t ==> chain[u].None?
  }

  /**
   * Block numbers by slot, if any: from the slot `base` on, each proposed block has the number after that of
   * the one before it. Blocks before the merge have no payload of their own and read as number zero.
   */
  ghost predicate IsBeaconChain(chain: seq<Option<uint64>>, base: nat) {
    forall s: nat, t: nat :: base <= s && AreAdjacent(chain, s, t) ==>
      chain[t].value as int == chain[s].value as int + 1
  }

  /** Lookups tell the truth about the slots they can see. */
  ghost predicate Sees(view: seq<SlotInfo>, chain: seq<Option<uint64>>) {
    && |view| == |chain|
    && forall s :: 0 <= s < |view| ==>
         match view[s]
         case NotAvailable => true
         case Empty => chain[s].None?
         case Proposed(number) => chain[s] == Some(number)
  }

  /** The target block can be seen at its slot. */
  ghost predicate SeesTarget(
      view: seq<SlotInfo>, chain: seq<Option<uint64>>, base: nat, targetSlot: uint64, target: uint64) {
    && IsBeaconChain(chain, base) && Sees(view, chain)
    && base <= targetSlot < |view| && view[targetSlot] == Proposed(target)
  }

  /** Some slot in `[from, end)` is not at hand. */
  ghost predicate IsMissing(view: seq<SlotInfo>, from: nat, end: nat) {
    exists s :: from <= s < end && s < |view| && view[s].NotAvailable?
  }

  /** The number of empty slots in `[from, end)`. */
  function EmptySlots(chain: seq<Option<uint64>>, from: nat, end: nat): (count: nat)
    requires from <= end <= |chain|
    ensures count <= end - from
    decreases end - from
  {
    if from == end then 0
    else EmptySlots(chain, from, end - 1) + if chain[end - 1].None? then 1 else 0
  }

  lemma {:induction false} EmptySlotsSplit(chain: seq<Option<uint64>>, a: nat, b: nat, c: nat)
    requires a <= b <= c <= |chain|
    ensures EmptySlots(chain, a, c) == EmptySlots(chain, a, b) + EmptySlots(chain, b, c)
    decreases c - b
  {
    if b < c {
      EmptySlotsSplit(chain, a, b, c - 1);
    }
  }

  lemma {:induction false} AllEmptySlots(chain: seq<Option<uint64>>, from: nat, end: nat)
    requires from <= end <= |chain| && forall u :: from <= u < end ==> chain[u].None?
    ensures EmptySlots(chain, from, end) == end - from
    decreases end - from
  {
    if from < end {
      AllEmptySlots(chain, from, end - 1);
    }
  }

  /** The distance between two proposed slots is the distance of their block numbers plus the empty slots between. */
  lemma {:induction false} SlotDistance(chain: seq<Option<uint64>>, base: nat, s: nat, t: nat)
    requires IsBeaconChain(chain, base) && base <= s < t < |chain| && chain[s].Some? && chain[t].Some?
    ensures chain[s].value < chain[t].value
    ensures t - s == (chain[t].value - chain[s].value) + EmptySlots(chain, s, t)
    decreases t - s
  {
    if u :| s < u < t && chain[u].Some? {
      SlotDistance(chain, base, s, u);
      SlotDistance(chain, base, u, t);
      EmptySlotsSplit(chain, s, u, t);
    } else {
      assert AreAdjacent(chain, s, t);
      AllEmptySlots(chain, s + 1, t);
      EmptySlotsSplit(chain, s, s + 1, t);
    }
  }

  /** Every number between those of two proposed slots is proposed between them. */
  lemma {:induction false} NumberIsProposed(
      chain: seq<Option<uint64>>, base: nat, s: nat, t: nat, number: uint64) returns (slot: nat)
    requires IsBeaconChain(chain, base) && base <= s <= t < |chain| && chain[s].Some? && chain[t].Some?
    requires chain[s].value <= number <= chain[t].value
    ensures s <= slot <= t && chain[slot] == Some(number)
    decreases t - s
  {
    if u :| s < u < t && chain[u].Some? {
      if number <= chain[u].value {
        slot := NumberIsProposed(chain, base, s, u, number);
      } else {
        slot := NumberIsProposed(chain, base, u, t, number);
      }
    } else {
      assert AreAdjacent(chain, s, t) || s == t;
      slot := if number == chain[s].value then s else t;
    }
  }

  // ---------------------------------------------------------------------------------------------
  // The searches
  // ---------------------------------------------------------------------------------------------

  /** The slot a search continues from after it has seen block `number` at `slot`; both operations wrap. */
  function Jump(slot: uint64, target: uint64, number: uint64): uint64 {
    WrapAdd(slot, WrapSub(target, number))
  }

  /** The probes of the import and of `nrpc`, which take missing data for an empty slot. */
  function SearchSlot(view: seq<SlotInfo>, slot: uint64, target: uint64): SearchEnd
    requires |view| + target < TWO_TO_THE_64
    decreases |view| - slot
  {
    if |view| <= slot then Endless
    else if !view[slot].Proposed? then SearchSlot(view, slot + 1, target)
    else if view[slot].number < target then SearchSlot(view, Jump(slot, target, view[slot].number), target)
    else Found(Jump(slot, target, view[slot].number))
  }

  /** The probes of the execution layer sync, which gives up on missing data and steps past the target. */
  function SearchSlotAfter(view: seq<SlotInfo>, slot: uint64, target: uint64): SearchEnd
    requires |view| + target < TWO_TO_THE_64
    decreases |view| - slot
  {
    if |view| <= slot then Endless
    else match view[slot]
      case NotAvailable => Aborted
      case Empty => SearchSlotAfter(view, slot + 1, target)
      case Proposed(number) =>
        var next := WrapAdd(slot, Max(WrapSub(target, number), 1));
        if number < target then SearchSlotAfter(view, next, target) else Found(next)
  }

  /** The first slot from `slot` on at which a block can be seen, or the end of the view. */
  function NextProposed(view: seq<SlotInfo>, slot: nat): (next: nat)
    ensures slot <= |view| ==> slot <= next <= |view|
    ensures slot <= next < |view| ==> view[next].Proposed?
    ensures forall s :: slot <= s < next && s < |view| ==> !view[s].Proposed?
    decreases |view| - slot
  {
    if slot < |view| && !view[slot].Proposed? then NextProposed(view, slot + 1) else slot
  }

  /** Seeing a block `gap` numbers newer than the target, the wrapped jump goes back by as much. */
  lemma JumpBack(slot: uint64, target: uint64, number: uint64)
    requires target < number && number - target <= slot
    ensures Jump(slot, target, number) == slot - (number - target)
    ensures WrapAdd(slot, Max(WrapSub(target, number), 1)) == slot - (number - target)
  {
  }

  /** Seeing an earlier block, a search jumps to at most the target's slot. */
  lemma JumpStaysBelow(chain: seq<Option<uint64>>, base: nat, slot: uint64, targetSlot: uint64)
    requires IsBeaconChain(chain, base) && base <= slot < targetSlot < |chain|
    requires chain[slot].Some? && chain[targetSlot].Some?
    ensures chain[slot].value < chain[targetSlot].value
    ensures slot < Jump(slot, chain[targetSlot].value, chain[slot].value) <= targetSlot
    ensures Jump(slot, chain[targetSlot].value, chain[slot].value)
         == WrapAdd(slot, Max(WrapSub(chain[targetSlot].value, chain[slot].value), 1))
  {
    SlotDistance(chain, base, slot, targetSlot);
  }

  /** From a guess at or below the target's slot the search ends exactly there, whatever other slots it cannot see. */
  lemma {:induction false} SearchFromBelow(
      view: seq<SlotInfo>, chain: seq<Option<uint64>>, base: nat, slot: uint64, targetSlot: uint64, target: uint64)
    requires SeesTarget(view, chain, base, targetSlot, target) && |view| + target < TWO_TO_THE_64
    requires base <= slot <= targetSlot
    ensures SearchSlot(view, slot, target) == Found(targetSlot)
    decreases targetSlot - slot
  {
    if slot < targetSlot {
      if view[slot].Proposed? {
        JumpStaysBelow(chain, base, slot, targetSlot);
        SearchFromBelow(view, chain, base, Jump(slot, target, view[slot].number), targetSlot, target);
      } else {
        SearchFromBelow(view, chain, base, slot + 1, targetSlot, target);
      }
    }
  }

  /** From a guess above it, the first block seen is newer than the target and one wrapped jump back ends the search. */
  lemma {:induction false} SearchFromAbove(
      view: seq<SlotInfo>, chain: seq<Option<uint64>>, base: nat, slot: uint64, targetSlot: uint64, target: uint64)
    requires SeesTarget(view, chain, base, targetSlot, target) && |view| + target < TWO_TO_THE_64 && targetSlot < slot
    ensures var seen := NextProposed(view, slot);
            SearchSlot(view, slot, target) ==
              if seen < |view| then Found(targetSlot + EmptySlots(chain, targetSlot, seen)) else Endless
    decreases |view| - slot
  {
    hide WrapAdd, WrapSub;
    if slot < |view| {
      if view[slot].Proposed? {
        SlotDistance(chain, base, targetSlot, slot);
        JumpBack(slot, target, view[slot].number);
      } else {
        SearchFromAbove(view, chain, base, slot + 1, targetSlot, target);
      }
    }
  }

  /**
   * The search of the import and of nrpc answers with the target's slot exactly when the guess does not
   * overshoot it, or no slot between the target and the first block seen from the guess on is empty.
   */
  lemma SearchFindsTarget(
      view: seq<SlotInfo>, chain: seq<Option<uint64>>, base: nat, guess: uint64, targetSlot: uint64, target: uint64)
    requires SeesTarget(view, chain, base, targetSlot, target) && |view| + target < TWO_TO_THE_64 && base <= guess
    ensures SearchSlot(view, guess, target) == Found(targetSlot)
            <==> || guess <= targetSlot
                 || (var seen := NextProposed(view, guess);
                     seen < |view| && forall u :: targetSlot <= u <= seen ==> chain[u].Some?)
  {
    hide SearchSlot;
    if guess <= targetSlot {
      SearchFromBelow(view, chain, base, guess, targetSlot, target);
    } else {
      SearchFromAbove(view, chain, base, guess, targetSlot, target);
      var seen := NextProposed(view, guess);
      if seen < |view| {
        NoEmptySlots(chain, targetSlot, seen);
      }
    }
  }

  /**
   * Blocks 1 and 2 right after the merge, an empty slot, then block 3: the guess for block 2 overshoots and
   * misses it.
   */
  lemma OvershootMissesTarget()
    ensures
      var view := [Proposed(1), Proposed(2), Empty, Proposed(3)];
      FirstGuess(2, 0, 0) == 2 && SearchSlot(view, 2, 2) == Found(2)
  {
  }

  lemma {:induction false} NoEmptySlots(chain: seq<Option<uint64>>, from: nat, end: nat)
    requires from <= end <= |chain|
    ensures EmptySlots(chain, from, end) == 0 <==> forall u :: from <= u < end ==> chain[u].Some?
    decreases end - from
  {
    if from < end {
      NoEmptySlots(chain, from, end - 1);
    }
  }

  /**
   * The two searches are one algorithm: where every block can be seen, they differ only in that the
   * execution layer sync takes one more step when it has landed exactly on the target.
   */
  lemma {:induction false} SearchesAgree(view: seq<SlotInfo>, slot: uint64, target: uint64)
    requires |view| + target < TWO_TO_THE_64 && !IsMissing(view, slot, |view|)
    ensures var before := SearchSlot(view, slot, target);
            if LandsOnTarget(view, slot, target)
            then before.Found? && before.slot < |view| && view[before.slot] == Proposed(target)
                 && SearchSlotAfter(view, slot, target) == Found(before.slot + 1)
            else SearchSlotAfter(view, slot, target) == before
    decreases |view| - slot
  {
    if slot < |view| {
      if view[slot].Empty? {
        SearchesAgree(view, slot + 1, target);
      } else if view[slot].number < target {
        SearchesAgree(view, Jump(slot, target, view[slot].number), target);
      }
    }
  }

  /** Whether the last block the search looks at is the target itself. */
  predicate LandsOnTarget(view: seq<SlotInfo>, slot: uint64, target: uint64)
    requires |view| + target < TWO_TO_THE_64
    decreases |view| - slot
  {
    slot < |view| &&
    if !view[slot].Proposed? then LandsOnTarget(view, slot + 1, target)
    else if view[slot].number < target then LandsOnTarget(view, Jump(slot, target, view[slot].number), target)
    else view[slot].number == target
  }

  /**
   * From a guess at or below the target's slot the sync starts right after it, or gives up because it meets
   * missing data on the way.
   */
  lemma {:induction false} SearchAfterFromBelow(
      view: seq<SlotInfo>, chain: seq<Option<uint64>>, base: nat, slot: uint64, targetSlot: uint64, target: uint64)
    requires IsBeaconChain(chain, base) && Sees(view, chain) && |view| + target < TWO_TO_THE_64
    requires base <= slot <= targetSlot < |chain| && chain[targetSlot] == Some(target)
    ensures SearchSlotAfter(view, slot, target) in {Found(targetSlot + 1), Aborted}
    ensures SearchSlotAfter(view, slot, target) == Aborted ==> IsMissing(view, slot, targetSlot + 1)
    decreases targetSlot - slot
  {
    hide IsBeaconChain;
    if slot < targetSlot {
      if view[slot].Proposed? {
        JumpStaysBelow(chain, base, slot, targetSlot);
        SearchAfterFromBelow(view, chain, base, Jump(slot, target, view[slot].number), targetSlot, target);
      } else if view[slot].Empty? {
        SearchAfterFromBelow(view, chain, base, slot + 1, targetSlot, target);
      }
    }
  }

  /**
   * From a guess above it, the sync starts as many slots after the target's as empty ones were jumped back
   * over, unless it meets missing data before the first block.
   */
  lemma {:induction false} SearchAfterFromAbove(
      view: seq<SlotInfo>, chain: seq<Option<uint64>>, base: nat, slot: uint64, targetSlot: uint64, target: uint64)
    requires IsBeaconChain(chain, base) && Sees(view, chain) && |view| + target < TWO_TO_THE_64
    requires base <= targetSlot < |chain| && targetSlot < slot && chain[targetSlot] == Some(target)
    ensures var seen := NextProposed(view, slot);
            SearchSlotAfter(view, slot, target) ==
              if IsMissing(view, slot, seen) then Aborted
              else if seen < |view| then Found(targetSlot + EmptySlots(chain, targetSlot, seen))
              else Endless
    decreases |view| - slot
  {
    hide WrapAdd, WrapSub, IsBeaconChain;
    if slot < |view| {
      if view[slot].Proposed? {
        SlotDistance(chain, base, targetSlot, slot);
        JumpBack(slot, target, view[slot].number);
      } else {
        SearchAfterFromAbove(view, chain, base, slot + 1, targetSlot, target);
      }
    }
  }

  /**
   * Where everything is at hand, the search of the execution layer sync answers with the slot after the
   * target's exactly when the guess does not overshoot, or exactly one slot between the target and the first
   * block seen is empty.
   */
  lemma SearchAfterFindsSuccessor(
      view: seq<SlotInfo>, chain: seq<Option<uint64>>, base: nat, guess: uint64, targetSlot: uint64, target: uint64)
    requires SeesTarget(view, chain, base, targetSlot, target) && |view| + target < TWO_TO_THE_64 && base <= guess
    requires !IsMissing(view, guess, |view|)
    ensures SearchSlotAfter(view, guess, target) == Found(targetSlot + 1)
            <==> || guess <= targetSlot
                 || (var seen := NextProposed(view, guess);
                     seen < |view| && EmptySlots(chain, targetSlot, seen) == 1)
  {
    hide SearchSlotAfter, IsBeaconChain;
    if guess <= targetSlot {
      SearchAfterFromBelow(view, chain, base, guess, targetSlot, target);
    } else {
      SearchAfterFromAbove(view, chain, base, guess, targetSlot, target);
    }
  }

  // ---------------------------------------------------------------------------------------------
  // The guesses
  // ---------------------------------------------------------------------------------------------

  /** The first guess of the import and of nrpc; all operations wrap. */
  function FirstGuess(target: uint64, lastEra1Block: uint64, firstSlotAfterMerge: uint64): uint64 {
    WrapAdd(WrapSub(target, lastEra1Block), firstSlotAfterMerge)
  }

  /**
   * How many slots must have stayed empty since the merge for the guesses not to overshoot: with block
   * `lastEra1Block + 1` at the first slot, one for the import and nrpc and two for the execution layer sync,
   * which adds one; with block `lastEra1Block` there, one fewer each.
   */
  lemma GuessOvershoots(
      chain: seq<Option<uint64>>, lastEra1Block: uint64, firstSlotAfterMerge: uint64, anchor: uint64,
      targetSlot: uint64, target: uint64)
    requires IsBeaconChain(chain, firstSlotAfterMerge) && firstSlotAfterMerge < targetSlot < |chain|
    requires chain[firstSlotAfterMerge] == Some(anchor) && chain[targetSlot] == Some(target)
    requires lastEra1Block <= anchor && |chain| + anchor < UINT64_MAX
    ensures FirstGuess(target, lastEra1Block, firstSlotAfterMerge) <= targetSlot
            <==> anchor - lastEra1Block <= EmptySlots(chain, firstSlotAfterMerge, targetSlot)
    ensures WrapAdd(FirstGuess(target, lastEra1Block, firstSlotAfterMerge), 1) <= targetSlot
            <==> anchor + 1 - lastEra1Block <= EmptySlots(chain, firstSlotAfterMerge, targetSlot)
  {
    SlotDistance(chain, firstSlotAfterMerge, firstSlotAfterMerge, targetSlot);
  }

  /** For a block after the merge the guess is a slot after the merge. */
  lemma GuessIsAfterMerge(target: uint64, lastEra1Block: uint64, firstSlotAfterMerge: uint64)
    requires lastEra1Block < target && target + firstSlotAfterMerge < TWO_TO_THE_64
    ensures firstSlotAfterMerge < FirstGuess(target, lastEra1Block, firstSlotAfterMerge)
  {
  }

  // ---------------------------------------------------------------------------------------------
  // The loops
  // ---------------------------------------------------------------------------------------------

  /**
   * The search of the import and of nrpc. `probed` lists the slots whose block was looked at: none lies
   * above the target's when the guess does not.
   */
  method FindSlot(
      view: seq<SlotInfo>, target: uint64, guess: uint64, ghost chain: seq<Option<uint64>>, ghost base: nat,
      ghost targetSlot: uint64)
      returns (end: SearchEnd, ghost probed: seq<uint64>)
    requires |view| + target < TWO_TO_THE_64 && 0 < target
    ensures end == SearchSlot(view, guess, target)
    ensures SeesTarget(view, chain, base, targetSlot, target) && base <= guess <= targetSlot ==>
              end == Found(targetSlot)
    ensures SeesTarget(view, chain, base, targetSlot, target) && base <= guess <= targetSlot ==>
              forall i :: 0 <= i < |probed| ==>
                && probed[i] <= targetSlot && view[probed[i]].Proposed?
                && view[probed[i]].number <= target
  {
    ghost var below := SeesTarget(view, chain, base, targetSlot, target) && base <= guess <= targetSlot;
    if below {
      SearchFromBelow(view, chain, base, guess, targetSlot, target);
    }
    var importedSlot: uint64 := guess;
    probed := [];
    var clNum: uint64 := 0;
    while clNum < target
      invariant SearchSlot(view, guess, target)
             == if clNum < target then SearchSlot(view, importedSlot, target) else Found(importedSlot)
      invariant below ==> base <= importedSlot <= targetSlot
      invariant below ==>
                  forall i :: 0 <= i < |probed| ==>
                    && probed[i] <= targetSlot && view[probed[i]].Proposed?
                    && view[probed[i]].number <= target
      decreases clNum < target, |view| - importedSlot
    {
      if importedSlot >= |view| {
        return Endless, probed;
      }
      if !view[importedSlot].Proposed? {
        importedSlot := importedSlot + 1;
        continue;
      }
      if below && importedSlot < targetSlot {
        JumpStaysBelow(chain, base, importedSlot, targetSlot);
      }
      probed := probed + [importedSlot];
      clNum := view[importedSlot].number;
      importedSlot := WrapAdd(importedSlot, WrapSub(target, clNum));
    }
    return Found(importedSlot), probed;
  }

  /** The search of the execution layer sync. */
  method FindSlotAfter(
      view: seq<SlotInfo>, target: uint64, guess: uint64, ghost chain: seq<Option<uint64>>, ghost base: nat,
      ghost targetSlot: uint64)
      returns (end: SearchEnd, ghost probed: seq<uint64>)
    requires |view| + target < TWO_TO_THE_64 && 0 < target
    ensures end == SearchSlotAfter(view, guess, target)
    ensures SeesTarget(view, chain, base, targetSlot, target) && base <= guess <= targetSlot ==>
              !IsMissing(view, guess, targetSlot + 1) ==> end == Found(targetSlot + 1)
    ensures SeesTarget(view, chain, base, targetSlot, target) && base <= guess <= targetSlot ==>
              forall i :: 0 <= i < |probed| ==>
                && probed[i] <= targetSlot && view[probed[i]].Proposed?
                && view[probed[i]].number <= target
  {
    ghost var below := SeesTarget(view, chain, base, targetSlot, target) && base <= guess <= targetSlot;
    if below {
      SearchAfterFromBelow(view, chain, base, guess, targetSlot, target);
    }
    var importedSlot: uint64 := guess;
    probed := [];
    var clNum: uint64 := 0;
    while clNum < target
      invariant SearchSlotAfter(view, guess, target)
             == if clNum < target then SearchSlotAfter(view, importedSlot, target) else Found(importedSlot)
      invariant below && clNum < target ==> base <= importedSlot <= targetSlot
      invariant below ==>
                  forall i :: 0 <= i < |probed| ==>
                    && probed[i] <= targetSlot && view[probed[i]].Proposed?
                    && view[probed[i]].number <= target
      decreases clNum < target, |view| - importedSlot
    {
      if importedSlot >= |view| {
        return Endless, probed;
      }
      match view[importedSlot]
      case NotAvailable =>
        return Aborted, probed;
      case Empty =>
        importedSlot := importedSlot + 1;
      case Proposed(number) =>
        if below && importedSlot < targetSlot {
          JumpStaysBelow(chain, base, importedSlot, targetSlot);
        }
        probed := probed + [importedSlot];
        clNum := number;
        importedSlot := WrapAdd(importedSlot, Max(WrapSub(target, clNum), 1));
    }
    return Found(importedSlot), probed;
  }
}
