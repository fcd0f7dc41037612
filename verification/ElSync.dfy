/** Feeding the execution layer from the beacon chain, one payload at a time. */
module ElSync {
  import opened Words
  import opened SlotSearch

  datatype PayloadStatus = Valid | Syncing | Accepted | Invalid

  datatype Outcome =
    | PreMerge | HeadMissing | InSync | ClBehind | SlotMissing
    | Reached | Rejected | OutOfSync | NoMoreSlots

  /** The execution layer: its answer to each payload, by position, and its head when asked at a block number. */
  datatype ElNode = ElNode(answers: nat -> PayloadStatus, headAt: uint64 -> uint64)

  /**
   * The block numbers of the payloads sent, the number believed to be the execution layer's head, and why the
   * attempt ended.
   */
  datatype Attempt = Attempt(sent: seq<uint64>, elBlockNumber: uint64, outcome: Outcome)

  /** The payload loop. A slot without a block at hand is skipped. */
  function Feed(view: seq<SlotInfo>, slot: uint64, el: uint64, cl: uint64, node: ElNode, sent: seq<uint64>): Attempt
    requires |view| < TWO_TO_THE_64
    decreases |view| - slot
  {
    if cl <= el then Attempt(sent, el, Reached)
    else if |view| <= slot then Attempt(sent, el, NoMoreSlots)
    else if !view[slot].Proposed? then Feed(view, slot + 1, el, cl, node, sent)
    else
      var sent' := sent + [view[slot].number];
      if node.answers(|sent|) != Valid then Attempt(sent', el, Rejected)
      else if (el + 1) % 1024 == 0 && node.headAt(el + 1) != el + 1 then Attempt(sent', el + 1, OutOfSync)
      else Feed(view, slot + 1, el + 1, cl, node, sent')
  }

  /** The whole attempt, from the execution layer's head and the beacon head block, if it is at hand. */
  function SyncResult(
      view: seq<SlotInfo>, el: uint64, clHead: Option<uint64>, lastEra1Block: uint64, firstSlotAfterMerge: uint64,
      node: ElNode): Attempt
    requires |view| + el < TWO_TO_THE_64
  {
    if el <= lastEra1Block then Attempt([], el, PreMerge)
    else if clHead.None? then Attempt([], el, HeadMissing)
    else if clHead.value == el || clHead.value == WrapAdd(el, 1) then Attempt([], el, InSync)
    else if clHead.value < el then Attempt([], el, ClBehind)
    else match SearchSlotAfter(view, WrapAdd(FirstGuess(el, lastEra1Block, firstSlotAfterMerge), 1), el)
      case Aborted => Attempt([], el, SlotMissing)
      case Endless => Attempt([], el, NoMoreSlots)
      case Found(slot) => Feed(view, slot, el, clHead.value, node, [])
  }

  method SyncToEngineApi(
      view: seq<SlotInfo>, el: uint64, clHead: Option<uint64>, lastEra1Block: uint64, firstSlotAfterMerge: uint64,
      node: ElNode)
      returns (attempt: Attempt)
    requires |view| + el < TWO_TO_THE_64
    ensures attempt == SyncResult(view, el, clHead, lastEra1Block, firstSlotAfterMerge, node)
    ensures attempt.outcome == Reached ==>
              clHead == Some(attempt.elBlockNumber) && |attempt.sent| == attempt.elBlockNumber - el
  {
    if el <= lastEra1Block {
      return Attempt([], el, PreMerge);
    }
    if clHead.None? {
      return Attempt([], el, HeadMissing);
    }
    var clBlockNumber := clHead.value;
    if clBlockNumber == el || clBlockNumber == WrapAdd(el, 1) {
      return Attempt([], el, InSync);
    }
    if clBlockNumber < el {
      return Attempt([], el, ClBehind);
    }
    var guess := WrapAdd(FirstGuess(el, lastEra1Block, firstSlotAfterMerge), 1);
    var found, _ := FindSlotAfter(view, el, guess, [], 0, 0);
    if found.Aborted? {
      return Attempt([], el, SlotMissing);
    }
    if found.Endless? {
      return Attempt([], el, NoMoreSlots);
    }

    var importedSlot: uint64 := found.slot;
    var elBlockNumber: uint64 := el;
    var sent: seq<uint64> := [];
    while elBlockNumber < clBlockNumber
      invariant el <= elBlockNumber <= clBlockNumber && |sent| == elBlockNumber - el
      invariant Feed(view, importedSlot, elBlockNumber, clBlockNumber, node, sent)
               == Feed(view, found.slot, el, clBlockNumber, node, [])
      decreases |view| - importedSlot
    {
      if importedSlot >= |view| {
        return Attempt(sent, elBlockNumber, NoMoreSlots);
      }
      var current := view[importedSlot];
      if !current.Proposed? {
        importedSlot := importedSlot + 1;
        continue;
      }
      importedSlot := importedSlot + 1;
      var response := node.answers(|sent|);
      sent := sent + [current.number];
      if response != Valid {
        return Attempt(sent, elBlockNumber, Rejected);
      }
      elBlockNumber := elBlockNumber + 1;
      if elBlockNumber % 1024 == 0 {
        if node.headAt(elBlockNumber) != elBlockNumber {
          return Attempt(sent, elBlockNumber, OutOfSync);
        }
      }
    }
    return Attempt(sent, elBlockNumber, Reached);
  }

  // ---------------------------------------------------------------------------------------------
  // The early exits
  // ---------------------------------------------------------------------------------------------

  lemma {:induction false} FeedOutcomes(view: seq<SlotInfo>, slot: uint64, el: uint64, cl: uint64, node: ElNode,
      sent: seq<uint64>)
    requires |view| < TWO_TO_THE_64
    ensures Feed(view, slot, el, cl, node, sent).outcome in {Reached, Rejected, OutOfSync, NoMoreSlots}
    decreases |view| - slot
  {
    if el < cl && slot < |view| {
      if view[slot].Proposed? {
        FeedOutcomes(view, slot + 1, el + 1, cl, node, sent + [view[slot].number]);
      } else {
        FeedOutcomes(view, slot + 1, el, cl, node, sent);
      }
    }
  }

  /** An execution layer before the merge, a missing head, or a head not more than one block ahead: nothing is sent. */
  ghost predicate HasNothingToDo(el: uint64, clHead: Option<uint64>, lastEra1Block: uint64) {
    el <= lastEra1Block || clHead.None? || clHead.value <= el + 1
  }

  /** Which early exit an attempt takes, decided on its inputs; nothing is sent before any of them. */
  lemma EarlyExits(
      view: seq<SlotInfo>, el: uint64, clHead: Option<uint64>, lastEra1Block: uint64, firstSlotAfterMerge: uint64,
      node: ElNode)
    requires |view| + el < TWO_TO_THE_64
    ensures var attempt := SyncResult(view, el, clHead, lastEra1Block, firstSlotAfterMerge, node);
            var isAfterMerge := lastEra1Block < el;
            && (HasNothingToDo(el, clHead, lastEra1Block) ==> attempt.sent == [] && attempt.elBlockNumber == el)
            && (attempt.outcome == PreMerge <==> !isAfterMerge)
            && (attempt.outcome == HeadMissing <==> isAfterMerge && clHead.None?)
            && (el < UINT64_MAX ==>
                  && (attempt.outcome == InSync <==> isAfterMerge && clHead in {Some(el), Some(el + 1)})
                  && (attempt.outcome == ClBehind <==> isAfterMerge && clHead.Some? && clHead.value < el))
            && (attempt.outcome in {PreMerge, HeadMissing, InSync, ClBehind}
                <==> HasNothingToDo(el, clHead, lastEra1Block))
            && (attempt.outcome == SlotMissing
                <==> && !HasNothingToDo(el, clHead, lastEra1Block)
                     && SearchSlotAfter(view, WrapAdd(WrapAdd(el - lastEra1Block, firstSlotAfterMerge), 1), el)
                         == Aborted)
            && (attempt.outcome == SlotMissing ==> attempt.sent == [] && attempt.elBlockNumber == el)
  {
    hide Feed, SearchSlotAfter;
    if !HasNothingToDo(el, clHead, lastEra1Block) {
      match SearchSlotAfter(view, WrapAdd(FirstGuess(el, lastEra1Block, firstSlotAfterMerge), 1), el)
      case Found(slot) => FeedOutcomes(view, slot, el, clHead.value, node, []);
      case _ =>
    }
  }

  // ---------------------------------------------------------------------------------------------
  // What is fed
  // ---------------------------------------------------------------------------------------------

  /** The block numbers `first`, `first + 1`, ... in this order. */
  ghost predicate CountsFrom(numbers: seq<uint64>, first: nat) {
    forall i :: 0 <= i < |numbers| ==> numbers[i] == first + i
  }

  /** Every block proposed in `[from, last]` is at hand. */
  ghost predicate AllAtHand(view: seq<SlotInfo>, chain: seq<Option<uint64>>, from: nat, last: nat)
    requires |view| == |chain|
  {
    forall s :: from <= s <= last && s < |view| && chain[s].Some? ==> view[s].Proposed?
  }

  /** Right after the slot `before`, up to `slot`, nothing was proposed. */
  ghost predicate IsGap(chain: seq<Option<uint64>>, before: nat, slot: nat)
    requires slot <= |chain|
  {
    forall u :: before < u < slot ==> chain[u].None?
  }

  lemma NumberAfterGap(chain: seq<Option<uint64>>, base: nat, before: nat, slot: nat)
    requires IsBeaconChain(chain, base) && base <= before < slot < |chain| && chain[before].Some? && chain[slot].Some?
    requires IsGap(chain, before, slot)
    ensures chain[slot].value as int == chain[before].value as int + 1
  {
  }

  /**
   * With every block at hand the payloads are consecutive, starting with the first block at or after the
   * slot. All but a rejected last one have been accepted, and the loop ends without waiting for slots.
   */
  lemma {:induction false} FeedsConsecutiveBlocks(
      view: seq<SlotInfo>, chain: seq<Option<uint64>>, base: nat, before: nat, slot: uint64, el: uint64, cl: uint64,
      last: nat, node: ElNode, sent: seq<uint64>, first: nat)
    requires IsBeaconChain(chain, base) && Sees(view, chain) && |view| < TWO_TO_THE_64
    requires base <= before < slot <= |view| && chain[before].Some? && IsGap(chain, before, slot)
    requires chain[before].value as int + 1 == first + |sent| && CountsFrom(sent, first)
    requires el < cl ==>
               && before < last < |view| && chain[last].Some?
               && chain[last].value as int - chain[before].value as int == cl - el
    requires el < cl ==> AllAtHand(view, chain, slot, last)
    ensures var attempt := Feed(view, slot, el, cl, node, sent);
            && CountsFrom(attempt.sent, first) && |sent| <= |attempt.sent|
            && attempt.outcome in {Reached, Rejected, OutOfSync}
            && attempt.elBlockNumber - el == |attempt.sent| - |sent| - (if attempt.outcome == Rejected then 1 else 0)
            && (attempt.outcome == Reached ==> attempt.elBlockNumber == Max(el, cl))
            && attempt.elBlockNumber <= Max(el, cl)
    decreases |view| - slot
  {
    hide IsBeaconChain;
    if el < cl {
      assert slot <= last;
      if !view[slot].Proposed? {
        FeedsConsecutiveBlocks(view, chain, base, before, slot + 1, el, cl, last, node, sent, first);
      } else {
        var number := view[slot].number;
        NumberAfterGap(chain, base, before, slot);
        var sent' := sent + [number];
        if slot < last {
          SlotDistance(chain, base, slot, last);
        }
        if node.answers(|sent|) == Valid && !((el + 1) % 1024 == 0 && node.headAt(el + 1) != el + 1) {
          FeedsConsecutiveBlocks(view, chain, base, slot, slot + 1, el + 1, cl, last, node, sent', first);
        }
      }
    }
  }

  /** A block with this number is at hand at or after `from`. */
  ghost predicate IsSeenFrom(view: seq<SlotInfo>, from: nat, number: uint64) {
    exists t :: from <= t < |view| && view[t] == Proposed(number)
  }

  /** Only blocks at hand from the slot on are sent. */
  lemma {:induction false} SendsOnlyWhatIsAtHand(
      view: seq<SlotInfo>, slot: uint64, el: uint64, cl: uint64, node: ElNode, sent: seq<uint64>)
    requires |view| < TWO_TO_THE_64
    ensures var attempt := Feed(view, slot, el, cl, node, sent);
            && sent <= attempt.sent
            && forall i :: |sent| <= i < |attempt.sent| ==> IsSeenFrom(view, slot, attempt.sent[i])
    decreases |view| - slot
  {
    if el < cl && slot < |view| {
      if view[slot].Proposed? {
        assert IsSeenFrom(view, slot, view[slot].number);
        SendsOnlyWhatIsAtHand(view, slot + 1, el + 1, cl, node, sent + [view[slot].number]);
      } else {
        SendsOnlyWhatIsAtHand(view, slot + 1, el, cl, node, sent);
      }
    }
  }

  /**
   * The loop goes on exactly while payloads are valid and the execution layer, asked after every 1024th
   * block, is where the loop believes it to be.
   */
  lemma {:induction false} FeedStopsAtFirstRefusal(
      view: seq<SlotInfo>, slot: uint64, el: uint64, cl: uint64, node: ElNode, sent: seq<uint64>)
    requires |view| < TWO_TO_THE_64
    ensures var attempt := Feed(view, slot, el, cl, node, sent);
            var accepted := attempt.elBlockNumber - el;
            && el <= attempt.elBlockNumber <= Max(el, cl)
            && |attempt.sent| == |sent| + accepted + (if attempt.outcome == Rejected then 1 else 0)
            && (forall i: nat :: |sent| <= i < |sent| + accepted ==> node.answers(i) == Valid)
            && (attempt.outcome == Rejected <==> |sent| + accepted < |attempt.sent|)
            && (attempt.outcome == Rejected ==> node.answers(|sent| + accepted) != Valid)
            && (forall n: uint64 :: el < n < attempt.elBlockNumber && n % 1024 == 0 ==> node.headAt(n) == n)
            && (attempt.outcome == OutOfSync ==>
                  attempt.elBlockNumber % 1024 == 0 && node.headAt(attempt.elBlockNumber) != attempt.elBlockNumber)
            && (attempt.outcome != OutOfSync && el < attempt.elBlockNumber && attempt.elBlockNumber % 1024 == 0 ==>
                  node.headAt(attempt.elBlockNumber) == attempt.elBlockNumber)
    decreases |view| - slot
  {
    if el < cl && slot < |view| {
      if !view[slot].Proposed? {
        FeedStopsAtFirstRefusal(view, slot + 1, el, cl, node, sent);
      } else if node.answers(|sent|) == Valid && !((el + 1) % 1024 == 0 && node.headAt(el + 1) != el + 1) {
        FeedStopsAtFirstRefusal(view, slot + 1, el + 1, cl, node, sent + [view[slot].number]);
      }
    }
  }

  /** An execution layer that accepts every payload and does not sync on its own. */
  ghost predicate IsCooperative(node: ElNode) {
    (forall i :: node.answers(i) == Valid) && (forall n :: node.headAt(n) == n)
  }

  lemma {:induction false} CooperativeNodeStopsNothing(
      view: seq<SlotInfo>, slot: uint64, el: uint64, cl: uint64, node: ElNode, sent: seq<uint64>)
    requires |view| < TWO_TO_THE_64 && IsCooperative(node)
    ensures Feed(view, slot, el, cl, node, sent).outcome in {Reached, NoMoreSlots}
    decreases |view| - slot
  {
    if el < cl && slot < |view| {
      if view[slot].Proposed? {
        CooperativeNodeStopsNothing(view, slot + 1, el + 1, cl, node, sent + [view[slot].number]);
      } else {
        CooperativeNodeStopsNothing(view, slot + 1, el, cl, node, sent);
      }
    }
  }

  /** The first payload sent is the first block at hand from the slot on. */
  lemma {:induction false} FirstPayload(view: seq<SlotInfo>, slot: uint64, el: uint64, cl: uint64, node: ElNode)
    requires |view| < TWO_TO_THE_64 && slot <= |view| && el < cl
    ensures var attempt := Feed(view, slot, el, cl, node, []);
            var seen := NextProposed(view, slot);
            if seen < |view| then attempt.sent != [] && attempt.sent[0] == view[seen].number
            else attempt == Attempt([], el, NoMoreSlots)
    decreases |view| - slot
  {
    if slot < |view| {
      if view[slot].Proposed? {
        assert [] + [view[slot].number] == [view[slot].number];
        SendsOnlyWhatIsAtHand(view, slot + 1, el + 1, cl, node, [view[slot].number]);
      } else {
        FirstPayload(view, slot + 1, el, cl, node);
      }
    }
  }

  /** The execution layer is brought to block `cl` with exactly the payloads `el + 1`, ..., `cl`. */
  ghost predicate IsFedExactly(attempt: Attempt, el: uint64, cl: uint64) {
    attempt.outcome == Reached && CountsFrom(attempt.sent, el + 1) && |attempt.sent| == cl - el
  }

  /** Started at a slot, the loop does not send block `el` of slot `elSlot` again and skips none of its successors. */
  ghost predicate IsRightStart(view: seq<SlotInfo>, chain: seq<Option<uint64>>, elSlot: nat, slot: nat)
    requires |view| == |chain| && elSlot < |view| && slot <= |view|
  {
    IsGap(chain, elSlot, slot) && (slot == elSlot ==> !view[elSlot].Proposed?)
  }

  /**
   * Started at or after the slot of block `el`, the loop brings a cooperative execution layer to block `cl`
   * with exactly the payloads `el + 1`, ..., `cl` if and only if it starts right and every one of those blocks
   * is at hand: a missing block is skipped like an empty slot.
   */
  lemma FeedsAllExactlyWhenAtHand(
      view: seq<SlotInfo>, chain: seq<Option<uint64>>, base: nat, elSlot: uint64, slot: uint64, el: uint64,
      last: uint64, cl: uint64, node: ElNode)
    requires IsBeaconChain(chain, base) && Sees(view, chain) && |view| < TWO_TO_THE_64 && IsCooperative(node)
    requires base <= elSlot < last < |chain| && chain[elSlot] == Some(el) && chain[last] == Some(cl)
    requires elSlot <= slot <= |view|
    ensures IsFedExactly(Feed(view, slot, el, cl, node, []), el, cl)
            <==> IsRightStart(view, chain, elSlot, slot) && AllAtHand(view, chain, elSlot + 1, last)
  {
    hide IsBeaconChain, Feed;
    SlotDistance(chain, base, elSlot, last);
    if slot == elSlot {
      FirstPayload(view, slot, el, cl, node);
      if !view[elSlot].Proposed? {
        StepsOver(view, slot, el, cl, node);
        FeedsAllAbove(view, chain, base, elSlot, slot + 1, el, last, cl, node);
      }
    } else {
      FeedsAllAbove(view, chain, base, elSlot, slot, el, last, cl, node);
    }
  }

  lemma StepsOver(view: seq<SlotInfo>, slot: uint64, el: uint64, cl: uint64, node: ElNode)
    requires |view| < TWO_TO_THE_64 && slot < |view| && !view[slot].Proposed? && el < cl
    ensures Feed(view, slot, el, cl, node, []) == Feed(view, slot + 1, el, cl, node, [])
  {
  }

  lemma FeedsAllAbove(
      view: seq<SlotInfo>, chain: seq<Option<uint64>>, base: nat, elSlot: uint64, slot: uint64, el: uint64,
      last: uint64, cl: uint64, node: ElNode)
    requires IsBeaconChain(chain, base) && Sees(view, chain) && |view| < TWO_TO_THE_64 && IsCooperative(node)
    requires base <= elSlot < last < |chain| && chain[elSlot] == Some(el) && chain[last] == Some(cl)
    requires elSlot < slot <= |view|
    ensures IsFedExactly(Feed(view, slot, el, cl, node, []), el, cl)
            <==> IsGap(chain, elSlot, slot) && AllAtHand(view, chain, elSlot + 1, last)
  {
    hide IsBeaconChain, Feed;
    var attempt := Feed(view, slot, el, cl, node, []);
    SlotDistance(chain, base, elSlot, last);
    if u: nat :| elSlot < u < slot && chain[u].Some? {
      StartedTooLate(view, chain, base, elSlot, u, slot, el, cl, node);
    } else if AllAtHand(view, chain, elSlot + 1, last) {
      FeedsConsecutiveBlocks(view, chain, base, elSlot, slot, el, cl, last, node, [], el + 1);
      CooperativeNodeStopsNothing(view, slot, el, cl, node, []);
    } else if IsFedExactly(attempt, el, cl) {
      SendsOnlyWhatIsAtHand(view, slot, el, cl, node, []);
      forall s: nat | elSlot + 1 <= s <= last && chain[s].Some?
        ensures view[s].Proposed?
      {
        SentBlockIsAtHand(view, chain, base, elSlot, slot, s, last, attempt.sent);
      }
    }
  }

  /** Started above a block it should have sent, the loop starts with a later one. */
  lemma StartedTooLate(
      view: seq<SlotInfo>, chain: seq<Option<uint64>>, base: nat, elSlot: uint64, skipped: nat, slot: uint64,
      el: uint64, cl: uint64, node: ElNode)
    requires IsBeaconChain(chain, base) && Sees(view, chain) && |view| < TWO_TO_THE_64
    requires base <= elSlot < skipped < slot <= |view| && chain[elSlot] == Some(el) && chain[skipped].Some? && el < cl
    ensures !IsFedExactly(Feed(view, slot, el, cl, node, []), el, cl)
  {
    hide IsBeaconChain, Feed;
    FirstPayload(view, slot, el, cl, node);
    SlotDistance(chain, base, elSlot, skipped);
    var seen := NextProposed(view, slot);
    if seen < |view| {
      SlotDistance(chain, base, skipped, seen);
    }
  }

  lemma SentBlockIsAtHand(
      view: seq<SlotInfo>, chain: seq<Option<uint64>>, base: nat, elSlot: nat, slot: nat, s: nat, last: nat,
      sent: seq<uint64>)
    requires IsBeaconChain(chain, base) && Sees(view, chain) && base <= elSlot < slot
    requires elSlot < s <= last < |chain| && chain[elSlot].Some? && chain[s].Some? && chain[last].Some?
    requires CountsFrom(sent, chain[elSlot].value as nat + 1)
             && |sent| == chain[last].value as int - chain[elSlot].value as int
    requires forall i :: 0 <= i < |sent| ==> IsSeenFrom(view, slot, sent[i])
    ensures view[s].Proposed?
  {
    SlotDistance(chain, base, elSlot, s);
    if s < last {
      SlotDistance(chain, base, s, last);
    }
    var number := chain[s].value;
    assert IsSeenFrom(view, slot, sent[number - chain[elSlot].value - 1]);
    var t :| slot <= t < |view| && view[t] == Proposed(number);
    if t < s {
      SlotDistance(chain, base, t, s);
    } else if s < t {
      SlotDistance(chain, base, s, t);
    }
  }

  /**
   * The whole attempt: with a guess that does not overshoot and the blocks from there on at hand, the
   * payloads sent are `el + 1`, `el + 2`, ... in order, each once; the number kept is that of the last
   * accepted block; and the attempt ends at the beacon head, at a payload that is not valid, or when the
   * execution layer moves on its own.
   */
  lemma SyncFeedsSuccessors(
      view: seq<SlotInfo>, chain: seq<Option<uint64>>, elSlot: uint64, el: uint64, last: uint64, cl: uint64,
      lastEra1Block: uint64, firstSlotAfterMerge: uint64, node: ElNode)
    requires SeesTarget(view, chain, firstSlotAfterMerge, elSlot, el) && |view| + el < TWO_TO_THE_64
    requires elSlot < last < |chain| && chain[last] == Some(cl) && lastEra1Block < el && el + 1 < cl
    requires var guess := WrapAdd(FirstGuess(el, lastEra1Block, firstSlotAfterMerge), 1);
             guess <= elSlot && !IsMissing(view, guess, last + 1)
    ensures var attempt := SyncResult(view, el, Some(cl), lastEra1Block, firstSlotAfterMerge, node);
            && CountsFrom(attempt.sent, el + 1)
            && attempt.elBlockNumber == el + |attempt.sent| - (if attempt.outcome == Rejected then 1 else 0)
            && attempt.outcome in {Reached, Rejected, OutOfSync}
            && attempt.elBlockNumber <= cl
            && (attempt.outcome == Reached ==> attempt.elBlockNumber == cl)
  {
    hide Feed, SearchSlotAfter, IsBeaconChain, IsMissing, AllAtHand;
    var base, guess := firstSlotAfterMerge, WrapAdd(FirstGuess(el, lastEra1Block, firstSlotAfterMerge), 1);
    GuessIsAfterMerge(el, lastEra1Block, firstSlotAfterMerge);
    SearchAfterFromBelow(view, chain, base, guess, elSlot, el);
    NothingMissing(view, chain, guess, elSlot, last);
    SlotDistance(chain, base, elSlot, last);
    FeedsConsecutiveBlocks(view, chain, base, elSlot, elSlot + 1, el, cl, last, node, [], el + 1);
  }

  lemma NothingMissing(view: seq<SlotInfo>, chain: seq<Option<uint64>>, guess: nat, elSlot: nat, last: nat)
    requires Sees(view, chain) && guess <= elSlot <= last && !IsMissing(view, guess, last + 1)
    ensures !IsMissing(view, guess, elSlot + 1) && AllAtHand(view, chain, elSlot + 1, last)
  {
  }

  /**
   * When a whole attempt feeds a cooperative execution layer exactly the successors of its head: if and only
   * if all of them are at hand, the search meets no missing data, and either the guess does not overshoot, or
   * the wrapped jump back from the first block seen, which misses the head's slot by the empty slots in
   * between, lands in the gap right after it. At the head's own slot the attempt starts one block early,
   * unless that block is missing; beyond the gap it skips blocks.
   */
  lemma SyncFeedsExactlyWhen(
      view: seq<SlotInfo>, chain: seq<Option<uint64>>, elSlot: uint64, el: uint64, last: uint64, cl: uint64,
      lastEra1Block: uint64, firstSlotAfterMerge: uint64, node: ElNode)
    requires IsBeaconChain(chain, firstSlotAfterMerge) && Sees(view, chain) && |view| + el < TWO_TO_THE_64
    requires firstSlotAfterMerge <= elSlot < last < |chain| && chain[elSlot] == Some(el) && chain[last] == Some(cl)
    requires lastEra1Block < el && el + 1 < cl && IsCooperative(node)
    ensures IsFedExactly(SyncResult(view, el, Some(cl), lastEra1Block, firstSlotAfterMerge, node), el, cl)
            <==> var guess := WrapAdd(FirstGuess(el, lastEra1Block, firstSlotAfterMerge), 1);
                 && AllAtHand(view, chain, elSlot + 1, last)
                 && if guess <= elSlot then SearchSlotAfter(view, guess, el) != Aborted
                    else
                      var seen := NextProposed(view, guess);
                      && seen < |view| && !IsMissing(view, guess, seen)
                      && IsRightStart(view, chain, elSlot, elSlot + EmptySlots(chain, elSlot, seen))
  {
    hide Feed, SyncResult, SearchSlotAfter, IsBeaconChain, IsCooperative, IsFedExactly;
    var base, guess := firstSlotAfterMerge, WrapAdd(FirstGuess(el, lastEra1Block, firstSlotAfterMerge), 1);
    GuessIsAfterMerge(el, lastEra1Block, firstSlotAfterMerge);
    AttemptIsItsFeed(view, el, cl, lastEra1Block, firstSlotAfterMerge, node);
    if guess <= elSlot {
      SearchAfterFromBelow(view, chain, base, guess, elSlot, el);
      FeedsAllExactlyWhenAtHand(view, chain, base, elSlot, elSlot + 1, el, last, cl, node);
    } else {
      OvershootLandsAt(view, chain, base, guess, elSlot, el);
      FeedsAfterOvershoot(view, chain, base, guess, elSlot, el, last, cl, node);
    }
  }

  /** Past the early exits, an attempt feeds from where its search ends. */
  lemma AttemptIsItsFeed(
      view: seq<SlotInfo>, el: uint64, cl: uint64, lastEra1Block: uint64, firstSlotAfterMerge: uint64, node: ElNode)
    requires |view| + el < TWO_TO_THE_64 && lastEra1Block < el && el + 1 < cl
    ensures var found := SearchSlotAfter(view, WrapAdd(FirstGuess(el, lastEra1Block, firstSlotAfterMerge), 1), el);
            IsFedExactly(SyncResult(view, el, Some(cl), lastEra1Block, firstSlotAfterMerge, node), el, cl)
            <==> found.Found? && IsFedExactly(Feed(view, found.slot, el, cl, node, []), el, cl)
  {
    hide Feed, SearchSlotAfter, FirstGuess;
  }

  /** Where the search of an overshooting guess lands, if it does. */
  lemma OvershootLandsAt(
      view: seq<SlotInfo>, chain: seq<Option<uint64>>, base: nat, guess: uint64, elSlot: uint64, el: uint64)
    requires IsBeaconChain(chain, base) && Sees(view, chain) && |view| + el < TWO_TO_THE_64
    requires base <= elSlot < |chain| && chain[elSlot] == Some(el) && elSlot < guess
    ensures var found, seen := SearchSlotAfter(view, guess, el), NextProposed(view, guess);
            && (found.Found? <==> seen < |view| && !IsMissing(view, guess, seen))
            && (found.Found? ==>
                  && elSlot < seen && found.slot == elSlot + EmptySlots(chain, elSlot, seen)
                  && found.slot <= |view|)
  {
    hide SearchSlotAfter, IsBeaconChain, IsMissing;
    SearchAfterFromAbove(view, chain, base, guess, elSlot, el);
  }

  /** What is fed after an overshooting guess. */
  lemma FeedsAfterOvershoot(
      view: seq<SlotInfo>, chain: seq<Option<uint64>>, base: nat, guess: uint64, elSlot: uint64, el: uint64,
      last: uint64, cl: uint64, node: ElNode)
    requires IsBeaconChain(chain, base) && Sees(view, chain) && |view| + el < TWO_TO_THE_64 && IsCooperative(node)
    requires base <= elSlot < last < |chain| && chain[elSlot] == Some(el) && chain[last] == Some(cl) && elSlot < guess
    ensures var found := SearchSlotAfter(view, guess, el);
            found.Found? && IsFedExactly(Feed(view, found.slot, el, cl, node, []), el, cl)
            <==> && found.Found? && found.slot <= |view|
                 && AllAtHand(view, chain, elSlot + 1, last) && IsRightStart(view, chain, elSlot, found.slot)
  {
    OvershootLandsAt(view, chain, base, guess, elSlot, el);
    hide Feed, SearchSlotAfter, EmptySlots, NextProposed, IsMissing, IsBeaconChain, IsRightStart, AllAtHand;
    hide IsFedExactly, IsCooperative;
    var found := SearchSlotAfter(view, guess, el);
    if found.Found? {
      FeedsAllExactlyWhenAtHand(view, chain, base, elSlot, found.slot, el, last, cl, node);
    }
  }

  /**
   * Blocks 1, 2 and 3, two empty slots, then blocks 4, 5 and 6: from block 2 the guess overshoots, the jump
   * back lands beyond block 3, and the attempt feeds 4, 5 and 6 without ever sending it.
   */
  lemma OvershootSkipsABlock(node: ElNode)
    requires IsCooperative(node)
    ensures
      var view := [Proposed(1), Proposed(2), Proposed(3), Empty, Empty, Proposed(4), Proposed(5), Proposed(6)];
      SyncResult(view, 2, Some(5), 0, 0, node) == Attempt([4, 5, 6], 5, Reached)
  {
    var view := [Proposed(1), Proposed(2), Proposed(3), Empty, Empty, Proposed(4), Proposed(5), Proposed(6)];
    assert SearchSlotAfter(view, 5, 2) == Found(3);
    assert SearchSlotAfter(view, 3, 2) == Found(3);
    assert Feed(view, 8, 5, 5, node, [4, 5, 6]) == Attempt([4, 5, 6], 5, Reached);
    assert Feed(view, 7, 4, 5, node, [4, 5]) == Attempt([4, 5, 6], 5, Reached);
    assert Feed(view, 6, 3, 5, node, [4]) == Attempt([4, 5, 6], 5, Reached);
    assert Feed(view, 5, 2, 5, node, []) == Attempt([4, 5, 6], 5, Reached);
    assert Feed(view, 3, 2, 5, node, []) == Attempt([4, 5, 6], 5, Reached);
  }

  /**
   * On a chain that starts at slot zero without a merge and has no empty slot, the guess overshoots by one:
   * the attempt starts one block early, with the block the execution layer already has, and ends one short.
   */
  lemma DenseChainIsOneBehind(view: seq<SlotInfo>, chain: seq<Option<uint64>>, el: uint64, cl: uint64, node: ElNode)
    requires Sees(view, chain) && |view| + el < TWO_TO_THE_64
    requires forall s: nat :: s < |chain| ==> chain[s] == Some(s) && view[s] == Proposed(s)
    requires 0 < el && el + 1 < cl < |chain|
    ensures var attempt := SyncResult(view, el, Some(cl), 0, 0, node);
            && CountsFrom(attempt.sent, el)
            && (attempt.outcome == Reached ==> attempt.elBlockNumber == cl && |attempt.sent| == cl - el)
  {
    hide Feed, SearchSlotAfter;
    DenseIsBeaconChain(chain);
    hide IsBeaconChain;
    DenseSearch(view, el);
    FeedsConsecutiveBlocks(view, chain, 0, el - 1, el, el, cl, cl - 1, node, [], el);
  }

  lemma DenseIsBeaconChain(chain: seq<Option<uint64>>)
    requires forall s: nat :: s < |chain| ==> chain[s] == Some(s)
    ensures IsBeaconChain(chain, 0)
  {
    forall s: nat, t: nat | AreAdjacent(chain, s, t)
      ensures t == s + 1
    {
      assert chain[s + 1].Some?;
    }
  }

  lemma DenseSearch(view: seq<SlotInfo>, el: uint64)
    requires 0 < el && el + 1 < |view| && |view| + el < TWO_TO_THE_64 && view[el + 1] == Proposed(el + 1)
    ensures SearchSlotAfter(view, el + 1, el) == Found(el)
  {
  }
}
