/** The promise table of the WebAssembly binding: calls, completions and destruction. */
module PromiseTable {
  import opened Words

  /** Sync intervals are parsed before their promise is resolved; other results are passed on as they are. */
  datatype Kind = Plain | Interval

  /** A completion's body, and the number it parses to, if it does. */
  datatype Body = Body(text: string, number: Option<int>)

  /** What the library answers to a request. */
  datatype Reply = Reply(status: int, body: Body)

  /** How a promise is settled; only the library's errors carry a status. */
  datatype Outcome =
    | Resolved(text: string)
    | ResolvedNumber(number: int)
    | Rejected(message: string, status: Option<int>)

  /**
   * `callbacks` are the entries waiting for a completion, `settled` the outcomes of promises, and `lost` the
   * promises whose completion threw before it could settle them.
   */
  datatype Table = Table(callbacks: map<nat, Kind>, nextId: nat, settled: map<nat, Outcome>, lost: set<nat>)

  const EMPTY := Table(map[], 1, map[], {})

  const DESTROYED := Rejected("proxy destroyed", None)

  const UNPARSABLE := Rejected("unparsable interval", None)

  /** A call may be completed before it has returned; other completions come later, if at all. */
  datatype Event = Issue(kind: Kind, immediate: Option<Reply>) | Complete(id: nat, reply: Reply) | Destroy

  /** What settles the promise of an entry of this kind, unless parsing throws. */
  function OutcomeOf(kind: Kind, reply: Reply): Option<Outcome> {
    if reply.status != 0 then Some(Rejected(reply.body.text, Some(reply.status)))
    else match kind
      case Plain => Some(Resolved(reply.body.text))
      case Interval => if reply.body.number.Some? then Some(ResolvedNumber(reply.body.number.value)) else None
  }

  /** What throws while the promise is still being constructed rejects it. */
  function ImmediateOutcome(kind: Kind, reply: Reply): Outcome {
    var outcome := OutcomeOf(kind, reply);
    if outcome.Some? then outcome.value else UNPARSABLE
  }

  function Apply(table: Table, event: Event): Table {
    match event
    case Issue(kind, immediate) =>
      if immediate.Some? then
        table.(settled := table.settled[table.nextId := ImmediateOutcome(kind, immediate.value)],
            nextId := table.nextId + 1)
      else
        table.(callbacks := table.callbacks[table.nextId := kind], nextId := table.nextId + 1)
    case Complete(id, reply) =>
      if id !in table.callbacks then table else
      var rest := table.(callbacks := table.callbacks - {id});
      var outcome := OutcomeOf(table.callbacks[id], reply);
      if outcome.None? then rest.(lost := rest.lost + {id}) else rest.(settled := rest.settled[id := outcome.value])
    case Destroy =>
      table.(callbacks := map[], settled := table.settled + map id | id in table.callbacks :: DESTROYED)
  }

  function ApplyAll(table: Table, events: seq<Event>): Table
    decreases |events|
  {
    if events == [] then table else Apply(ApplyAll(table, events[..|events| - 1]), events[|events| - 1])
  }

  /** Every id below the next one is waiting, settled or lost, and only one of these. */
  ghost predicate IsPartitioned(table: Table) {
    && 1 <= table.nextId
    && (forall id :: 1 <= id < table.nextId <==> id in table.callbacks || id in table.settled || id in table.lost)
    && table.callbacks.Keys !! table.settled.Keys
    && table.callbacks.Keys !! table.lost
    && table.settled.Keys !! table.lost
  }

  class NimbusVerifiedProxy {
    var callbacks: map<nat, Kind>
    var nextId: nat
    var settled: map<nat, Outcome>
    ghost var lost: set<nat>

    ghost function Contents(): Table
      reads this
    {
      Table(callbacks, nextId, settled, lost)
    }

    constructor ()
      ensures Contents() == EMPTY
    {
      callbacks, nextId, settled, lost := map[], 1, map[], {};
    }

    /** Resolves or rejects a promise that has not been settled before. */
    method Settle(id: nat, outcome: Outcome)
      requires id !in settled
      modifies this`settled
      ensures settled == old(settled)[id := outcome]
    {
      settled := settled[id := outcome];
    }

    /** Constructs the promise of a call; the library may complete it before it returns. */
    method IssueCall(kind: Kind, immediate: Option<Reply>) returns (id: nat)
      requires IsPartitioned(Contents())
      modifies this
      ensures IsPartitioned(Contents()) && Contents() == Apply(old(Contents()), Issue(kind, immediate))
      ensures id !in old(callbacks) && id !in old(settled) && id !in old(lost)
      ensures if immediate.Some? then id in settled else id in callbacks
    {
      id := nextId;
      nextId := nextId + 1;
      callbacks := callbacks[id := kind];
      if immediate.Some? {
        var threw := UnifiedCallback(id, immediate.value);
        if threw {
          lost := lost - {id};
          Settle(id, UNPARSABLE);
        }
      }
    }

    /** The unified callback; it throws when an interval does not parse. */
    method UnifiedCallback(id: nat, reply: Reply) returns (threw: bool)
      requires IsPartitioned(Contents())
      modifies this
      ensures IsPartitioned(Contents()) && Contents() == Apply(old(Contents()), Complete(id, reply))
      ensures threw <==> lost != old(lost)
    {
      if id !in callbacks {
        return false;
      }
      var kind := callbacks[id];
      callbacks := callbacks - {id};
      if reply.status == 0 && kind.Interval? && reply.body.number.None? {
        lost := lost + {id};
        return true;
      }
      Settle(id, OutcomeOf(kind, reply).value);
      return false;
    }

    /** Rejects whatever is still waiting. */
    method DestroyProxy()
      requires IsPartitioned(Contents())
      modifies this
      ensures IsPartitioned(Contents()) && Contents() == Apply(old(Contents()), Destroy)
    {
      var waiting := callbacks.Keys;
      ghost var done: set<nat> := {};
      while waiting != {}
        invariant waiting !! done && waiting + done == callbacks.Keys
        invariant waiting !! settled.Keys
        invariant settled == old(settled) + map id | id in done :: DESTROYED
        invariant callbacks == old(callbacks) && nextId == old(nextId) && lost == old(lost)
        decreases waiting
      {
        var id :| id in waiting;
        Settle(id, DESTROYED);
        waiting, done := waiting - {id}, done + {id};
      }
      callbacks := map[];
      assert settled == Apply(old(Contents()), Destroy).settled;
    }
  }

  // ---------------------------------------------------------------------------------------------
  // Whole runs
  // ---------------------------------------------------------------------------------------------

  /** No later completion of a waiting interval call succeeds with a body that does not parse. */
  predicate AllParse(events: seq<Event>)
    decreases |events|
  {
    events == [] ||
    var earlier := events[..|events| - 1];
    AllParse(earlier) && !IsMalformed(ApplyAll(EMPTY, earlier), events[|events| - 1])
  }

  /** The event is a successful completion of a waiting interval call whose body does not parse. */
  predicate IsMalformed(table: Table, event: Event) {
    event.Complete? && event.id in table.callbacks && OutcomeOf(table.callbacks[event.id], event.reply).None?
  }

  /**
   * In every run of calls, completions, stale completions and destruction each id is fresh, waiting, settled
   * or lost; a settled promise keeps its outcome.
   */
  lemma {:induction false} RunKeepsPartition(events: seq<Event>)
    ensures IsPartitioned(ApplyAll(EMPTY, events))
    ensures forall n: nat :: n <= |events| ==> KeepsSettled(ApplyAll(EMPTY, events[..n]), ApplyAll(EMPTY, events))
    decreases |events|
  {
    if events != [] {
      var earlier := events[..|events| - 1];
      RunKeepsPartition(earlier);
      EventKeepsPartition(ApplyAll(EMPTY, earlier), events[|events| - 1]);
      hide Apply, IsPartitioned;
      forall n: nat | n <= |events|
        ensures KeepsSettled(ApplyAll(EMPTY, events[..n]), ApplyAll(EMPTY, events))
      {
        if n < |events| {
          assert earlier[..n] == events[..n];
        } else {
          assert events[..n] == events;
        }
      }
    }
  }

  lemma EventKeepsPartition(table: Table, event: Event)
    requires IsPartitioned(table)
    ensures IsPartitioned(Apply(table, event)) && KeepsSettled(table, Apply(table, event))
  {
  }

  ghost predicate KeepsSettled(before: Table, after: Table) {
    && before.nextId <= after.nextId
    && before.lost <= after.lost
    && forall id :: id in before.settled ==> id in after.settled && after.settled[id] == before.settled[id]
  }

  /**
   * After a destruction every promise issued before it is settled, if and only if no successful later
   * completion of an interval call has failed to parse: such a promise is neither waiting nor ever settled.
   */
  lemma DestroySettlesAll(events: seq<Event>)
    ensures var before := ApplyAll(EMPTY, events);
            (forall id :: 1 <= id < before.nextId ==> id in Apply(before, Destroy).settled) <==> AllParse(events)
  {
    RunKeepsPartition(events);
    LostIsMalformed(events);
    var before := ApplyAll(EMPTY, events);
    hide ApplyAll, AllParse;
    forall id | id in before.lost
      ensures 1 <= id < before.nextId && id !in Apply(before, Destroy).settled
    {
    }
  }

  /** An interval result that does not parse leaves its promise unsettled for ever. */
  lemma MalformedIntervalIsLost(text: string)
    ensures var events := [Issue(Interval, None), Complete(1, Reply(0, Body(text, None)))];
            1 !in Apply(ApplyAll(EMPTY, events), Destroy).settled
  {
    var events := [Issue(Interval, None), Complete(1, Reply(0, Body(text, None)))];
    assert events[..1] == [Issue(Interval, None)];
    assert ApplyAll(EMPTY, events[..1]) == Apply(EMPTY, Issue(Interval, None));
  }

  lemma {:induction false} LostIsMalformed(events: seq<Event>)
    ensures ApplyAll(EMPTY, events).lost == {} <==> AllParse(events)
    decreases |events|
  {
    if events != [] {
      LostIsMalformed(events[..|events| - 1]);
    }
  }

  // ---------------------------------------------------------------------------------------------
  // What each promise is settled with
  // ---------------------------------------------------------------------------------------------

  function Issues(events: seq<Event>): nat
    decreases |events|
  {
    if events == [] then 0
    else Issues(events[..|events| - 1]) + if events[|events| - 1].Issue? then 1 else 0
  }

  /** Ids are given in the order of the calls, starting with one. */
  lemma {:induction false} NextIdCountsIssues(events: seq<Event>)
    ensures ApplyAll(EMPTY, events).nextId == Issues(events) + 1
    decreases |events|
  {
    if events != [] {
      NextIdCountsIssues(events[..|events| - 1]);
    }
  }

  /** The event completes this promise or destroys the proxy. */
  predicate Decides(event: Event, id: nat) {
    event.Destroy? || (event.Complete? && event.id == id)
  }

  /** Nothing in `(p, q)` completes the promise or destroys the proxy. */
  ghost predicate IsUndecided(events: seq<Event>, p: nat, q: nat, id: nat)
    requires q <= |events|
  {
    forall i :: p < i < q ==> !Decides(events[i], id)
  }

  /** Until then the promise waits. */
  lemma {:induction false} UndecidedWaits(events: seq<Event>, p: nat, q: nat)
    requires p < q <= |events| && events[p].Issue? && events[p].immediate.None?
    requires IsUndecided(events, p, q, Issues(events[..p]) + 1)
    ensures var id, table := Issues(events[..p]) + 1, ApplyAll(EMPTY, events[..q]);
            id in table.callbacks && table.callbacks[id] == events[p].kind
    decreases q
  {
    var id := Issues(events[..p]) + 1;
    assert events[..q][..q - 1] == events[..q - 1];
    NextIdCountsIssues(events[..q - 1]);
    if p + 1 < q {
      UndecidedWaits(events, p, q - 1);
      RunKeepsPartition(events[..q - 1]);
    }
  }

  lemma SettledStays(events: seq<Event>, q: nat, id: nat)
    requires q <= |events| && id in ApplyAll(EMPTY, events[..q]).settled
    ensures id in ApplyAll(EMPTY, events).settled
    ensures ApplyAll(EMPTY, events).settled[id] == ApplyAll(EMPTY, events[..q]).settled[id]
  {
    RunKeepsPartition(events);
    assert KeepsSettled(ApplyAll(EMPTY, events[..q]), ApplyAll(EMPTY, events));
  }

  lemma OneEventMore(events: seq<Event>, q: nat)
    requires q < |events|
    ensures ApplyAll(EMPTY, events[..q + 1]) == Apply(ApplyAll(EMPTY, events[..q]), events[q])
  {
    assert events[..q + 1][..q] == events[..q];
  }

  lemma DecidedBy(events: seq<Event>, p: nat, q: nat)
    requires p < q < |events| && events[p].Issue? && events[p].immediate.None?
    requires IsUndecided(events, p, q, Issues(events[..p]) + 1) && Decides(events[q], Issues(events[..p]) + 1)
    ensures var id, before := Issues(events[..p]) + 1, ApplyAll(EMPTY, events[..q]);
            && id in before.callbacks && before.callbacks[id] == events[p].kind
            && (id in Apply(before, events[q]).settled ==>
                  && id in ApplyAll(EMPTY, events).settled
                  && ApplyAll(EMPTY, events).settled[id] == Apply(before, events[q]).settled[id])
  {
    hide Apply, ApplyAll, Issues, IsUndecided;
    var id := Issues(events[..p]) + 1;
    UndecidedWaits(events, p, q);
    OneEventMore(events, q);
    if id in ApplyAll(EMPTY, events[..q + 1]).settled {
      SettledStays(events, q + 1, id);
    }
  }

  /**
   * In every run, by the events alone: a call completed before any destruction is rejected with the body and the
   * status if the status is not zero; otherwise it resolves with the body, or an interval call with the number
   * the body parses to.
   */
  lemma FirstCompletionDecides(events: seq<Event>, p: nat, q: nat)
    requires p < q < |events| && events[p].Issue? && events[p].immediate.None?
    requires var id := Issues(events[..p]) + 1;
             IsUndecided(events, p, q, id) && events[q].Complete? && events[q].id == id
    ensures var id, body, status := Issues(events[..p]) + 1, events[q].reply.body, events[q].reply.status;
            var settled := ApplyAll(EMPTY, events).settled;
            && (status != 0 ==> id in settled && settled[id] == Rejected(body.text, Some(status)))
            && (status == 0 && events[p].kind == Plain ==> id in settled && settled[id] == Resolved(body.text))
            && (status == 0 && events[p].kind == Interval && body.number.Some? ==>
                  id in settled && settled[id] == ResolvedNumber(body.number.value))
  {
    hide ApplyAll, Issues, IsUndecided;
    DecidedBy(events, p, q);
  }

  /** A call that is still waiting when the proxy is destroyed is rejected as destroyed. */
  lemma DestructionRejects(events: seq<Event>, p: nat, q: nat)
    requires p < q < |events| && events[p].Issue? && events[p].immediate.None?
    requires IsUndecided(events, p, q, Issues(events[..p]) + 1) && events[q].Destroy?
    ensures var id, settled := Issues(events[..p]) + 1, ApplyAll(EMPTY, events).settled;
            id in settled && settled[id] == Rejected("proxy destroyed", None)
  {
    hide ApplyAll, Issues, IsUndecided;
    DecidedBy(events, p, q);
  }

  /** A call completed before it returns is settled in the same way; one that does not parse is rejected. */
  lemma ImmediateCompletionDecides(events: seq<Event>, p: nat)
    requires p < |events| && events[p].Issue? && events[p].immediate.Some?
    ensures var id := Issues(events[..p]) + 1;
            var body, status := events[p].immediate.value.body, events[p].immediate.value.status;
            var settled := ApplyAll(EMPTY, events).settled;
            && id in settled
            && (status != 0 ==> settled[id] == Rejected(body.text, Some(status)))
            && (status == 0 && events[p].kind == Plain ==> settled[id] == Resolved(body.text))
            && (status == 0 && events[p].kind == Interval && body.number.Some? ==>
                  settled[id] == ResolvedNumber(body.number.value))
            && (status == 0 && events[p].kind == Interval && body.number.None? ==> settled[id].Rejected?)
  {
    NextIdCountsIssues(events[..p]);
    OneEventMore(events, p);
    hide ApplyAll, Issues;
    SettledStays(events, p + 1, Issues(events[..p]) + 1);
  }
}
