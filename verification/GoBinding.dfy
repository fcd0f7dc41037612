/** Request routing in the Go binding: callers, the event loop, and callbacks, in any interleaving. */
module GoBinding {
  import opened Words

  datatype CallKind = CallRpc | CallEthSync | CallEthSyncInterval | CallOpSync | CallOpSyncInterval

  datatype Request = Request(kind: CallKind, name: string, params: string)

  /** The library's answer; status zero is success. */
  datatype Result = Result(status: int, response: string)

  /** An answer in a result channel, with the handle it was called back for. */
  datatype Delivery = Delivery(handle: nat, result: Result)

  /** A caller first hands its task over, then waits for its result or a timeout. */
  datatype Phase = Sending | Waiting | Answered(delivery: Delivery) | TimedOut

  datatype Call = Call(request: Request, phase: Phase)

  /** What travels through the task channel; the call stands for its own result channel. */
  datatype Task = Task(call: nat, request: Request)

  const TASK_CAPACITY := 64
  const RESULT_CAPACITY := 1
  const STOP_CAPACITY := 1

  /**
   * `handles` are the live handles with the call whose channel they hold. `dispatched` and `answered` record
   * what the library has been asked and what it has called back.
   */
  datatype State = State(
    calls: map<nat, Call>,
    tasks: seq<Task>,
    channels: map<nat, seq<Delivery>>,
    handles: map<nat, nat>,
    dispatched: map<nat, Task>,
    answered: map<nat, Result>,
    stops: nat,
    running: bool)

  const INITIAL := State(map[], [], map[], map[], map[], map[], 0, true)

  /** The atomic steps of callers, event loop and library. */
  datatype Step =
    | Begin(call: nat, request: Request)
    | Send(call: nat)
    | Receive(call: nat)
    | Timeout(call: nat)
    | Stop
    | Dispatch(handle: nat)
    | Callback(handle: nat, result: Result)
    | HandleStop

  /** When a step can happen. The library calls back on the event loop's thread, at most once for each handle. */
  predicate IsEnabled(s: State, step: Step) {
    match step
    case Begin(call, request) => call !in s.calls
    case Send(call) => call in s.calls && s.calls[call].phase.Sending? && |s.tasks| < TASK_CAPACITY
    case Receive(call) => call in s.calls && s.calls[call].phase.Waiting? && call in s.channels
        && s.channels[call] != []
    case Timeout(call) => call in s.calls && s.calls[call].phase.Waiting?
    case Stop => s.stops < STOP_CAPACITY
    case Dispatch(handle) => s.running && s.tasks != [] && handle !in s.dispatched
    case Callback(handle, result) => MayCallBack(s, handle) && !WouldBlock(s, handle)
    case HandleStop => s.running && 0 < s.stops
  }

  /** The library may call back a request it was asked and has not answered. */
  predicate MayCallBack(s: State, handle: nat) {
    s.running && handle in s.dispatched && handle !in s.answered
  }

  /** The event loop would wait in the callback: its handle is gone, or the result channel is full. */
  predicate WouldBlock(s: State, handle: nat) {
    handle !in s.handles || s.handles[handle] !in s.channels || RESULT_CAPACITY <= |s.channels[s.handles[handle]]|
  }

  function Apply(s: State, step: Step): State
    requires IsEnabled(s, step)
  {
    match step
    case Begin(call, request) =>
      s.(calls := s.calls[call := Call(request, Sending)], channels := s.channels[call := []])
    case Send(call) =>
      s.(calls := s.calls[call := s.calls[call].(phase := Waiting)],
          tasks := s.tasks + [Task(call, s.calls[call].request)])
    case Receive(call) =>
      s.(calls := s.calls[call := s.calls[call].(phase := Answered(s.channels[call][0]))],
         channels := s.channels[call := s.channels[call][1..]])
    case Timeout(call) =>
      s.(calls := s.calls[call := s.calls[call].(phase := TimedOut)])
    case Stop =>
      s.(stops := s.stops + 1)
    case Dispatch(handle) =>
      s.(tasks := s.tasks[1..], handles := s.handles[handle := s.tasks[0].call],
          dispatched := s.dispatched[handle := s.tasks[0]])
    case Callback(handle, result) =>
      var call := s.handles[handle];
      s.(channels := s.channels[call := s.channels[call] + [Delivery(handle, result)]],
         handles := s.handles - {handle},
         answered := s.answered[handle := result])
    case HandleStop =>
      s.(running := false, stops := s.stops - 1)
  }

  predicate IsRun(s: State, steps: seq<Step>)
    decreases |steps|
  {
    steps == [] || (IsEnabled(s, steps[0]) && IsRun(Apply(s, steps[0]), steps[1..]))
  }

  function After(s: State, steps: seq<Step>): State
    requires IsRun(s, steps)
    decreases |steps|
  {
    if steps == [] then s else After(Apply(s, steps[0]), steps[1..])
  }

  // ---------------------------------------------------------------------------------------------
  // The invariant
  // ---------------------------------------------------------------------------------------------

  /** No call's task is anywhere twice. */
  ghost predicate TasksAreUnique(tasks: seq<Task>, dispatched: map<nat, Task>) {
    && (forall i, j :: 0 <= i < j < |tasks| ==> tasks[i].call != tasks[j].call)
    && (forall i, h :: 0 <= i < |tasks| && h in dispatched ==> tasks[i].call != dispatched[h].call)
    && (forall g, h :: g in dispatched && h in dispatched && g != h ==> dispatched[g].call != dispatched[h].call)
  }

  /** A task carries the request of a call that has handed it over. */
  ghost predicate IsHandedOver(calls: map<nat, Call>, task: Task) {
    task.call in calls && task.request == calls[task.call].request && !calls[task.call].phase.Sending?
  }

  ghost predicate TasksMatchCalls(calls: map<nat, Call>, tasks: seq<Task>, dispatched: map<nat, Task>) {
    && (forall i :: 0 <= i < |tasks| ==> IsHandedOver(calls, tasks[i]))
    && (forall h :: h in dispatched ==> IsHandedOver(calls, dispatched[h]))
  }

  /** The live handles are those dispatched and not called back, each holding its own call's channel. */
  ghost predicate HandlesMatch(handles: map<nat, nat>, dispatched: map<nat, Task>, answered: map<nat, Result>) {
    && answered.Keys <= dispatched.Keys
    && handles.Keys == dispatched.Keys - answered.Keys
    && (forall h :: h in handles ==> handles[h] == dispatched[h].call)
  }

  /** An answer belongs to the call whose task was dispatched with its handle. */
  ghost predicate IsAnswerTo(dispatched: map<nat, Task>, answered: map<nat, Result>, call: nat, delivery: Delivery) {
    && delivery.handle in dispatched && dispatched[delivery.handle].call == call
    && delivery.handle in answered && answered[delivery.handle] == delivery.result
  }

  /** A channel holds at most one answer, to its own call. */
  ghost predicate ChannelsMatch(
      channels: map<nat, seq<Delivery>>, dispatched: map<nat, Task>, answered: map<nat, Result>) {
    forall c :: c in channels && channels[c] != [] ==>
      |channels[c]| == 1 && IsAnswerTo(dispatched, answered, c, channels[c][0])
  }

  /** A channel whose answer is due is empty. */
  ghost predicate DueChannelsAreEmpty(handles: map<nat, nat>, channels: map<nat, seq<Delivery>>) {
    forall h :: h in handles ==> handles[h] in channels && channels[handles[h]] == []
  }

  /** A call that has returned an answer has returned its own. */
  ghost predicate OutcomesMatch(calls: map<nat, Call>, dispatched: map<nat, Task>, answered: map<nat, Result>) {
    forall c :: c in calls && calls[c].phase.Answered? ==> IsAnswerTo(dispatched, answered, c, calls[c].phase.delivery)
  }

  ghost predicate Invariant(s: State) {
    && s.channels.Keys == s.calls.Keys
    && TasksAreUnique(s.tasks, s.dispatched)
    && TasksMatchCalls(s.calls, s.tasks, s.dispatched)
    && HandlesMatch(s.handles, s.dispatched, s.answered)
    && ChannelsMatch(s.channels, s.dispatched, s.answered)
    && DueChannelsAreEmpty(s.handles, s.channels)
    && OutcomesMatch(s.calls, s.dispatched, s.answered)
    && |s.tasks| <= TASK_CAPACITY && s.stops <= STOP_CAPACITY
  }

  lemma BeginKeepsInvariant(s: State, step: Step)
    requires Invariant(s) && IsEnabled(s, step) && step.Begin?
    ensures Invariant(Apply(s, step))
  {
    hide TasksAreUnique, HandlesMatch, IsAnswerTo;
  }

  lemma ReceiveKeepsInvariant(s: State, step: Step)
    requires Invariant(s) && IsEnabled(s, step) && step.Receive?
    ensures Invariant(Apply(s, step))
  {
    hide TasksAreUnique, HandlesMatch, IsAnswerTo;
    assert |s.channels[step.call]| == 1 && IsAnswerTo(s.dispatched, s.answered, step.call, s.channels[step.call][0]);
  }

  lemma TimeoutKeepsInvariant(s: State, step: Step)
    requires Invariant(s) && IsEnabled(s, step) && step.Timeout?
    ensures Invariant(Apply(s, step))
  {
    hide TasksAreUnique, HandlesMatch, ChannelsMatch, DueChannelsAreEmpty, IsAnswerTo;
  }

  lemma SendKeepsInvariant(s: State, step: Step)
    requires Invariant(s) && IsEnabled(s, step) && step.Send?
    ensures Invariant(Apply(s, step))
  {
    hide HandlesMatch, ChannelsMatch, DueChannelsAreEmpty, IsAnswerTo;
    var task := Task(step.call, s.calls[step.call].request);
    TaskIsNew(s.calls, s.tasks, s.dispatched, task);
  }

  lemma TaskIsNew(calls: map<nat, Call>, tasks: seq<Task>, dispatched: map<nat, Task>, task: Task)
    requires TasksAreUnique(tasks, dispatched) && TasksMatchCalls(calls, tasks, dispatched)
    requires task.call in calls && calls[task.call].phase.Sending?
    ensures TasksAreUnique(tasks + [task], dispatched)
  {
  }

  lemma DispatchKeepsInvariant(s: State, step: Step)
    requires Invariant(s) && IsEnabled(s, step) && step.Dispatch?
    ensures Invariant(Apply(s, step))
  {
    ChannelIsEmpty(s, s.tasks[0].call);
    hide TasksAreUnique, TasksMatchCalls, HandlesMatch, ChannelsMatch, DueChannelsAreEmpty, OutcomesMatch;
    var task := s.tasks[0];
    TaskMoves(s.tasks, s.dispatched, step.handle);
    TaskStillMatches(s.calls, s.tasks, s.dispatched, step.handle);
    DispatchKeepsAnswers(s, step.handle, task);
    DispatchKeepsHandles(s, step.handle, task);
  }

  lemma TaskStillMatches(calls: map<nat, Call>, tasks: seq<Task>, dispatched: map<nat, Task>, handle: nat)
    requires TasksMatchCalls(calls, tasks, dispatched) && tasks != []
    ensures TasksMatchCalls(calls, tasks[1..], dispatched[handle := tasks[0]])
  {
    hide IsHandedOver;
  }

  lemma DispatchKeepsAnswers(s: State, handle: nat, task: Task)
    requires ChannelsMatch(s.channels, s.dispatched, s.answered) && OutcomesMatch(s.calls, s.dispatched, s.answered)
    requires handle !in s.dispatched
    ensures ChannelsMatch(s.channels, s.dispatched[handle := task], s.answered)
    ensures OutcomesMatch(s.calls, s.dispatched[handle := task], s.answered)
  {
  }

  lemma DispatchKeepsHandles(s: State, handle: nat, task: Task)
    requires HandlesMatch(s.handles, s.dispatched, s.answered) && DueChannelsAreEmpty(s.handles, s.channels)
    requires handle !in s.dispatched && task.call in s.channels && s.channels[task.call] == []
    ensures HandlesMatch(s.handles[handle := task.call], s.dispatched[handle := task], s.answered)
    ensures DueChannelsAreEmpty(s.handles[handle := task.call], s.channels)
  {
  }

  lemma TaskMoves(tasks: seq<Task>, dispatched: map<nat, Task>, handle: nat)
    requires TasksAreUnique(tasks, dispatched) && tasks != [] && handle !in dispatched
    ensures TasksAreUnique(tasks[1..], dispatched[handle := tasks[0]])
  {
  }

  lemma ChannelIsEmpty(s: State, call: nat)
    requires Invariant(s) && s.tasks != [] && s.tasks[0].call == call
    ensures call in s.channels && s.channels[call] == []
  {
  }

  lemma CallbackKeepsInvariant(s: State, step: Step)
    requires Invariant(s) && IsEnabled(s, step) && step.Callback?
    ensures Invariant(Apply(s, step))
  {
    hide TasksAreUnique, TasksMatchCalls, HandlesMatch, ChannelsMatch, DueChannelsAreEmpty, OutcomesMatch;
    OutcomesKeep(s.calls, s.dispatched, s.answered, step.handle, step.result);
    HandleIsReleased(s, step.handle, step.result);
    ChannelIsFilled(s, step.handle, step.result);
    OtherChannelsAreDue(s, step.handle, Delivery(step.handle, step.result));
  }

  lemma HandleIsReleased(s: State, handle: nat, result: Result)
    requires HandlesMatch(s.handles, s.dispatched, s.answered) && handle in s.handles
    ensures HandlesMatch(s.handles - {handle}, s.dispatched, s.answered[handle := result])
  {
  }

  lemma ChannelIsFilled(s: State, handle: nat, result: Result)
    requires HandlesMatch(s.handles, s.dispatched, s.answered) && ChannelsMatch(s.channels, s.dispatched, s.answered)
    requires handle in s.handles && handle !in s.answered
    requires DueChannelsAreEmpty(s.handles, s.channels)
    ensures var call := s.handles[handle];
            ChannelsMatch(s.channels[call := s.channels[call] + [Delivery(handle, result)]], s.dispatched,
                          s.answered[handle := result])
  {
  }

  /** No other handle waits for this channel, since no call's task is dispatched twice. */
  lemma OtherChannelsAreDue(s: State, handle: nat, delivery: Delivery)
    requires TasksAreUnique(s.tasks, s.dispatched) && HandlesMatch(s.handles, s.dispatched, s.answered)
    requires DueChannelsAreEmpty(s.handles, s.channels) && handle in s.handles
    ensures var call := s.handles[handle];
            DueChannelsAreEmpty(s.handles - {handle}, s.channels[call := s.channels[call] + [delivery]])
  {
  }

  lemma OutcomesKeep(
      calls: map<nat, Call>, dispatched: map<nat, Task>, answered: map<nat, Result>, handle: nat, result: Result)
    requires OutcomesMatch(calls, dispatched, answered) && handle !in answered
    ensures OutcomesMatch(calls, dispatched, answered[handle := result])
  {
  }

  /** Every step of any caller, of the event loop or of the library keeps the invariant. */
  lemma StepKeepsInvariant(s: State, step: Step)
    requires Invariant(s) && IsEnabled(s, step)
    ensures Invariant(Apply(s, step))
  {
    match step
    case Begin(_, _) => BeginKeepsInvariant(s, step);
    case Receive(_) => ReceiveKeepsInvariant(s, step);
    case Timeout(_) => TimeoutKeepsInvariant(s, step);
    case Send(_) => SendKeepsInvariant(s, step);
    case Dispatch(_) => DispatchKeepsInvariant(s, step);
    case Callback(_, _) => CallbackKeepsInvariant(s, step);
    case Stop =>
    case HandleStop =>
  }

  lemma {:induction false} RunKeepsInvariant(s: State, steps: seq<Step>)
    requires Invariant(s) && IsRun(s, steps)
    ensures Invariant(After(s, steps))
    decreases |steps|
  {
    if steps != [] {
      StepKeepsInvariant(s, steps[0]);
      RunKeepsInvariant(Apply(s, steps[0]), steps[1..]);
    }
  }

  // ---------------------------------------------------------------------------------------------
  // Routing
  // ---------------------------------------------------------------------------------------------

  /** The calls in the order in which they have handed their tasks over. */
  function Sends(steps: seq<Step>): seq<nat>
    decreases |steps|
  {
    if steps == [] then [] else
    var last := steps[|steps| - 1];
    Sends(steps[..|steps| - 1]) + if last.Send? then [last.call] else []
  }

  /** The handles in the order in which requests were dispatched. */
  function Dispatches(steps: seq<Step>): seq<nat>
    decreases |steps|
  {
    if steps == [] then [] else
    var last := steps[|steps| - 1];
    Dispatches(steps[..|steps| - 1]) + if last.Dispatch? then [last.handle] else []
  }

  /** The library was asked under this handle for this call: first come, first served. */
  ghost predicate IsAskedFor(steps: seq<Step>, handle: nat, call: nat) {
    exists i: nat :: i < |Dispatches(steps)| && i < |Sends(steps)| && Dispatches(steps)[i] == handle
        && Sends(steps)[i] == call
  }

  /** The library has answered the call's request with this result, under the handle it was asked with. */
  ghost predicate IsAnsweredBy(steps: seq<Step>, call: nat, delivery: Delivery) {
    exists k: nat :: k < |steps| && steps[k] == Callback(delivery.handle, delivery.result)
                     && IsAskedFor(steps[..k], delivery.handle, call)
  }

  /** What the recorded state says of the steps that led to it. */
  ghost predicate Records(s: State, steps: seq<Step>) {
    && (forall c :: c in s.calls ==> Begin(c, s.calls[c].request) in steps)
    && |Dispatches(steps)| + |s.tasks| == |Sends(steps)|
    && (forall i :: 0 <= i < |s.tasks| ==> s.tasks[i].call == Sends(steps)[|Dispatches(steps)| + i])
    && (forall h :: h in s.dispatched ==> IsAskedFor(steps, h, s.dispatched[h].call))
    && (forall h :: h in s.answered ==>
          h in s.dispatched && IsAnsweredBy(steps, s.dispatched[h].call, Delivery(h, s.answered[h])))
  }

  lemma {:induction false} RunSplits(s: State, steps: seq<Step>)
    requires IsRun(s, steps) && steps != []
    ensures var earlier, last := steps[..|steps| - 1], steps[|steps| - 1];
            && IsRun(s, earlier) && IsEnabled(After(s, earlier), last)
            && After(s, steps) == Apply(After(s, earlier), last)
    decreases |steps|
  {
    hide Apply, IsEnabled;
    if |steps| > 1 {
      RunSplits(Apply(s, steps[0]), steps[1..]);
      assert steps[1..][..|steps| - 2] == steps[..|steps| - 1][1..];
    } else {
      assert After(Apply(s, steps[0]), steps[1..]) == Apply(s, steps[0]);
    }
  }

  lemma StepsExtend(steps: seq<Step>, step: Step)
    ensures Sends(steps + [step]) == Sends(steps) + if step.Send? then [step.call] else []
    ensures Dispatches(steps + [step]) == Dispatches(steps) + if step.Dispatch? then [step.handle] else []
    ensures forall h, c :: IsAskedFor(steps, h, c) ==> IsAskedFor(steps + [step], h, c)
    ensures forall c, d :: IsAnsweredBy(steps, c, d) ==> IsAnsweredBy(steps + [step], c, d)
  {
    assert (steps + [step])[..|steps|] == steps;
    forall h, c | IsAskedFor(steps, h, c)
      ensures IsAskedFor(steps + [step], h, c)
    {
      var i: nat :| i < |Dispatches(steps)| && i < |Sends(steps)| && Dispatches(steps)[i] == h && Sends(steps)[i] == c;
      assert Dispatches(steps + [step])[i] == h && Sends(steps + [step])[i] == c;
    }
    forall c, d | IsAnsweredBy(steps, c, d)
      ensures IsAnsweredBy(steps + [step], c, d)
    {
      var k: nat :| k < |steps| && steps[k] == Callback(d.handle, d.result) && IsAskedFor(steps[..k], d.handle, c);
      assert (steps + [step])[..k] == steps[..k];
    }
  }

  lemma DispatchIsRecorded(s: State, steps: seq<Step>, handle: nat)
    requires Records(s, steps) && s.tasks != []
    ensures IsAskedFor(steps + [Dispatch(handle)], handle, s.tasks[0].call)
  {
    StepsExtend(steps, Dispatch(handle));
    var i := |Dispatches(steps)|;
    assert Dispatches(steps + [Dispatch(handle)])[i] == handle
        && Sends(steps + [Dispatch(handle)])[i] == s.tasks[0].call;
  }

  lemma CallbackIsRecorded(s: State, steps: seq<Step>, handle: nat, result: Result)
    requires Records(s, steps) && handle in s.dispatched
    ensures IsAnsweredBy(steps + [Callback(handle, result)], s.dispatched[handle].call, Delivery(handle, result))
  {
    var more := steps + [Callback(handle, result)];
    assert more[..|steps|] == steps && more[|steps|] == Callback(handle, result);
  }

  lemma StepIsRecorded(s: State, steps: seq<Step>, step: Step)
    requires Records(s, steps) && IsEnabled(s, step)
    ensures Records(Apply(s, step), steps + [step])
  {
    StepsExtend(steps, step);
    hide Sends, Dispatches, IsAskedFor, IsAnsweredBy;
    match step
    case Begin(call, request) => assert (steps + [step])[|steps|] == step;
    case Dispatch(handle) => DispatchIsRecorded(s, steps, handle);
    case Callback(handle, result) => CallbackIsRecorded(s, steps, handle, result);
    case _ =>
  }

  lemma {:induction false} RunIsRecorded(steps: seq<Step>)
    requires IsRun(INITIAL, steps)
    ensures Records(After(INITIAL, steps), steps)
    decreases |steps|
  {
    hide Apply, IsEnabled;
    if steps != [] {
      hide Records;
      RunSplits(INITIAL, steps);
      RunIsRecorded(steps[..|steps| - 1]);
      StepIsRecorded(After(INITIAL, steps[..|steps| - 1]), steps[..|steps| - 1], steps[|steps| - 1]);
      assert steps[..|steps| - 1] + [steps[|steps| - 1]] == steps;
    }
  }

  /**
   * In every run, whatever the interleaving, a call that returns an answer has begun with the request the
   * library was given for it, and returns the very result with which the library has called back the handle it
   * was asked with; tasks are dispatched in the order in which they were handed over.
   */
  lemma CallReturnsItsOwnResult(steps: seq<Step>, call: nat)
    requires IsRun(INITIAL, steps) && call in After(INITIAL, steps).calls
    requires After(INITIAL, steps).calls[call].phase.Answered?
    ensures var s := After(INITIAL, steps);
            var delivery := s.calls[call].phase.delivery;
            && Begin(call, s.calls[call].request) in steps
            && delivery.handle in s.dispatched && s.dispatched[delivery.handle] == Task(call, s.calls[call].request)
            && IsAnsweredBy(steps, call, delivery)
  {
    RunKeepsInvariant(INITIAL, steps);
    RunIsRecorded(steps);
    var s := After(INITIAL, steps);
    var delivery := s.calls[call].phase.delivery;
    hide Sends, Dispatches, IsAskedFor, IsAnsweredBy;
    assert IsAnswerTo(s.dispatched, s.answered, call, delivery);
    assert IsHandedOver(s.calls, s.dispatched[delivery.handle]);
  }

  /** What a call gives its caller: an answer whose status is not zero is an error with the answer as its message. */
  datatype Return = Success(response: string) | Failure(message: string)

  function ReturnOf(phase: Phase): Return
    requires phase.Answered? || phase.TimedOut?
  {
    match phase
    case Answered(delivery) =>
      if delivery.result.status == 0 then Success(delivery.result.response) else Failure(delivery.result.response)
    case TimedOut => Failure("request timed out")
  }

  /**
   * In every run, a success is a response the library gave this call with status zero; an error is its own, or
   * a timeout.
   */
  lemma CallerSeesTheLibrarysAnswer(steps: seq<Step>, call: nat)
    requires IsRun(INITIAL, steps) && HasReturned(After(INITIAL, steps), call)
    ensures var phase := After(INITIAL, steps).calls[call].phase;
            var returned := ReturnOf(phase);
            && (returned.Success? ==>
                  exists handle :: IsAnsweredBy(steps, call, Delivery(handle, Result(0, returned.response))))
            && (returned.Failure? ==>
                  || (phase.TimedOut? && returned.message == "request timed out")
                  || exists handle, status ::
                       status != 0 && IsAnsweredBy(steps, call, Delivery(handle, Result(status, returned.message))))
  {
    hide IsAnsweredBy, IsRun, After;
    var phase := After(INITIAL, steps).calls[call].phase;
    if phase.Answered? {
      CallReturnsItsOwnResult(steps, call);
      assert phase.delivery == Delivery(phase.delivery.handle,
                                        Result(phase.delivery.result.status, phase.delivery.result.response));
    }
  }

  /** An answer the library has given waits in its call's channel, or the call has returned it. */
  ghost predicate AnswersAreKept(s: State) {
    forall h :: h in s.answered ==>
      && h in s.dispatched && s.dispatched[h].call in s.calls && s.dispatched[h].call in s.channels
      && var call := s.dispatched[h].call;
         || s.channels[call] == [Delivery(h, s.answered[h])]
         || s.calls[call].phase == Answered(Delivery(h, s.answered[h]))
  }

  lemma StepKeepsAnswers(s: State, step: Step)
    requires Invariant(s) && AnswersAreKept(s) && IsEnabled(s, step)
    ensures AnswersAreKept(Apply(s, step))
  {
    hide TasksAreUnique, TasksMatchCalls, HandlesMatch, ChannelsMatch, DueChannelsAreEmpty, OutcomesMatch;
    match step
    case Callback(handle, result) => CallbackKeepsAnswers(s, step);
    case Dispatch(handle) => DispatchKeepsKept(s, step);
    case Receive(call) => ReceiveKeepsAnswers(s, step);
    case _ =>
  }

  lemma DispatchKeepsKept(s: State, step: Step)
    requires Invariant(s) && AnswersAreKept(s) && IsEnabled(s, step) && step.Dispatch?
    ensures AnswersAreKept(Apply(s, step))
  {
    hide TasksAreUnique, TasksMatchCalls, ChannelsMatch, DueChannelsAreEmpty, OutcomesMatch;
  }

  lemma ReceiveKeepsAnswers(s: State, step: Step)
    requires AnswersAreKept(s) && IsEnabled(s, step) && step.Receive?
    ensures AnswersAreKept(Apply(s, step))
  {
  }

  lemma CallbackKeepsAnswers(s: State, step: Step)
    requires Invariant(s) && AnswersAreKept(s) && IsEnabled(s, step) && step.Callback?
    ensures AnswersAreKept(Apply(s, step))
  {
    hide TasksMatchCalls, ChannelsMatch, OutcomesMatch;
    assert forall h :: h in s.answered ==> s.dispatched[h].call != s.dispatched[step.handle].call;
  }

  lemma {:induction false} RunKeepsAnswers(s: State, steps: seq<Step>)
    requires Invariant(s) && AnswersAreKept(s) && IsRun(s, steps)
    ensures AnswersAreKept(After(s, steps))
    decreases |steps|
  {
    hide Invariant, AnswersAreKept, Apply, IsEnabled;
    if steps != [] {
      StepKeepsInvariant(s, steps[0]);
      StepKeepsAnswers(s, steps[0]);
      RunKeepsAnswers(Apply(s, steps[0]), steps[1..]);
    }
  }

  /**
   * So no answer is lost: in every run a call that still waits after its request was called back can receive
   * the answer.
   */
  lemma AnsweredCallCanReceive(steps: seq<Step>, handle: nat)
    requires IsRun(INITIAL, steps)
    requires var s := After(INITIAL, steps);
             && handle in s.answered && handle in s.dispatched && s.dispatched[handle].call in s.calls
             && s.calls[s.dispatched[handle].call].phase.Waiting?
    ensures var s := After(INITIAL, steps);
            var call := s.dispatched[handle].call;
            && IsEnabled(s, Receive(call))
            && Apply(s, Receive(call)).calls[call].phase == Answered(Delivery(handle, s.answered[handle]))
  {
    hide After, IsRun;
    RunKeepsAnswers(INITIAL, steps);
  }

  /**
   * In every run the event loop never waits in a callback: the handle is live and the channel has room,
   * also when the caller has timed out long before.
   */
  lemma CallbackNeverBlocks(steps: seq<Step>, handle: nat)
    requires IsRun(INITIAL, steps) && MayCallBack(After(INITIAL, steps), handle)
    ensures !WouldBlock(After(INITIAL, steps), handle)
  {
    RunKeepsInvariant(INITIAL, steps);
    var s := After(INITIAL, steps);
    assert handle in s.handles && s.channels[s.handles[handle]] == [];
  }

  /** In every run the live handles are exactly the dispatched requests not yet called back. */
  lemma LiveHandlesArePendingRequests(steps: seq<Step>)
    requires IsRun(INITIAL, steps)
    ensures var s := After(INITIAL, steps);
            && (forall h :: h in s.handles <==> h in s.dispatched && h !in s.answered)
            && |s.handles| == |s.dispatched| - |s.answered|
  {
    RunKeepsInvariant(INITIAL, steps);
    var s := After(INITIAL, steps);
    hide After, TasksAreUnique, TasksMatchCalls, ChannelsMatch, DueChannelsAreEmpty, OutcomesMatch;
    SizesAdd(s.dispatched.Keys, s.handles.Keys, s.answered.Keys);
  }

  lemma SizesAdd<T>(whole: set<T>, a: set<T>, b: set<T>)
    requires b <= whole && a == whole - b
    ensures |a| == |whole| - |b|
  {
    assert whole == a + b;
  }

  /** A call returns once: what it has returned never changes, whatever is called back later. */
  lemma {:induction false} ReturnsOnce(s: State, steps: seq<Step>, call: nat)
    requires IsRun(s, steps) && call in s.calls && (s.calls[call].phase.Answered? || s.calls[call].phase.TimedOut?)
    ensures call in After(s, steps).calls && After(s, steps).calls[call] == s.calls[call]
    decreases |steps|
  {
    hide Apply, IsEnabled;
    if steps != [] {
      StepKeepsReturned(s, steps[0], call);
      ReturnsOnce(Apply(s, steps[0]), steps[1..], call);
    }
  }

  lemma StepKeepsReturned(s: State, step: Step, call: nat)
    requires IsEnabled(s, step) && call in s.calls
    requires s.calls[call].phase.Answered? || s.calls[call].phase.TimedOut?
    ensures call in Apply(s, step).calls && Apply(s, step).calls[call] == s.calls[call]
  {
  }

  /** The call has returned, with an answer or a timeout. */
  predicate HasReturned(s: State, call: nat) {
    call in s.calls && (s.calls[call].phase.Answered? || s.calls[call].phase.TimedOut?)
  }

  /** Some continuation lets the call return. */
  ghost predicate CanReturn(s: State, call: nat) {
    exists steps :: IsRun(s, steps) && HasReturned(After(s, steps), call)
  }

  /**
   * The timeout covers only the wait for the answer. A call that is still handing its task over can return
   * if and only if the event loop is running or the task channel has room.
   */
  lemma SendingCallCanReturn(s: State, call: nat)
    requires call in s.calls && s.calls[call].phase.Sending? && |s.tasks| <= TASK_CAPACITY
    ensures CanReturn(s, call) <==> s.running || |s.tasks| < TASK_CAPACITY
  {
    if |s.tasks| < TASK_CAPACITY {
      SendThenTimeout(s, call);
    } else if s.running {
      var steps := DispatchSendTimeout(s, call);
      assert CanReturn(s, call);
    } else {
      forall steps | IsRun(s, steps)
        ensures !HasReturned(After(s, steps), call)
      {
        StaysStuck(s, steps, call);
      }
    }
  }

  lemma SendThenTimeout(s: State, call: nat)
    requires call in s.calls && s.calls[call].phase.Sending? && |s.tasks| < TASK_CAPACITY
    ensures IsRun(s, [Send(call), Timeout(call)]) && HasReturned(After(s, [Send(call), Timeout(call)]), call)
  {
    var sent := Apply(s, Send(call));
    var steps := [Send(call), Timeout(call)];
    assert steps[1..] == [Timeout(call)];
    assert IsRun(sent, [Timeout(call)]);
    assert After(sent, [Timeout(call)]) == Apply(sent, Timeout(call));
  }

  lemma DispatchSendTimeout(s: State, call: nat) returns (steps: seq<Step>)
    requires call in s.calls && s.calls[call].phase.Sending? && |s.tasks| == TASK_CAPACITY && s.running
    ensures IsRun(s, steps) && HasReturned(After(s, steps), call)
  {
    var handle := FreshHandle(s.dispatched);
    var s' := Apply(s, Dispatch(handle));
    SendThenTimeout(s', call);
    steps := [Dispatch(handle)] + [Send(call), Timeout(call)];
    assert steps[1..] == [Send(call), Timeout(call)];
  }

  lemma {:induction false} RunAppends(s: State, steps: seq<Step>, step: Step)
    requires IsRun(s, steps) && IsEnabled(After(s, steps), step)
    ensures IsRun(s, steps + [step]) && After(s, steps + [step]) == Apply(After(s, steps), step)
    decreases |steps|
  {
    if steps == [] {
      assert steps + [step] == [step];
      assert IsRun(Apply(s, step), [step][1..]);
    } else {
      assert (steps + [step])[1..] == steps[1..] + [step];
      RunAppends(Apply(s, steps[0]), steps[1..], step);
    }
  }

  /** After a stop, calls keep filling the task channel: a run in which `n` tasks are waiting and nobody takes them. */
  lemma {:induction false} TasksPileUpAfterStop(n: nat) returns (steps: seq<Step>)
    requires n <= TASK_CAPACITY
    ensures IsRun(INITIAL, steps)
    ensures var s := After(INITIAL, steps);
            !s.running && |s.tasks| == n && forall c :: n <= c ==> c !in s.calls
    decreases n
  {
    if n == 0 {
      RunAppends(INITIAL, [], Stop);
      RunAppends(INITIAL, [] + [Stop], HandleStop);
      steps := [] + [Stop] + [HandleStop];
    } else {
      steps := TasksPileUpAfterStop(n - 1);
      RunAppends(INITIAL, steps, Begin(n - 1, Request(CallEthSync, "", "")));
      steps := steps + [Begin(n - 1, Request(CallEthSync, "", ""))];
      RunAppends(INITIAL, steps, Send(n - 1));
      steps := steps + [Send(n - 1)];
    }
  }

  /** So some run leaves a call that can never return. */
  lemma StuckCallIsReachable() returns (steps: seq<Step>, call: nat)
    ensures IsRun(INITIAL, steps) && call in After(INITIAL, steps).calls && !CanReturn(After(INITIAL, steps), call)
    ensures |After(INITIAL, steps).tasks| == 64
  {
    call := TASK_CAPACITY;
    steps := TasksPileUpAfterStop(TASK_CAPACITY);
    RunAppends(INITIAL, steps, Begin(call, Request(CallEthSync, "", "")));
    steps := steps + [Begin(call, Request(CallEthSync, "", ""))];
    SendingCallCanReturn(After(INITIAL, steps), call);
  }

  lemma {:induction false} StaysStuck(s: State, steps: seq<Step>, call: nat)
    requires IsRun(s, steps) && call in s.calls && s.calls[call].phase.Sending?
    requires !s.running && TASK_CAPACITY <= |s.tasks|
    ensures call in After(s, steps).calls && After(s, steps).calls[call].phase.Sending?
    decreases |steps|
  {
    if steps != [] {
      StaysStuck(Apply(s, steps[0]), steps[1..], call);
    }
  }

  /** A handle that has never been used. */
  lemma FreshHandle(dispatched: map<nat, Task>) returns (handle: nat)
    ensures handle !in dispatched
  {
    handle := 0;
    var below: set<nat> := {};
    while handle in dispatched
      invariant below <= dispatched.Keys && forall n: nat :: n in below <==> n < handle
      decreases dispatched.Keys - below
    {
      below := below + {handle};
      handle := handle + 1;
    }
  }

  // ---------------------------------------------------------------------------------------------
  // Waiting calls
  // ---------------------------------------------------------------------------------------------

  /** Someone has the task of every call that has handed it over: the channel or the library. */
  ghost predicate TasksAreKept(s: State) {
    forall c :: c in s.calls && !s.calls[c].phase.Sending? ==> IsQueued(s, c) || IsAsked(s, c)
  }

  ghost predicate IsQueued(s: State, call: nat) {
    exists i :: 0 <= i < |s.tasks| && s.tasks[i].call == call
  }

  ghost predicate IsAsked(s: State, call: nat) {
    exists h :: h in s.dispatched && s.dispatched[h].call == call
  }

  lemma StepKeepsTasks(s: State, step: Step)
    requires TasksAreKept(s) && IsEnabled(s, step)
    ensures TasksAreKept(Apply(s, step))
  {
    var s' := Apply(s, step);
    forall c | c in s'.calls && !s'.calls[c].phase.Sending?
      ensures IsQueued(s', c) || IsAsked(s', c)
    {
      if step.Send? && step.call == c {
        assert s'.tasks[|s.tasks|].call == c;
      } else if IsAsked(s, c) {
        var h :| h in s.dispatched && s.dispatched[h].call == c;
        assert h in s'.dispatched && s'.dispatched[h].call == c;
      } else {
        var i :| 0 <= i < |s.tasks| && s.tasks[i].call == c;
        if !step.Dispatch? {
          assert s'.tasks[i].call == c;
        } else if i == 0 {
          assert s'.dispatched[step.handle].call == c;
        } else {
          assert s'.tasks[i - 1].call == c;
        }
      }
    }
  }

  lemma {:induction false} RunKeepsTasks(s: State, steps: seq<Step>)
    requires TasksAreKept(s) && IsRun(s, steps)
    ensures TasksAreKept(After(s, steps))
    decreases |steps|
  {
    hide TasksAreKept, Apply, IsEnabled;
    if steps != [] {
      StepKeepsTasks(s, steps[0]);
      RunKeepsTasks(Apply(s, steps[0]), steps[1..]);
    }
  }

  /** Some continuation lets the call return an answer with this result. */
  ghost predicate CanReturnWith(s: State, call: nat, result: Result) {
    exists steps :: IsRun(s, steps) && HasAnswer(After(s, steps), call, result)
  }

  predicate HasAnswer(s: State, call: nat, result: Result) {
    call in s.calls && s.calls[call].phase.Answered? && s.calls[call].phase.delivery.result == result
  }

  lemma StepFirst(s: State, step: Step, call: nat, result: Result)
    requires IsEnabled(s, step) && CanReturnWith(Apply(s, step), call, result)
    ensures CanReturnWith(s, call, result)
  {
    hide Apply, IsEnabled;
    var steps :| IsRun(Apply(s, step), steps) && HasAnswer(After(Apply(s, step), steps), call, result);
    assert ([step] + steps)[1..] == steps;
    assert IsRun(s, [step] + steps);
  }

  lemma ReceiveAnswers(s: State, call: nat)
    requires IsEnabled(s, Receive(call))
    ensures CanReturnWith(s, call, s.channels[call][0].result)
  {
    var s' := Apply(s, Receive(call));
    assert IsRun(s', []) && HasAnswer(After(s', []), call, s.channels[call][0].result);
    StepFirst(s, Receive(call), call, s.channels[call][0].result);
  }

  /** A request the library has and has not answered can be answered with anything. */
  lemma AskedCallCanBeAnswered(s: State, handle: nat, result: Result)
    requires Invariant(s) && MayCallBack(s, handle) && s.dispatched[handle].call in s.calls
    requires s.calls[s.dispatched[handle].call].phase.Waiting?
    ensures CanReturnWith(s, s.dispatched[handle].call, result)
  {
    hide CanReturnWith;
    var call := s.dispatched[handle].call;
    assert handle in s.handles && s.handles[handle] == call && s.channels[call] == [];
    var s' := Apply(s, Callback(handle, result));
    assert s'.channels[call] == [Delivery(handle, result)];
    ReceiveAnswers(s', call);
    StepFirst(s, Callback(handle, result), call, result);
  }

  /** The event loop takes one task after the other, so a queued request gets its turn. */
  lemma {:induction false} QueuedCallCanBeAnswered(s: State, i: nat, result: Result)
    requires Invariant(s) && s.running && i < |s.tasks| && s.tasks[i].call in s.calls
    requires s.calls[s.tasks[i].call].phase.Waiting?
    ensures CanReturnWith(s, s.tasks[i].call, result)
    decreases i
  {
    hide CanReturnWith;
    var handle := FreshHandle(s.dispatched);
    var s' := Apply(s, Dispatch(handle));
    StepKeepsInvariant(s, Dispatch(handle));
    if i == 0 {
      assert handle !in s.answered;
      AskedCallCanBeAnswered(s', handle, result);
    } else {
      assert s'.tasks[i - 1] == s.tasks[i];
      QueuedCallCanBeAnswered(s', i - 1, result);
    }
    StepFirst(s, Dispatch(handle), s.tasks[i].call, result);
  }

  lemma {:induction false} NoAnswerAfterStop(s: State, steps: seq<Step>, call: nat)
    requires IsRun(s, steps) && call in s.calls && call in s.channels && !s.running
    requires s.channels[call] == [] && !s.calls[call].phase.Answered?
    ensures call in After(s, steps).calls && !After(s, steps).calls[call].phase.Answered?
    decreases |steps|
  {
    if steps != [] {
      NoAnswerAfterStop(Apply(s, steps[0]), steps[1..], call);
    }
  }

  /**
   * No request is lost: in every run a call that waits for its answer and does not have it in its channel can
   * still get any answer at all, wherever its task is, if and only if the event loop is running.
   */
  lemma WaitingCallCanBeAnswered(steps: seq<Step>, call: nat, result: Result)
    requires IsRun(INITIAL, steps)
    requires var s := After(INITIAL, steps);
             call in s.calls && s.calls[call].phase.Waiting? && call in s.channels && s.channels[call] == []
    ensures CanReturnWith(After(INITIAL, steps), call, result) <==> After(INITIAL, steps).running
  {
    RunKeepsInvariant(INITIAL, steps);
    RunKeepsAnswers(INITIAL, steps);
    RunKeepsTasks(INITIAL, steps);
    var s := After(INITIAL, steps);
    hide IsRun, After, Invariant, Apply;
    if !s.running {
      forall more | IsRun(s, more)
        ensures !HasAnswer(After(s, more), call, result)
      {
        NoAnswerAfterStop(s, more, call);
      }
    } else if IsQueued(s, call) {
      var i :| 0 <= i < |s.tasks| && s.tasks[i].call == call;
      QueuedCallCanBeAnswered(s, i, result);
    } else {
      var h :| h in s.dispatched && s.dispatched[h].call == call;
      AskedCallCanBeAnswered(s, h, result);
    }
  }
}
