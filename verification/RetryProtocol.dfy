/** Any number of clients invoking any number of daemons at once. */
module RetryProtocol {
  import opened ClientRetry

  // Modelled are apps/cli/src/daemon/client.ts:255-305, apps/cli/src/daemon/ensure.ts:150-168
  // and apps/daemon/src/application.ts:535-549 and 1643-1704.
  // Requests travel on their own: one may be dropped, may arrive long after its client
  // gave up, and its answer may never be heard. Daemons come, become ready, stop and
  // die at any point.

  /** What became of one request: travelling, dropped, denied before admission, admitted
      and running, or run to its end with a reply. */
  datatype Status = OnWire | Dropped | Denied(failure: Failure) | Running | Done(reply: Reply)

  datatype Request = Request(daemon: nat, status: Status)

  /** `lost` says that the promise settled on an error nobody declared. */
  datatype Client = Awaiting | Reconnecting | Finished(outcome: Outcome, lost: bool)

  /** One `invoke`: the calls it made, and where its promise stands. */
  datatype Invocation = Invocation(reconnects: bool, calls: seq<Request>, client: Client)

  datatype World = World(daemons: map<nat, Lifecycle>, invocations: map<nat, Invocation>)

  datatype Event =
    | Launch(daemon: nat)
    | BecomeReady(daemon: nat)
    | BeginStopping(daemon: nat)
    | Die(daemon: nat)
    | Invoke(id: nat, daemon: nat, reconnects: bool)
    | Arrive(id: nat, call: nat, incompatible: Option<Kind>)
    | Drop(id: nat, call: nat)
    | Complete(id: nat, call: nat, work: Work, aborted: bool, wellFormed: bool)
    | Hear(id: nat, lost: Option<WireError>, aborted: bool)
    | Reconnected(id: nat, daemon: nat)
    | ReconnectFails(id: nat, failure: Failure)

  const EMPTY := World(map[], map[])

  // ---- Steps --------------------------------------------------------------------------------

  predicate PlausibleEvent(e: Event)
  {
    match e
    case Arrive(_, _, incompatible) => Plausible(Arrival(incompatible, Ready, Returns, false, true))
    case Hear(_, lost, _) => lost.Some? ==> Undeclared(lost.value)
    case _ => true
  }

  /** What a daemon in this state makes of a request that reaches it. */
  function Admission(daemons: map<nat, Lifecycle>, daemon: nat, incompatible: Option<Kind>): Status
  {
    if daemon !in daemons then Dropped
    else
      var a := Arrival(incompatible, daemons[daemon], Returns, false, true);
      if Admitted(a) then Running else Denied(Handle(a).failure)
  }

  /** The reply of an admitted request, whatever its work came to. */
  function ReplyOf(work: Work, aborted: bool, wellFormed: bool): Reply
  {
    Handle(Arrival(None, Ready, work, aborted, wellFormed))
  }

  function SetStatus(i: Invocation, call: nat, status: Status): Invocation
    requires call < |i.calls|
  {
    i.(calls := i.calls[call := i.calls[call].(status := status)])
  }

  predicate HasAnswer(s: Status)
  {
    s.Denied? || s.Done?
  }

  /** What the client's promise settles with when the answer is heard. */
  function Answer(s: Status): CallResult
    requires HasAnswer(s)
  {
    match s
    case Denied(failure) => Rejected(DeclaredError(failure))
    case Done(reply) => if reply.Value? then Fulfilled else Rejected(DeclaredError(reply.failure))
  }

  /** The client hears the answer of its last call, or an error nobody declared. */
  function HearStep(i: Invocation, lost: Option<WireError>, aborted: bool): Invocation
    requires i.calls != []
  {
    var last := i.calls[|i.calls| - 1].status;
    if !i.client.Awaiting? || (lost.None? && !HasAnswer(last)) then i
    else
      var r := if lost.Some? then Rejected(lost.value) else Answer(last);
      if |i.calls| == 1 && Retries(r, if i.reconnects then Reconnects else NotRegistered)
      then i.(client := Reconnecting)
      else i.(client := Finished(Conclude(r, aborted), lost.Some?))
  }

  function InvocationStep(daemons: map<nat, Lifecycle>, i: Invocation, e: Event): Invocation
    requires i.calls != []
  {
    match e
    case Arrive(_, call, incompatible) =>
      if call < |i.calls| && i.calls[call].status.OnWire?
      then SetStatus(i, call, Admission(daemons, i.calls[call].daemon, incompatible)) else i
    case Drop(_, call) =>
      if call < |i.calls| && i.calls[call].status.OnWire? then SetStatus(i, call, Dropped) else i
    case Complete(_, call, work, aborted, wellFormed) =>
      if call < |i.calls| && i.calls[call].status.Running?
      then SetStatus(i, call, Done(ReplyOf(work, aborted, wellFormed))) else i
    case Hear(_, lost, aborted) => HearStep(i, lost, aborted)
    case Reconnected(_, daemon) =>
      if i.client.Reconnecting? then i.(calls := i.calls + [Request(daemon, OnWire)], client := Awaiting) else i
    case ReconnectFails(_, failure) =>
      if i.client.Reconnecting? then i.(client := Finished(Failed(failure), false)) else i
    case _ => i
  }

  function DaemonStep(daemons: map<nat, Lifecycle>, e: Event): map<nat, Lifecycle>
  {
    match e
    case Launch(d) => if d in daemons then daemons else daemons[d := Starting]
    case BecomeReady(d) => if d in daemons && daemons[d].Starting? then daemons[d := Ready] else daemons
    case BeginStopping(d) => if d in daemons then daemons[d := Stopping] else daemons
    case Die(d) => daemons - {d}
    case _ => daemons
  }

  predicate Concerns(e: Event, id: nat)
  {
    (e.Arrive? || e.Drop? || e.Complete? || e.Hear? || e.Reconnected? || e.ReconnectFails?) && e.id == id
  }

  ghost predicate Started(w: World)
  {
    forall id :: id in w.invocations ==> w.invocations[id].calls != []
  }

  function Step(w: World, e: Event): (t: World)
    requires Started(w)
    ensures Started(t)
  {
    var daemons := DaemonStep(w.daemons, e);
    if e.Invoke? then
      if e.id in w.invocations then w
      else World(daemons, w.invocations[e.id := Invocation(e.reconnects, [Request(e.daemon, OnWire)], Awaiting)])
    else
      World(daemons, map id | id in w.invocations ::
                       if Concerns(e, id) then InvocationStep(w.daemons, w.invocations[id], e) else w.invocations[id])
  }

  function Run(w: World, events: seq<Event>): (t: World)
    requires Started(w)
    ensures Started(t)
    decreases |events|
  {
    if events == [] then w else Run(Step(w, events[0]), events[1..])
  }

  predicate PlausibleRun(events: seq<Event>)
  {
    forall k :: 0 <= k < |events| ==> PlausibleEvent(events[k])
  }

  // ---- The invariant ---------------------------------------------------------------------------

  predicate WasAdmitted(s: Status)
  {
    s.Running? || s.Done?
  }

  function Executions(calls: seq<Request>): nat
  {
    if calls == [] then 0 else (if WasAdmitted(calls[0].status) then 1 else 0) + Executions(calls[1..])
  }

  predicate SaidUnavailable(s: Status)
  {
    || (s.Denied? && s.failure.kind.DaemonUnavailable?)
    || (s.Done? && s.reply.Refused? && s.reply.failure.kind.DaemonUnavailable?)
  }

  /** The daemon handled the request of some arrival in this way. */
  ghost predicate Handled(s: Status)
  {
    match s
    case Denied(failure) => exists a :: Plausible(a) && !Admitted(a) && Handle(a) == Reply.Refused(failure)
    case Done(reply) => exists a :: Plausible(a) && Admitted(a) && Handle(a) == reply
    case _ => true
  }

  /** What a daemon says of itself: an admitted request is never answered as unavailable. */
  lemma UnavailableWasDenied(s: Status)
    requires Handled(s) && SaidUnavailable(s)
    ensures s.Denied? && !WasAdmitted(s)
  {
    if s.Done? {
      var a :| Plausible(a) && Admitted(a) && Handle(a) == s.reply;
      UnavailableOnlyBeforeAdmission(a);
    }
  }

  /** How the outcome of a settled promise follows from its last call. */
  ghost predicate ConcludedFrom(c: Client, last: Status)
    requires c.Finished?
  {
    && (c.outcome.Succeeded? ==> !c.lost && last == Done(Value))
    && (c.outcome.Failed? && c.outcome.failure.kind.DaemonUnavailable? && !c.lost ==> last.Denied?)
  }

  /** A second call exists, or is about to, only after the first was denied as
      unavailable, which it stays for ever; a promise that settled on a declared answer
      settled on the answer its last call still has. */
  ghost predicate Disciplined(i: Invocation)
  {
    && 1 <= |i.calls| <= 2
    && (forall k :: 0 <= k < |i.calls| ==> Handled(i.calls[k].status))
    && (i.client.Reconnecting? || |i.calls| == 2 ==> i.calls[0].status.Denied?)
    && (i.client.Reconnecting? ==> |i.calls| == 1)
    && (i.client.Finished? ==> ConcludedFrom(i.client, i.calls[|i.calls| - 1].status))
  }

  ghost predicate Inv(w: World)
  {
    forall id :: id in w.invocations ==> Disciplined(w.invocations[id])
  }

  /** Only a request that was denied before admission makes the client call again. */
  lemma RetryMeansDenied(s: Status, lost: Option<WireError>, reconnect: Reconnect)
    requires Handled(s) && (lost.None? ==> HasAnswer(s))
    requires lost.Some? ==> Undeclared(lost.value)
    requires Retries(if lost.Some? then Rejected(lost.value) else Answer(s), reconnect)
    ensures lost.None? && s.Denied?
  {
    if s.Done? {
      DeclaredErrorsRoundTrip(DeclaredError(s.reply.failure), s.reply.failure);
    }
    UnavailableWasDenied(s);
  }

  /** The promise settles as its last call says. */
  lemma ConclusionFollows(s: Status, lost: Option<WireError>, aborted: bool)
    requires Handled(s) && (lost.None? ==> HasAnswer(s))
    requires lost.Some? ==> Undeclared(lost.value)
    ensures var r := if lost.Some? then Rejected(lost.value) else Answer(s);
            ConcludedFrom(Finished(Conclude(r, aborted), lost.Some?), s)
  {
    hide Handled;
    if lost.None? && SaidUnavailable(s) {
      UnavailableWasDenied(s);
    }
  }

  lemma AdmissionIsHandled(daemons: map<nat, Lifecycle>, daemon: nat, incompatible: Option<Kind>)
    requires Plausible(Arrival(incompatible, Ready, Returns, false, true))
    ensures Handled(Admission(daemons, daemon, incompatible))
  {
    if daemon in daemons {
      var a := Arrival(incompatible, daemons[daemon], Returns, false, true);
      assert Plausible(a);
    }
  }

  lemma ReplyIsHandled(work: Work, aborted: bool, wellFormed: bool)
    ensures Handled(Done(ReplyOf(work, aborted, wellFormed)))
  {
    var a := Arrival(None, Ready, work, aborted, wellFormed);
    assert Plausible(a) && Admitted(a) && Handle(a) == ReplyOf(work, aborted, wellFormed);
  }

  lemma HearingStaysDisciplined(i: Invocation, lost: Option<WireError>, aborted: bool)
    requires Disciplined(i) && (lost.Some? ==> Undeclared(lost.value))
    ensures Disciplined(HearStep(i, lost, aborted))
  {
    hide Retries, Conclude, Handled, Answer, ConcludedFrom;
    var last := i.calls[|i.calls| - 1].status;
    var reconnect := if i.reconnects then Reconnects else NotRegistered;
    if i.client.Awaiting? && (lost.Some? || HasAnswer(last)) {
      var r := if lost.Some? then Rejected(lost.value) else Answer(last);
      if Retries(r, reconnect) {
        RetryMeansDenied(last, lost, reconnect);
      }
      ConclusionFollows(last, lost, aborted);
    }
  }

  lemma PlainStatusHandled()
    ensures Handled(OnWire) && Handled(Dropped)
  {}

  lemma InvocationStaysDisciplined(daemons: map<nat, Lifecycle>, i: Invocation, e: Event)
    requires Disciplined(i) && PlausibleEvent(e)
    ensures Disciplined(InvocationStep(daemons, i, e))
  {
    hide HearStep, Admission, ReplyOf, Handled, Plausible;
    match e
    case Arrive(_, call, incompatible) =>
      if call < |i.calls| {
        AdmissionIsHandled(daemons, i.calls[call].daemon, incompatible);
      }
    case Complete(_, call, work, aborted, wellFormed) => ReplyIsHandled(work, aborted, wellFormed);
    case Hear(_, lost, aborted) => HearingStaysDisciplined(i, lost, aborted);
    case _ => PlainStatusHandled();
  }

  lemma StepKeepsInv(w: World, e: Event)
    requires Started(w) && Inv(w) && PlausibleEvent(e)
    ensures Inv(Step(w, e))
  {
    hide InvocationStep, DaemonStep, PlausibleEvent;
    forall id | id in Step(w, e).invocations ensures Disciplined(Step(w, e).invocations[id]) {
      if id in w.invocations {
        InvocationStaysDisciplined(w.daemons, w.invocations[id], e);
      }
    }
  }

  lemma {:induction false} RunKeepsInv(w: World, events: seq<Event>)
    requires Started(w) && Inv(w) && PlausibleRun(events)
    ensures Inv(Run(w, events))
    decreases |events|
  {
    if events != [] {
      assert PlausibleEvent(events[0]);
      assert forall k :: 0 <= k < |events[1..]| ==> events[1..][k] == events[k + 1];
      StepKeepsInv(w, events[0]);
      RunKeepsInv(Step(w, events[0]), events[1..]);
    }
  }

  // ---- Whole runs ----------------------------------------------------------------------------------

  lemma ExecutionsOf(calls: seq<Request>)
    requires 1 <= |calls| <= 2
    ensures Executions(calls) == (if WasAdmitted(calls[0].status) then 1 else 0)
                                 + if |calls| == 2 && WasAdmitted(calls[1].status) then 1 else 0
  {
    if |calls| == 2 {
      assert calls[1..][0] == calls[1] && calls[1..][1..] == [];
    } else {
      assert calls[1..] == [];
    }
  }

  /** In every run, whatever daemons and the wire do and however late a request arrives,
      one invocation makes at most two calls and at most one of them is ever admitted;
      a second call is made only after the first was denied before admission; and an
      invocation that succeeded was executed exactly once. */
  lemma EveryInvocationAtMostOnce(events: seq<Event>, id: nat)
    requires PlausibleRun(events) && id in Run(EMPTY, events).invocations
    ensures var i := Run(EMPTY, events).invocations[id];
            && 1 <= |i.calls| <= 2 && Executions(i.calls) <= 1
            && (|i.calls| == 2 ==> i.calls[0].status.Denied?)
            && (i.client.Finished? && i.client.outcome.Succeeded? ==> Executions(i.calls) == 1)
  {
    RunKeepsInv(EMPTY, events);
    ExecutionsOf(Run(EMPTY, events).invocations[id].calls);
    hide Run, Handled;
  }

  lemma RunIsDisciplined(events: seq<Event>, id: nat)
    requires PlausibleRun(events) && id in Run(EMPTY, events).invocations
    ensures Disciplined(Run(EMPTY, events).invocations[id])
  {
    RunKeepsInv(EMPTY, events);
    hide Run, Disciplined;
  }

  lemma UnavailableExecutions(i: Invocation)
    requires Disciplined(i) && i.client.Finished?
    requires i.client.outcome.Failed? && i.client.outcome.failure.kind.DaemonUnavailable?
    ensures Executions(i.calls) > 0 <==> i.client.lost && WasAdmitted(i.calls[|i.calls| - 1].status)
  {
    hide Handled, Executions;
    ExecutionsOf(i.calls);
    assert |i.calls| == 2 ==> !WasAdmitted(i.calls[0].status);
    assert !i.client.lost ==> !WasAdmitted(i.calls[|i.calls| - 1].status);
    hide Disciplined, WasAdmitted;
  }

  lemma RunCons(w: World, e: Event, rest: seq<Event>)
    requires Started(w)
    ensures Run(w, [e] + rest) == Run(Step(w, e), rest)
  {
    assert ([e] + rest)[1..] == rest;
    hide Step;
  }

  lemma {:induction false} RunConcat(w: World, first: seq<Event>, rest: seq<Event>)
    requires Started(w)
    ensures Run(w, first + rest) == Run(Run(w, first), rest)
    decreases |first|
  {
    if first == [] {
      assert [] + rest == rest;
    } else {
      assert (first + rest)[1..] == first[1..] + rest;
      hide Step;
      RunConcat(Step(w, first[0]), first[1..], rest);
    }
  }

  /** This event brings the request of that call to a daemon that is ready for it. */
  predicate ArrivesReady(w: World, e: Event, id: nat, call: nat)
  {
    && e == Arrive(id, call, None)
    && id in w.invocations && call < |w.invocations[id].calls|
    && var request := w.invocations[id].calls[call];
       request.status.OnWire? && request.daemon in w.daemons && w.daemons[request.daemon].Ready?
  }

  predicate Executed(w: World, id: nat, call: nat)
  {
    id in w.invocations && call < |w.invocations[id].calls| && WasAdmitted(w.invocations[id].calls[call].status)
  }

  lemma ExecutedStep(w: World, e: Event, id: nat, call: nat)
    requires Started(w)
    ensures Executed(Step(w, e), id, call) <==> Executed(w, id, call) || ArrivesReady(w, e, id, call)
  {
    hide Retries, Conclude, Answer, HasAnswer, DaemonStep, ReplyOf;
  }

  /** A call was admitted exactly when its request once arrived at a ready daemon. */
  lemma {:induction false} ExecutedExactly(events: seq<Event>, id: nat, call: nat)
    ensures Executed(Run(EMPTY, events), id, call) <==>
            exists k :: 0 <= k < |events| && ArrivesReady(Run(EMPTY, events[..k]), events[k], id, call)
    decreases |events|
  {
    if events != [] {
      hide Step, Executed, ArrivesReady;
      var n := |events| - 1;
      var front, e := events[..n], events[n];
      assert events == front + [e];
      var w := Run(EMPTY, front);
      RunConcat(EMPTY, front, [e]);
      RunCons(w, e, []);
      ExecutedStep(w, e, id, call);
      ExecutedExactly(front, id, call);
      forall k | 0 <= k < n ensures events[..k] == front[..k] && events[k] == front[k] {}
    } else {
      hide Step, WasAdmitted;
    }
  }

  // ---- What each event does ---------------------------------------------------------------------

  /** A waiting client that hears something calls again exactly when its first call was
      answered as unavailable and it has a reconnect; else it is finished: as cancelled when
      aborted, as unavailable when it heard an undeclared error, and else with the answer. */
  lemma HearingExactly(w: World, id: nat, lost: Option<WireError>, aborted: bool)
    requires Started(w) && id in w.invocations && w.invocations[id].client.Awaiting?
    requires lost.Some? ==> Undeclared(lost.value)
    requires var calls := w.invocations[id].calls; lost.None? ==> HasAnswer(calls[|calls| - 1].status)
    ensures var i, t := w.invocations[id], Step(w, Hear(id, lost, aborted));
            var last := i.calls[|i.calls| - 1].status;
            && id in t.invocations && t.invocations[id].calls == i.calls
            && var c := t.invocations[id].client;
               if |i.calls| == 1 && i.reconnects && lost.None? && SaidUnavailable(last) then c == Reconnecting
               else
                 && c.Finished? && (c.lost <==> lost.Some?)
                 && (aborted ==> c.outcome.Failed? && c.outcome.failure.kind == CancelledKind)
                 && (!aborted && lost.Some? ==> c.outcome.Failed? && c.outcome.failure.kind == DaemonUnavailable)
                 && (!aborted && lost.None? && last.Denied? ==> c.outcome == Failed(last.failure))
                 && (!aborted && lost.None? && last.Done? ==>
                       c.outcome == if last.reply.Value? then Succeeded else Failed(last.reply.failure))
  {
    var calls := w.invocations[id].calls;
    var last := calls[|calls| - 1].status;
    if lost.None? && !(last.Done? && last.reply.Value?) {
      var failure := if last.Denied? then last.failure else last.reply.failure;
      DeclaredErrorsRoundTrip(DeclaredError(failure), failure);
    }
    hide FailureFromDeclaredError, DeclaredError, DaemonStep, ReplyOf, Admission;
  }

  /** A reconnecting client makes its second call, or fails as its reconnect did. */
  lemma ReconnectingExactly(w: World, id: nat, daemon: nat, failure: Failure)
    requires Started(w) && id in w.invocations && w.invocations[id].client.Reconnecting?
    ensures var i := w.invocations[id];
            var again, failed := Step(w, Reconnected(id, daemon)), Step(w, Event.ReconnectFails(id, failure));
            && id in again.invocations && again.invocations[id].client == Awaiting
            && again.invocations[id].calls == i.calls + [Request(daemon, OnWire)]
            && id in failed.invocations && failed.invocations[id] == i.(client := Finished(Failed(failure), false))
  {
    hide DaemonStep;
  }

  /** A request on the wire that is dropped never arrives anywhere. */
  lemma DroppedStays(w: World, e: Event, id: nat, call: nat)
    requires Started(w) && id in w.invocations && call < |w.invocations[id].calls|
    requires w.invocations[id].calls[call].status.Dropped?
    ensures var t := Step(w, e);
            id in t.invocations && call < |t.invocations[id].calls| && t.invocations[id].calls[call].status.Dropped?
  {
    hide Retries, Conclude, Answer, HasAnswer, DaemonStep, ReplyOf, Admission;
  }

  lemma {:induction false} DroppedForEver(w: World, events: seq<Event>, id: nat, call: nat)
    requires Started(w) && id in w.invocations && call < |w.invocations[id].calls|
    requires w.invocations[id].calls[call].status.Dropped?
    ensures var t := Run(w, events);
            id in t.invocations && call < |t.invocations[id].calls| && t.invocations[id].calls[call].status.Dropped?
    decreases |events|
  {
    if events != [] {
      DroppedStays(w, events[0], id, call);
      hide Step;
      DroppedForEver(Step(w, events[0]), events[1..], id, call);
    }
  }

  lemma DropExactly(w: World, id: nat, call: nat)
    requires Started(w) && id in w.invocations && call < |w.invocations[id].calls|
    ensures var before, t := w.invocations[id].calls[call].status, Step(w, Drop(id, call));
            && id in t.invocations && call < |t.invocations[id].calls|
            && t.invocations[id].calls[call].status == if before.OnWire? then Dropped else before
  {
    hide DaemonStep;
  }

  /** A daemon is ready from the moment it becomes so after its launch until it begins
      stopping or dies; and it is there until it dies. */
  lemma DaemonExactly(w: World, e: Event, d: nat)
    requires Started(w)
    ensures var before, after := w.daemons, Step(w, e).daemons;
            && (d in after <==> (d in before || e == Launch(d)) && e != Die(d))
            && (d in after ==>
                  && (after[d].Ready? <==>
                      d in before && ((before[d].Ready? && e != BeginStopping(d)) || (before[d].Starting? && e == BecomeReady(d))))
                  && (after[d].Stopping? <==> d in before && (before[d].Stopping? || e == BeginStopping(d))))
  {
    hide InvocationStep;
  }

  // ---- Success ----------------------------------------------------------------------------------

  /** This event ends the running work of that call with a well-formed value. */
  predicate CompletesWell(w: World, e: Event, id: nat, call: nat)
  {
    && e == Complete(id, call, Returns, false, true)
    && id in w.invocations && call < |w.invocations[id].calls| && w.invocations[id].calls[call].status.Running?
  }

  predicate HasValue(w: World, id: nat, call: nat)
  {
    id in w.invocations && call < |w.invocations[id].calls| && w.invocations[id].calls[call].status == Done(Value)
  }

  lemma ReplyIsValueExactly(work: Work, aborted: bool, wellFormed: bool)
    ensures ReplyOf(work, aborted, wellFormed) == Value <==> work.Returns? && !aborted && wellFormed
  {
    AnswerExactly(Arrival(None, Ready, work, aborted, wellFormed));
  }

  lemma HasValueStep(w: World, e: Event, id: nat, call: nat)
    requires Started(w)
    ensures HasValue(Step(w, e), id, call) <==> HasValue(w, id, call) || CompletesWell(w, e, id, call)
  {
    if e.Complete? {
      ReplyIsValueExactly(e.work, e.aborted, e.wellFormed);
    }
    hide ReplyOf, Retries, Conclude, Answer, HasAnswer, DaemonStep;
  }

  /** A call has a value for its answer exactly when its work once ended well. */
  lemma {:induction false} HasValueExactly(events: seq<Event>, id: nat, call: nat)
    ensures HasValue(Run(EMPTY, events), id, call) <==>
            exists k :: 0 <= k < |events| && CompletesWell(Run(EMPTY, events[..k]), events[k], id, call)
    decreases |events|
  {
    if events != [] {
      hide Step, HasValue, CompletesWell;
      var n := |events| - 1;
      var front, e := events[..n], events[n];
      assert events == front + [e];
      var w := Run(EMPTY, front);
      RunConcat(EMPTY, front, [e]);
      RunCons(w, e, []);
      HasValueStep(w, e, id, call);
      HasValueExactly(front, id, call);
      forall k | 0 <= k < n ensures events[..k] == front[..k] && events[k] == front[k] {}
    } else {
      hide Step;
    }
  }

  predicate HasSucceeded(w: World, id: nat)
  {
    id in w.invocations && w.invocations[id].client.Finished? && w.invocations[id].client.outcome.Succeeded?
  }

  /** The client hears, un-aborted and while it waits, what its last call has come to. */
  predicate Hears(w: World, e: Event, id: nat)
  {
    e == Hear(id, None, false) && id in w.invocations && w.invocations[id].client.Awaiting? && w.invocations[id].calls != []
  }

  function LastCallOf(w: World, id: nat): nat
    requires id in w.invocations && w.invocations[id].calls != []
  {
    |w.invocations[id].calls| - 1
  }

  lemma HasSucceededStep(w: World, e: Event, id: nat)
    requires Started(w)
    ensures HasSucceeded(Step(w, e), id) <==>
            HasSucceeded(w, id) || (Hears(w, e, id) && HasValue(w, id, LastCallOf(w, id)))
  {
    hide ReplyOf, DaemonStep, Admission, FailureFromDeclaredError, InvocationError;
  }

  lemma {:induction false} HasSucceededExactly(events: seq<Event>, id: nat)
    ensures HasSucceeded(Run(EMPTY, events), id) <==>
            exists h :: 0 <= h < |events| && Hears(Run(EMPTY, events[..h]), events[h], id)
                        && HasValue(Run(EMPTY, events[..h]), id, LastCallOf(Run(EMPTY, events[..h]), id))
    decreases |events|
  {
    if events != [] {
      hide Step, HasSucceeded, HasValue, LastCallOf;
      var n := |events| - 1;
      var front, e := events[..n], events[n];
      assert events == front + [e];
      var w := Run(EMPTY, front);
      RunConcat(EMPTY, front, [e]);
      RunCons(w, e, []);
      HasSucceededStep(w, e, id);
      HasSucceededExactly(front, id);
      forall k | 0 <= k < n ensures events[..k] == front[..k] && events[k] == front[k] {}
    } else {
      hide Step;
    }
  }

  /** In every run an invocation has succeeded exactly when it once heard, un-aborted, the
      answer of its last call, after the work of that call, admitted by a ready daemon, had
      ended un-aborted with a well-formed value. */
  lemma SucceedsExactly(events: seq<Event>, id: nat)
    ensures HasSucceeded(Run(EMPTY, events), id) <==>
            exists h, k :: 0 <= k < h < |events| && Hears(Run(EMPTY, events[..h]), events[h], id)
                           && CompletesWell(Run(EMPTY, events[..k]), events[k], id, LastCallOf(Run(EMPTY, events[..h]), id))
  {
    HasSucceededExactly(events, id);
    hide HasSucceeded, HasValue, LastCallOf, CompletesWell, Run, Step;
    forall h | 0 <= h < |events| && Hears(Run(EMPTY, events[..h]), events[h], id)
      ensures HasValue(Run(EMPTY, events[..h]), id, LastCallOf(Run(EMPTY, events[..h]), id)) <==>
              exists k :: 0 <= k < h && CompletesWell(Run(EMPTY, events[..k]), events[k], id, LastCallOf(Run(EMPTY, events[..h]), id))
    {
      HasValueExactly(events[..h], id, LastCallOf(Run(EMPTY, events[..h]), id));
      forall k | 0 <= k < h ensures events[..h][..k] == events[..k] && events[..h][k] == events[k] {}
    }
  }

  /** In every run, and so after every continuation, an invocation reported as
      unavailable has executed exactly when the report rests on an undeclared error and
      the request of its last call arrived, before or after the report, at a daemon that
      was ready; one that rests on a declared refusal never executes. */
  lemma UnavailableHidesExecutionExactly(events: seq<Event>, id: nat)
    requires PlausibleRun(events) && id in Run(EMPTY, events).invocations
    requires var c := Run(EMPTY, events).invocations[id].client;
             c.Finished? && c.outcome.Failed? && c.outcome.failure.kind.DaemonUnavailable?
    ensures var i := Run(EMPTY, events).invocations[id];
            Executions(i.calls) > 0 <==>
            i.client.lost && exists k :: 0 <= k < |events| && ArrivesReady(Run(EMPTY, events[..k]), events[k], id, |i.calls| - 1)
  {
    RunIsDisciplined(events, id);
    UnavailableExecutions(Run(EMPTY, events).invocations[id]);
    ExecutedExactly(events, id, |Run(EMPTY, events).invocations[id].calls| - 1);
    hide Run, Disciplined, Executions, WasAdmitted, ArrivesReady, EMPTY, PlausibleEvent, Step;
  }

  /** A settled promise stays as it settled. */
  lemma {:induction false} FinishedForEver(w: World, events: seq<Event>, id: nat)
    requires Started(w) && id in w.invocations && w.invocations[id].client.Finished?
    ensures id in Run(w, events).invocations && Run(w, events).invocations[id].client == w.invocations[id].client
    decreases |events|
  {
    if events != [] {
      FinishedForEver(Step(w, events[0]), events[1..], id);
    }
  }

  /** An invocation that heard a refusal and reported the daemon unavailable is executed
      in no continuation. */
  lemma HeardRefusalNeverExecutes(events: seq<Event>, later: seq<Event>, id: nat)
    requires PlausibleRun(events + later) && id in Run(EMPTY, events).invocations
    requires var c := Run(EMPTY, events).invocations[id].client;
             c.Finished? && !c.lost && c.outcome.Failed? && c.outcome.failure.kind.DaemonUnavailable?
    ensures id in Run(EMPTY, events + later).invocations
    ensures Executions(Run(EMPTY, events + later).invocations[id].calls) == 0
  {
    RunConcat(EMPTY, events, later);
    FinishedForEver(Run(EMPTY, events), later, id);
    UnavailableHidesExecutionExactly(events + later, id);
    hide Run;
  }

  lemma UndeclaredConcludes(error: WireError)
    requires Undeclared(error)
    ensures !Retries(Rejected(error), Reconnects)
    ensures Conclude(Rejected(error), false) == Failed(Failure(DaemonUnavailable, "The local daemon is unavailable."))
  {}

  /** One ready daemon and one invocation that made one call. */
  function OneCall(status: Status, client: Client): World
  {
    World(map[0 := Ready], map[0 := Invocation(true, [Request(0, status)], client)])
  }

  lemma OneCallBegins()
    ensures Step(Step(Step(EMPTY, Launch(0)), BecomeReady(0)), Invoke(0, 0, true)) == OneCall(OnWire, Awaiting)
  {
    var w1 := Step(EMPTY, Launch(0));
    assert w1 == World(map[0 := Starting], map[]);
    var w2 := Step(w1, BecomeReady(0));
    assert w2 == World(map[0 := Ready], map[]);
  }

  lemma OneCallFails(error: WireError)
    requires Undeclared(error)
    ensures Step(OneCall(OnWire, Awaiting), Hear(0, Some(error), false))
            == OneCall(OnWire, Finished(Failed(Failure(DaemonUnavailable, "The local daemon is unavailable.")), true))
  {
    UndeclaredConcludes(error);
    hide Retries, Conclude;
  }

  lemma OneCallArrives(client: Client)
    ensures Step(OneCall(OnWire, client), Arrive(0, 0, None)) == OneCall(Running, client)
  {
    var w, t := OneCall(OnWire, client), Step(OneCall(OnWire, client), Arrive(0, 0, None));
    assert Admission(w.daemons, 0, None) == Running;
    assert t.invocations[0].calls == [Request(0, Running)];
  }

  lemma OneCallExecutions(status: Status, client: Client)
    ensures Executions(OneCall(status, client).invocations[0].calls) == if WasAdmitted(status) then 1 else 0
  {
    ExecutionsOf([Request(0, status)]);
  }

  /** Work can still begin after its client has reported the daemon unavailable: the
      request was on its way when an undeclared error was heard. */
  lemma LateArrivalStillExecutes(error: WireError)
    requires Undeclared(error)
    ensures var before := [Launch(0)] + ([BecomeReady(0)] + ([Invoke(0, 0, true)] + ([Hear(0, Some(error), false)] + [])));
            var w := Run(EMPTY, before);
            var t := Step(w, Arrive(0, 0, None));
            && 0 in w.invocations && w.invocations[0].client.Finished? && w.invocations[0].client.outcome.Failed?
            && w.invocations[0].client.outcome.failure.kind.DaemonUnavailable?
            && Executions(w.invocations[0].calls) == 0
            && 0 in t.invocations && Executions(t.invocations[0].calls) == 1
  {
    hide Step, Executions;
    var client := Finished(Failed(Failure(DaemonUnavailable, "The local daemon is unavailable.")), true);
    var heard := [Hear(0, Some(error), false)] + [];
    var invoked := [Invoke(0, 0, true)] + heard;
    RunCons(EMPTY, Launch(0), [BecomeReady(0)] + invoked);
    RunCons(Step(EMPTY, Launch(0)), BecomeReady(0), invoked);
    RunCons(Step(Step(EMPTY, Launch(0)), BecomeReady(0)), Invoke(0, 0, true), heard);
    OneCallBegins();
    RunCons(OneCall(OnWire, Awaiting), Hear(0, Some(error), false), []);
    OneCallFails(error);
    assert Run(OneCall(OnWire, client), []) == OneCall(OnWire, client);
    hide Run;
    OneCallExecutions(OnWire, client);
    OneCallExecutions(Running, client);
    OneCallArrives(client);
  }
}
