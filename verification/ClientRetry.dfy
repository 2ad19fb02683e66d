/** One client invocation against the daemon's admission. */
module ClientRetry {

  // Modelled are apps/cli/src/daemon/client.ts:255-305 and 460-488,
  // apps/cli/src/daemon/ensure.ts:150-169, apps/daemon/src/application.ts:375-475, 535-549
  // and 1643-1704, and packages/rpc/src/router.ts:95-127 and 245-300.
  // The wire is adversarial about delivery: a request or its response may be lost,
  // and whatever the client then sees is an error the daemon did not declare.

  datatype Kind =
    | Ctxindex | DaemonUnavailable | ProtocolIncompatible | RuntimeIdentityMismatch
    | DatabaseLeaseConflict | ShutdownTimeout | CancelledKind | ResultTooLarge

  datatype Failure = Failure(kind: Kind, text: string)

  datatype Option<T> = None | Some(value: T)

  /** The key under which a kind is registered; it is also the error's code. */
  function Name(kind: Kind): string
  {
    match kind
    case Ctxindex => "ctxindex"
    case DaemonUnavailable => "daemon_unavailable"
    case ProtocolIncompatible => "protocol_incompatible"
    case RuntimeIdentityMismatch => "runtime_identity_mismatch"
    case DatabaseLeaseConflict => "database_lease_conflict"
    case ShutdownTimeout => "shutdown_timeout"
    case CancelledKind => "cancelled"
    case ResultTooLarge => "result_too_large"
  }

  const RPC_ERROR_MESSAGE := "The daemon request failed."

  /** What a client call rejects with. `data` is the payload when it parses. */
  datatype WireError =
    | ForeignError
    | OrpcError(defined: bool, code: string, message: string, data: Option<Failure>)

  // ---- Declared errors ----------------------------------------------------------

  function DeclaredError(failure: Failure): WireError
  {
    OrpcError(true, Name(failure.kind), RPC_ERROR_MESSAGE, Some(failure))
  }

  function FailureFromDeclaredError(error: WireError): Option<Failure>
  {
    if error.ForeignError? || !error.defined then None
    else
      match error.data
      case None => None
      case Some(failure) =>
        if error.message == RPC_ERROR_MESSAGE && error.code == Name(failure.kind) then Some(failure) else None
  }

  /** The client recognises exactly the errors the router declares, and gets back
      the very failure that was declared. */
  lemma DeclaredErrorsRoundTrip(error: WireError, failure: Failure)
    ensures FailureFromDeclaredError(error) == Some(failure) <==> error == DeclaredError(failure)
  {}

  // ---- The daemon's side -----------------------------------------------------------

  datatype Lifecycle = Starting | Ready | Stopping

  datatype Thrown = TooLarge | Auth | Sync | Validation | NotFound | Secrets | Base | Other

  datatype Work = Returns | Throws(error: Thrown)

  datatype Reply = Value | Refused(failure: Failure)

  /** `failure`: what a service error becomes. */
  function FailureOf(error: Thrown): Failure
  {
    if error.TooLarge? then Failure(ResultTooLarge, "The daemon result exceeds the local protocol bounds.")
    else Failure(Ctxindex, "The daemon could not complete the request.")
  }

  /** One request as the daemon meets it: how compatible the client is, the lifecycle
      on arrival, what the service call would do, whether the request is aborted
      meanwhile, and whether its result passes the output schema. */
  datatype Arrival = Arrival(incompatible: Option<Kind>, lifecycle: Lifecycle, work: Work, aborted: bool, wellFormed: bool)

  predicate Plausible(a: Arrival)
  {
    a.incompatible.Some? ==> a.incompatible.value.ProtocolIncompatible? || a.incompatible.value.RuntimeIdentityMismatch?
  }

  predicate Admitted(a: Arrival)
  {
    a.incompatible.None? && a.lifecycle.Ready?
  }

  function Handle(a: Arrival): Reply
  {
    match a.incompatible
    case Some(kind) => Refused(Failure(kind, "The client is incompatible with this daemon."))
    case None =>
      if !a.lifecycle.Ready? then
        Refused(Failure(DaemonUnavailable,
                        if a.lifecycle.Starting? then "The daemon is starting and is not yet accepting work."
                        else "The daemon is stopping and is not accepting new work."))
      else if a.aborted then Refused(Failure(CancelledKind, "The request was cancelled."))
      else
        match a.work
        case Throws(error) => Refused(FailureOf(error))
        case Returns =>
          if a.wellFormed then Value else Refused(Failure(Ctxindex, "The daemon could not complete the request."))
  }

  /** The daemon says it is unavailable exactly when it refused before admission
      because of its lifecycle. */
  lemma UnavailableOnlyBeforeAdmission(a: Arrival)
    requires Plausible(a)
    ensures Handle(a).Refused? && Handle(a).failure.kind.DaemonUnavailable?
            <==> a.incompatible.None? && !a.lifecycle.Ready?
    ensures Handle(a).Refused? && Handle(a).failure.kind.DaemonUnavailable? ==> !Admitted(a)
  {}

  /** A ready, compatible daemon's un-aborted work returns a result that passes its schema. */
  predicate GoodAnswer(a: Arrival)
  {
    a.incompatible.None? && a.lifecycle.Ready? && !a.aborted && a.work.Returns? && a.wellFormed
  }

  /** The reply to every arrival: a value exactly for good work; else the failure of the
      first thing that went wrong - the client, the lifecycle, an abort, the work, the
      shape of its result. */
  lemma AnswerExactly(a: Arrival)
    ensures Handle(a).Value? <==> GoodAnswer(a)
    ensures !GoodAnswer(a) ==>
              var kind := Handle(a).failure.kind;
              && (a.incompatible.Some? ==> kind == a.incompatible.value)
              && (a.incompatible.None? && !a.lifecycle.Ready? ==> kind == DaemonUnavailable)
              && (a.incompatible.None? && a.lifecycle.Starting? ==>
                    Handle(a).failure.text == "The daemon is starting and is not yet accepting work.")
              && (a.incompatible.None? && a.lifecycle.Stopping? ==>
                    Handle(a).failure.text == "The daemon is stopping and is not accepting new work.")
              && (Admitted(a) && a.aborted ==> kind == CancelledKind)
              && (Admitted(a) && !a.aborted ==>
                    kind == if a.work == Throws(TooLarge) then ResultTooLarge else Ctxindex)
  {}

  // ---- One call over the wire ---------------------------------------------------------

  /** The request never arrives, the reply arrives, or the reply is lost; a lost
      message shows up as some error that was not declared. */
  datatype Exchange =
    | NeverArrives(error: WireError)
    | Answered(arrival: Arrival)
    | ReplyLost(arrival: Arrival, error: WireError)

  predicate Undeclared(error: WireError)
  {
    error.ForeignError? || !error.defined
  }

  predicate PlausibleExchange(x: Exchange)
  {
    match x
    case NeverArrives(error) => Undeclared(error)
    case Answered(a) => Plausible(a)
    case ReplyLost(a, error) => Plausible(a) && Undeclared(error)
  }

  datatype CallResult = Fulfilled | Rejected(error: WireError)

  function Call(x: Exchange): CallResult
  {
    match x
    case NeverArrives(error) => Rejected(error)
    case ReplyLost(_, error) => Rejected(error)
    case Answered(a) =>
      match Handle(a)
      case Value => Fulfilled
      case Refused(failure) => Rejected(DeclaredError(failure))
  }

  /** Whether the daemon admitted the request of this exchange. */
  function Executions(x: Exchange): nat
  {
    match x
    case NeverArrives(_) => 0
    case Answered(a) => if Admitted(a) then 1 else 0
    case ReplyLost(a, _) => if Admitted(a) then 1 else 0
  }

  // ---- The client's side -----------------------------------------------------------------

  /** The reconnect registered for a selection, and what running it comes to; it may fail
      with any error. */
  datatype Reconnect = NotRegistered | ReconnectFails(failure: Failure) | Reconnects

  datatype Outcome = Succeeded | Failed(failure: Failure)

  datatype Trace = Trace(outcome: Outcome, calls: nat, executions: nat)

  function InvocationError(error: WireError, aborted: bool): Failure
  {
    if aborted then Failure(CancelledKind, "The daemon request was cancelled.")
    else
      match FailureFromDeclaredError(error)
      case Some(failure) => failure
      case None => Failure(DaemonUnavailable, "The local daemon is unavailable.")
  }

  function Conclude(r: CallResult, aborted: bool): Outcome
  {
    match r
    case Rejected(error) => Failed(InvocationError(error, aborted))
    case Fulfilled =>
      if aborted then Failed(Failure(CancelledKind, "The daemon request was cancelled.")) else Succeeded
  }

  predicate Retries(r: CallResult, reconnect: Reconnect)
  {
    && r.Rejected?
    && FailureFromDeclaredError(r.error).Some?
    && FailureFromDeclaredError(r.error).value.kind.DaemonUnavailable?
    && !reconnect.NotRegistered?
  }

  /** `invoke`: one call, and one more against the replacement if it may retry. */
  function Invoke(first: Exchange, reconnect: Reconnect, second: Exchange, aborted: bool): Trace
  {
    var r := Call(first);
    if !Retries(r, reconnect) then Trace(Conclude(r, aborted), 1, Executions(first))
    else if reconnect.ReconnectFails?
    then Trace(Failed(reconnect.failure), 1, Executions(first))
    else Trace(Conclude(Call(second), aborted), 2, Executions(first) + Executions(second))
  }

  /** Whatever the two exchanges do, one invocation is admitted at most once; it is
      called again exactly when the first call was answered by a daemon that was not
      ready and a reconnect was registered and succeeded; and a reported success was
      executed exactly once. */
  lemma AtMostOnce(first: Exchange, reconnect: Reconnect, second: Exchange, aborted: bool)
    requires PlausibleExchange(first) && PlausibleExchange(second)
    ensures var t := Invoke(first, reconnect, second, aborted);
            && t.executions <= 1 && t.calls <= 2
            && (t.calls == 2 <==> first.Answered? && first.arrival.incompatible.None?
                                  && !first.arrival.lifecycle.Ready? && reconnect.Reconnects?)
            && (t.outcome.Succeeded? ==> t.executions == 1 && !aborted)
  {
    if first.Answered? && Handle(first.arrival).Refused? {
      DeclaredErrorsRoundTrip(DeclaredError(Handle(first.arrival).failure), Handle(first.arrival).failure);
    }
  }

  /** The last call an invocation makes. */
  function LastCall(first: Exchange, second: Exchange, calls: nat): Exchange
  {
    if calls == 2 then second else first
  }

  /** An invocation succeeds exactly when its signal is not aborted and its last call gets
      a good answer. Otherwise it fails: with the reconnect when that failed, as cancelled
      when aborted, as unavailable when no declared answer was heard, and else with the
      failure the daemon answered. */
  lemma OutcomeExactly(first: Exchange, reconnect: Reconnect, second: Exchange, aborted: bool)
    requires PlausibleExchange(first) && PlausibleExchange(second)
    ensures var t := Invoke(first, reconnect, second, aborted);
            var last := LastCall(first, second, t.calls);
            var denied := first.Answered? && first.arrival.incompatible.None? && !first.arrival.lifecycle.Ready?;
            if denied && reconnect.ReconnectFails? then t.outcome == Failed(reconnect.failure)
            else
              && (t.outcome.Succeeded? <==> !aborted && last.Answered? && GoodAnswer(last.arrival))
              && (aborted ==> t.outcome.Failed? && t.outcome.failure.kind == CancelledKind)
              && (!aborted && !last.Answered? ==> t.outcome.Failed? && t.outcome.failure.kind == DaemonUnavailable)
              && (!aborted && last.Answered? && !GoodAnswer(last.arrival) ==>
                    Handle(last.arrival).Refused? && t.outcome == Failed(Handle(last.arrival).failure))
  {
    AtMostOnce(first, reconnect, second, aborted);
    forall x | x == first || x == second ensures x.Answered? ==> (Handle(x.arrival).Value? <==> GoodAnswer(x.arrival)) {
      if x.Answered? {
        AnswerExactly(x.arrival);
      }
    }
    hide Handle, GoodAnswer;
    forall failure ensures FailureFromDeclaredError(DeclaredError(failure)) == Some(failure) {
      DeclaredErrorsRoundTrip(DeclaredError(failure), failure);
    }
  }

  /** A reported `daemon_unavailable` hides an execution exactly when the last call made
      was admitted and its reply lost. */
  lemma UnavailableHidesExecutionExactly(first: Exchange, reconnect: Reconnect, second: Exchange, aborted: bool)
    requires PlausibleExchange(first) && PlausibleExchange(second)
    requires var o := Invoke(first, reconnect, second, aborted).outcome; o.Failed? && o.failure.kind.DaemonUnavailable?
    ensures var t := Invoke(first, reconnect, second, aborted);
            var last := if t.calls == 2 then second else first;
            t.executions > 0 <==> last.ReplyLost? && Admitted(last.arrival)
  {
    AtMostOnce(first, reconnect, second, aborted);
  }

  // ---- The client as it runs --------------------------------------------------------------

  /** All daemons a client may meet, with the executions they have admitted. */
  class Daemons {
    var executions: nat
    var calls: nat

    constructor ()
      ensures executions == 0 && calls == 0
    {
      executions, calls := 0, 0;
    }

    method Serve(x: Exchange) returns (r: CallResult)
      modifies this
      ensures r == Call(x)
      ensures r.Fulfilled? <==> x.Answered? && GoodAnswer(x.arrival)
      ensures executions == old(executions) + Executions(x) && calls == old(calls) + 1
    {
      if x.Answered? {
        AnswerExactly(x.arrival);
      }
      calls := calls + 1;
      if x.NeverArrives? {
        return Rejected(x.error);
      }
      if Admitted(x.arrival) {
        executions := executions + 1;
      }
      if x.ReplyLost? {
        return Rejected(x.error);
      }
      var reply := Handle(x.arrival);
      r := if reply.Value? then Fulfilled else Rejected(DeclaredError(reply.failure));
    }

    method RunInvoke(first: Exchange, reconnect: Reconnect, second: Exchange, aborted: bool) returns (outcome: Outcome)
      requires PlausibleExchange(first) && PlausibleExchange(second)
      modifies this
      ensures var t := Invoke(first, reconnect, second, aborted);
              && outcome == t.outcome
              && executions == old(executions) + t.executions && calls == old(calls) + t.calls
      ensures old(executions) <= executions <= old(executions) + 1
      ensures var last := LastCall(first, second, calls - old(calls));
              && (outcome.Succeeded? ==> !aborted && last.Answered? && GoodAnswer(last.arrival))
              && (!aborted && last.Answered? && GoodAnswer(last.arrival) ==> outcome.Succeeded?)
              && (outcome.Failed? && outcome.failure.kind.DaemonUnavailable? ==>
                    (executions > old(executions) <==> last.ReplyLost? && Admitted(last.arrival)))
    {
      AtMostOnce(first, reconnect, second, aborted);
      OutcomeExactly(first, reconnect, second, aborted);
      if var o := Invoke(first, reconnect, second, aborted).outcome; o.Failed? && o.failure.kind.DaemonUnavailable? {
        UnavailableHidesExecutionExactly(first, reconnect, second, aborted);
      }
      var result := Serve(first);
      if result.Rejected? {
        var failure := FailureFromDeclaredError(result.error);
        if failure.None? || !failure.value.kind.DaemonUnavailable? || reconnect.NotRegistered? {
          return Failed(InvocationError(result.error, aborted));
        }
        if reconnect.ReconnectFails? {
          return Failed(reconnect.failure);
        }
        result := Serve(second);
        if result.Rejected? {
          return Failed(InvocationError(result.error, aborted));
        }
      }
      if aborted {
        return Failed(Failure(CancelledKind, "The daemon request was cancelled."));
      }
      outcome := Succeeded;
    }

    /** `invokeOnce` never calls again. */
    method RunInvokeOnce(x: Exchange, aborted: bool) returns (outcome: Outcome)
      requires PlausibleExchange(x)
      modifies this
      ensures outcome == Conclude(Call(x), aborted)
      ensures calls == old(calls) + 1 && executions <= old(executions) + 1
    {
      var result := Serve(x);
      outcome := Conclude(result, aborted);
    }
  }
}
