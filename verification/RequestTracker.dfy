/** The request tracker of the daemon application, its lifecycle and idle timer, and the
    release of its resources. */
module RequestTracker {
  import opened Decimal
  import BusinessStream

  // Modelled are apps/daemon/src/application.ts:803-948, 1643-1704 and 1756-1925, and the
  // part of the runtime that releases resources (apps/daemon/src/runtime.ts:689-708).
  // Admitted requests live on their own, as closures do; the tracker only holds the keys
  // of those it has not been told to forget. Every synchronous stretch is one step,
  // stamped with the clock value it read. The host may run any timer callback it was
  // ever given, early, late, after it was cleared, or more than once.

  /** What streams carry plays no part here. */
  type Payload = string
  type StreamState = BusinessStream.Stream<Payload, Payload>
  type StreamEvent = BusinessStream.StreamEvent<Payload, Payload>

  datatype Lifecycle = Starting | Ready | Stopping

  /** The promise chain of `#business`: waiting for secret access, inside the service
      call, settled, and past its `finally`. */
  datatype Phase = Waiting | Running | Settled | Finished

  datatype Request = Business(phase: Phase, aborted: bool) | Streaming(stream: StreamState)

  datatype BusinessStep = ClientAborts | Begins | ServiceSettles | FinallyRuns

  datatype Timer = Timer(generation: nat, deadline: int)

  datatype Handle = NoTimer | Armed(timer: nat)

  /** The shared finalization promise: not requested, inside `whenDrained`, past
      it, and past the calls that close the transfer store and the database. */
  datatype Finalization = NotRequested | Draining | Drained | Released

  /** `requests` are all requests ever admitted, `active` the keys of `#active`. */
  datatype Application = Application(
    lifecycle: Lifecycle,
    requests: map<string, Request>,
    active: set<string>,
    sequence: nat,
    generation: nat,
    handle: Handle,
    timers: seq<Timer>,
    finalization: Finalization,
    clock: int)

  datatype Action =
    | MarkReady
    | Admit(requestId: string, streaming: bool)
    | Advance(key: string, step: BusinessStep)
    | Flow(key: string, event: StreamEvent)
    | BeginStopping
    | TimerFires(timer: nat)
    | DrainObserved
    | ReleaseResources

  datatype Timed = Timed(action: Action, now: int)

  function Initial(start: int): Application
  {
    Application(Starting, map[], {}, 0, 0, NoTimer, [], NotRequested, start)
  }

  // ---- Request keys -----------------------------------------------------------

  /** `${requestId}:${sequence}`. */
  function RequestKey(requestId: string, sequence: nat): string
  {
    requestId + ":" + Digits(sequence)
  }

  /** The sequence number after the last colon tells keys apart, whatever the
      request identifiers contain: an admission never overwrites an entry. */
  lemma RequestKeysDiffer(r1: string, n1: nat, r2: string, n2: nat)
    requires RequestKey(r1, n1) == RequestKey(r2, n2)
    ensures r1 == r2 && n1 == n2
  {
    var k, d1, d2 := RequestKey(r1, n1), Digits(n1), Digits(n2);
    var p1, p2 := |k| - |d1| - 1, |k| - |d2| - 1;
    assert p1 == |r1| && k[p1] == ':' && p2 == |r2| && k[p2] == ':';
    assert forall j :: p1 < j < |k| ==> k[j] == d1[j - p1 - 1];
    assert forall j :: p2 < j < |k| ==> k[j] == d2[j - p2 - 1];
    assert p1 == p2;
    assert d1 == k[p1 + 1..] == d2;
    assert r1 == k[..p1] == r2;
    DigitsInjective(n1, n2);
  }

  // ---- The requests ---------------------------------------------------------------

  function NewRequest(streaming: bool): Request
  {
    if streaming then Streaming(BusinessStream.Admitted()) else Business(Waiting, false)
  }

  /** `controller.abort()`. */
  function AbortRequest(r: Request): Request
  {
    match r
    case Business(_, _) => r.(aborted := true)
    case Streaming(stream) => Streaming(BusinessStream.AbortStep(stream))
  }

  /** Each step follows the one before it in the promise chain. */
  function AdvanceRequest(r: Request, step: BusinessStep): Request
    requires r.Business?
  {
    match step
    case ClientAborts => r.(aborted := true)
    case Begins => if r.phase.Waiting? then r.(phase := if r.aborted then Settled else Running) else r
    case ServiceSettles => if r.phase.Running? then r.(phase := Settled) else r
    case FinallyRuns => if r.phase.Settled? then r.(phase := Finished) else r
  }

  predicate ServiceRunning(r: Request)
  {
    match r
    case Business(phase, _) => phase.Running?
    case Streaming(stream) => stream.phase.Invoking?
  }

  /** The service call has settled, or will never be made. */
  predicate ServiceOver(r: Request)
  {
    match r
    case Business(phase, _) => phase.Settled? || phase.Finished?
    case Streaming(stream) => stream.phase.Settled? || stream.phase.Finished?
  }

  predicate IsAborted(r: Request)
  {
    match r
    case Business(_, aborted) => aborted
    case Streaming(stream) => stream.aborted
  }

  // ---- The steps -----------------------------------------------------------------

  function DisarmIdle(s: Application): Application
  {
    s.(generation := s.generation + 1, handle := NoTimer)
  }

  function ScheduleIdleExpiry(s: Application, deadline: int): Application
  {
    s.(timers := s.timers + [Timer(s.generation, deadline)], handle := Armed(|s.timers|))
  }

  function ArmIdle(s: Application, timeout: int): Application
  {
    if !s.lifecycle.Ready? || s.active != {} then s
    else ScheduleIdleExpiry(DisarmIdle(s), s.clock + timeout)
  }

  /** `#active.delete(key)` and what follows it, in the `finally` of `#business` and in
      the `finalize` of `#businessStream`. */
  function Forget(s: Application, key: string, timeout: int): Application
  {
    ArmIdle(s.(active := s.active - {key}), timeout)
  }

  function Stop(s: Application): Application
  {
    DisarmIdle(s).(
      lifecycle := Stopping,
      requests := map k | k in s.requests :: if k in s.active then AbortRequest(s.requests[k]) else s.requests[k],
      finalization := if s.finalization.NotRequested? then Draining else s.finalization)
  }

  function Fire(s: Application, timer: Timer): Application
  {
    if timer.generation != s.generation then s
    else
      var t := s.(handle := NoTimer);
      if !s.lifecycle.Ready? || s.active != {} then t
      else if s.clock < timer.deadline then ScheduleIdleExpiry(t, timer.deadline)
      else Stop(t)
  }

  function AdvanceStep(s: Application, key: string, step: BusinessStep, timeout: int): Application
    requires key in s.requests && s.requests[key].Business?
  {
    var r := s.requests[key];
    var t := s.(requests := s.requests[key := AdvanceRequest(r, step)]);
    if step.FinallyRuns? && r.phase.Settled? then Forget(t, key, timeout) else t
  }

  /** A stream's own event; its `finalize` may run within it. */
  function FlowStep(s: Application, key: string, event: StreamEvent, timeout: int): Application
    requires key in s.requests && s.requests[key].Streaming?
  {
    var stream := s.requests[key].stream;
    var after := BusinessStream.StreamStep(stream, event);
    var t := s.(requests := s.requests[key := Streaming(after)]);
    if after.removals > stream.removals then Forget(t, key, timeout) else t
  }

  /** The effect of an action in a state whose clock already shows its time. */
  function Effect(s: Application, a: Action, timeout: int): Application
  {
    match a
    case MarkReady =>
      if s.lifecycle.Starting? then ArmIdle(s.(lifecycle := Ready), timeout) else s
    case Admit(requestId, streaming) =>
      if !s.lifecycle.Ready? then s
      else
        var key := RequestKey(requestId, s.sequence);
        DisarmIdle(s.(
          requests := s.requests[key := NewRequest(streaming)],
          active := s.active + {key},
          sequence := s.sequence + 1))
    case Advance(key, step) =>
      if key in s.requests && s.requests[key].Business? then AdvanceStep(s, key, step, timeout) else s
    case Flow(key, event) =>
      if key in s.requests && s.requests[key].Streaming? then FlowStep(s, key, event, timeout) else s
    case BeginStopping => Stop(s)
    case TimerFires(i) => if i < |s.timers| then Fire(s, s.timers[i]) else s
    case DrainObserved =>
      if s.finalization.Draining? && s.active == {} then s.(finalization := Drained) else s
    case ReleaseResources =>
      if s.finalization.Drained? then s.(finalization := Released) else s
  }

  function Step(s: Application, e: Timed, timeout: int): Application
  {
    Effect(s.(clock := e.now), e.action, timeout)
  }

  lemma AdmitIsStep(s: Application, requestId: string, streaming: bool, now: int, timeout: int)
    ensures Step(s, Timed(Admit(requestId, streaming), now), timeout) ==
            if !s.lifecycle.Ready? then s.(clock := now)
            else DisarmIdle(s.(
              clock := now,
              requests := s.requests[RequestKey(requestId, s.sequence) := NewRequest(streaming)],
              active := s.active + {RequestKey(requestId, s.sequence)},
              sequence := s.sequence + 1))
  {
    hide RequestKey, NewRequest, DisarmIdle;
  }

  lemma AdvanceIsStep(s: Application, key: string, step: BusinessStep, now: int, timeout: int)
    requires key in s.requests && s.requests[key].Business?
    ensures Step(s, Timed(Advance(key, step), now), timeout) == AdvanceStep(s.(clock := now), key, step, timeout)
  {
    hide AdvanceStep;
  }

  lemma FlowIsStep(s: Application, key: string, event: StreamEvent, now: int, timeout: int)
    requires key in s.requests && s.requests[key].Streaming?
    ensures Step(s, Timed(Flow(key, event), now), timeout) == FlowStep(s.(clock := now), key, event, timeout)
  {
    hide FlowStep;
  }

  /** The state after a history; the last event is the latest. */
  function After(start: int, es: seq<Timed>, timeout: int): Application
  {
    if es == [] then Initial(start)
    else Step(After(start, es[..|es| - 1], timeout), es[|es| - 1], timeout)
  }

  lemma Snoc(start: int, es: seq<Timed>, e: Timed, timeout: int)
    ensures After(start, es + [e], timeout) == Step(After(start, es, timeout), e, timeout)
  {
    assert (es + [e])[..|es|] == es;
  }

  lemma Prefix(start: int, es: seq<Timed>, i: nat, timeout: int)
    requires i < |es|
    ensures After(start, es[..i + 1], timeout) == Step(After(start, es[..i], timeout), es[i], timeout)
  {
    assert es[..i + 1][..i] == es[..i];
  }

  predicate Monotone(start: int, es: seq<Timed>)
  {
    && (forall i :: 0 <= i < |es| ==> start <= es[i].now)
    && (forall i, j :: 0 <= i < j < |es| ==> es[i].now <= es[j].now)
  }

  predicate Busy(s: Application)
  {
    s.active != {}
  }

  // ---- The invariant -----------------------------------------------------------------

  ghost predicate KeysBelowSequence(s: Application)
  {
    forall k :: k in s.requests ==> exists r, n: nat :: n < s.sequence && k == RequestKey(r, n)
  }

  /** The one line that deletes a request's key has run. */
  predicate Removed(r: Request)
  {
    match r
    case Business(phase, _) => phase.Finished?
    case Streaming(stream) => stream.finalized
  }

  ghost predicate RequestInv(r: Request)
  {
    r.Streaming? ==> BusinessStream.StreamInv(r.stream)
  }

  /** The tracker holds exactly the requests whose deletion has not run. */
  ghost predicate TrackedExactly(s: Application)
  {
    && s.active <= s.requests.Keys
    && forall k :: k in s.requests ==> RequestInv(s.requests[k]) && (k in s.active <==> !Removed(s.requests[k]))
  }

  /** A timer of the current generation is the live one: it exists exactly when the
      daemon is ready and tracks nothing. */
  ghost predicate TimerExact(s: Application)
  {
    && (s.handle.Armed? <==> s.lifecycle.Ready? && !Busy(s))
    && (s.handle.Armed? ==> s.handle.timer < |s.timers| && s.timers[s.handle.timer].generation == s.generation)
    && (forall i :: 0 <= i < |s.timers| ==> s.timers[i].generation <= s.generation)
    && (forall i :: 0 <= i < |s.timers| && s.timers[i].generation == s.generation ==> s.lifecycle.Ready? && !Busy(s))
  }

  ghost predicate DrainExact(s: Application)
  {
    && (s.finalization.NotRequested? <==> !s.lifecycle.Stopping?)
    && (s.finalization.Drained? || s.finalization.Released? ==> !Busy(s))
    && (s.lifecycle.Starting? ==> s.requests == map[])
  }

  ghost predicate AllAborted(s: Application)
  {
    s.lifecycle.Stopping? ==> forall k :: k in s.active && k in s.requests ==> IsAborted(s.requests[k])
  }

  ghost predicate Inv(s: Application)
  {
    KeysBelowSequence(s) && TrackedExactly(s) && TimerExact(s) && DrainExact(s) && AllAborted(s)
  }

  lemma NewKeyIsFresh(s: Application, requestId: string)
    requires KeysBelowSequence(s)
    ensures RequestKey(requestId, s.sequence) !in s.requests
  {
    var key := RequestKey(requestId, s.sequence);
    if key in s.requests {
      var r, n: nat :| n < s.sequence && key == RequestKey(r, n);
      RequestKeysDiffer(requestId, s.sequence, r, n);
    }
  }

  lemma AdmitKeepsKeys(s: Application, requestId: string, streaming: bool, timeout: int)
    requires KeysBelowSequence(s)
    ensures KeysBelowSequence(Effect(s, Admit(requestId, streaming), timeout))
  {
    hide RequestKey, NewRequest;
    var key := RequestKey(requestId, s.sequence);
    var t := Effect(s, Admit(requestId, streaming), timeout);
    if s.lifecycle.Ready? {
      forall k | k in t.requests ensures exists r, n: nat :: n < t.sequence && k == RequestKey(r, n) {
        if k == key {
          assert s.sequence < t.sequence && key == RequestKey(requestId, s.sequence);
        } else {
          var r, n: nat :| n < s.sequence && k == RequestKey(r, n);
          assert n < t.sequence;
        }
      }
    }
  }

  lemma NewRequestInv(streaming: bool)
    ensures RequestInv(NewRequest(streaming)) && !Removed(NewRequest(streaming))
  {}

  lemma AdmitKeepsInv(s: Application, requestId: string, streaming: bool, timeout: int)
    requires Inv(s)
    ensures Inv(Effect(s, Admit(requestId, streaming), timeout))
    ensures RequestKey(requestId, s.sequence) !in s.requests
  {
    NewKeyIsFresh(s, requestId);
    AdmitKeepsKeys(s, requestId, streaming, timeout);
    NewRequestInv(streaming);
    hide KeysBelowSequence, RequestKey, NewRequest, RequestInv, Removed, IsAborted;
    var t := Effect(s, Admit(requestId, streaming), timeout);
    if s.lifecycle.Ready? {
      assert RequestKey(requestId, s.sequence) in t.active;
    }
  }

  /** One request changes and stays tracked. */
  lemma ChangeKeepsInv(s: Application, key: string, r: Request)
    requires Inv(s) && key in s.requests
    requires RequestInv(r) && Removed(r) == Removed(s.requests[key]) && (IsAborted(s.requests[key]) ==> IsAborted(r))
    ensures Inv(s.(requests := s.requests[key := r]))
  {
    hide RequestInv, Removed, IsAborted, RequestKey;
    var t := s.(requests := s.requests[key := r]);
    assert t.requests.Keys == s.requests.Keys;
  }

  /** One request reaches the line that deletes its key. */
  lemma ForgetKeepsInv(s: Application, key: string, r: Request, timeout: int)
    requires Inv(s) && key in s.active && key in s.requests
    requires RequestInv(r) && Removed(r)
    ensures Inv(Forget(s.(requests := s.requests[key := r]), key, timeout))
  {
    hide RequestInv, Removed, IsAborted, RequestKey;
    var t := Forget(s.(requests := s.requests[key := r]), key, timeout);
    assert t.requests.Keys == s.requests.Keys;
  }

  lemma InvTracks(s: Application)
    requires Inv(s)
    ensures TrackedExactly(s)
  {}

  /** A stream's finalizer runs in the event that makes it finalized, and not before its
      service call is over. */
  lemma StreamKeeps(stream: StreamState, event: StreamEvent)
    requires BusinessStream.StreamInv(stream)
    ensures var after := BusinessStream.StreamStep(stream, event);
            && BusinessStream.StreamInv(after)
            && (stream.aborted ==> after.aborted)
            && (after.removals > stream.removals <==> !stream.finalized && after.finalized)
            && (stream.finalized ==> after.finalized)
  {
    BusinessStream.StreamStepKeepsInv(stream, event);
    BusinessStream.ProgressOfStep(stream, event);
    hide BusinessStream.StreamStep;
  }

  lemma FlowKeepsInv(s: Application, key: string, event: StreamEvent, timeout: int)
    requires Inv(s) && key in s.requests && s.requests[key].Streaming?
    ensures Inv(FlowStep(s, key, event, timeout))
    ensures BusinessStream.StreamStep(s.requests[key].stream, event).removals > s.requests[key].stream.removals ==> key in s.active
  {
    var stream := s.requests[key].stream;
    StreamKeeps(stream, event);
    hide BusinessStream.StreamStep, BusinessStream.StreamInv, Inv;
    assert TrackedExactly(s) by { InvTracks(s); }
    var after := BusinessStream.StreamStep(stream, event);
    if after.removals > stream.removals {
      ForgetKeepsInv(s, key, Streaming(after), timeout);
    } else {
      ChangeKeepsInv(s, key, Streaming(after));
    }
  }

  lemma AdvanceKeepsInv(s: Application, key: string, step: BusinessStep, timeout: int)
    requires Inv(s) && key in s.requests && s.requests[key].Business?
    ensures Inv(AdvanceStep(s, key, step, timeout))
    ensures step.FinallyRuns? && s.requests[key].phase.Settled? ==> key in s.active
  {
    var r := s.requests[key];
    assert TrackedExactly(s) by { InvTracks(s); }
    if step.FinallyRuns? && r.phase.Settled? {
      ForgetKeepsInv(s, key, AdvanceRequest(r, step), timeout);
    } else {
      ChangeKeepsInv(s, key, AdvanceRequest(r, step));
    }
    hide Inv;
  }

  lemma AbortKeepsRequest(r: Request)
    requires RequestInv(r)
    ensures RequestInv(AbortRequest(r)) && Removed(AbortRequest(r)) == Removed(r) && IsAborted(AbortRequest(r))
    ensures ServiceRunning(AbortRequest(r)) == ServiceRunning(r)
  {
    if r.Streaming? {
      BusinessStream.StreamStepKeepsInv(r.stream, BusinessStream.Abort);
    }
  }

  lemma StopKeepsInv(s: Application)
    requires Inv(s)
    ensures Inv(Stop(s))
  {
    forall k | k in s.requests
      ensures RequestInv(AbortRequest(s.requests[k])) && Removed(AbortRequest(s.requests[k])) == Removed(s.requests[k])
      ensures IsAborted(AbortRequest(s.requests[k]))
    {
      AbortKeepsRequest(s.requests[k]);
    }
    hide RequestInv, Removed, IsAborted, AbortRequest, RequestKey;
    assert Stop(s).requests.Keys == s.requests.Keys;
  }

  lemma FireKeepsInv(s: Application, timer: Timer)
    requires Inv(s) && timer in s.timers
    ensures Inv(Fire(s, timer))
  {
    hide RequestInv, Removed, IsAborted, RequestKey, AbortRequest;
    StopKeepsInv(s);
    assert Stop(s.(handle := NoTimer)) == Stop(s);
  }

  lemma ReadyKeepsInv(s: Application, timeout: int)
    requires Inv(s)
    ensures Inv(Effect(s, MarkReady, timeout))
  {
    hide RequestInv, Removed, IsAborted, RequestKey;
  }

  lemma DrainKeepsInv(s: Application)
    requires Inv(s)
    ensures Inv(Effect(s, DrainObserved, 0)) && Inv(Effect(s, ReleaseResources, 0))
  {
    hide RequestInv, Removed, IsAborted, RequestKey;
  }

  lemma EffectKeepsInv(s: Application, a: Action, timeout: int)
    requires Inv(s)
    ensures Inv(Effect(s, a, timeout))
  {
    hide KeysBelowSequence, TrackedExactly, AllAborted, AdvanceStep, FlowStep;
    match a
    case Admit(requestId, streaming) => AdmitKeepsInv(s, requestId, streaming, timeout);
    case Advance(key, step) =>
      if key in s.requests && s.requests[key].Business? {
        AdvanceKeepsInv(s, key, step, timeout);
      }
    case Flow(key, event) =>
      if key in s.requests && s.requests[key].Streaming? {
        FlowKeepsInv(s, key, event, timeout);
      }
    case BeginStopping => StopKeepsInv(s);
    case TimerFires(i) =>
      if i < |s.timers| {
        FireKeepsInv(s, s.timers[i]);
      }
    case MarkReady => ReadyKeepsInv(s, timeout);
    case DrainObserved => DrainKeepsInv(s);
    case ReleaseResources => DrainKeepsInv(s);
  }

  lemma ClockKeepsInv(s: Application, now: int)
    requires Inv(s)
    ensures Inv(s.(clock := now))
  {
    hide RequestInv, Removed, IsAborted, RequestKey;
  }

  lemma {:induction false} AlwaysInv(start: int, es: seq<Timed>, timeout: int)
    ensures Inv(After(start, es, timeout))
    decreases |es|
  {
    if es != [] {
      hide Inv, Effect;
      var s := After(start, es[..|es| - 1], timeout);
      AlwaysInv(start, es[..|es| - 1], timeout);
      ClockKeepsInv(s, es[|es| - 1].now);
      EffectKeepsInv(s.(clock := es[|es| - 1].now), es[|es| - 1].action, timeout);
    }
  }

  // ---- Safe shutdown ------------------------------------------------------------------

  lemma RemovedIsOver(r: Request)
    requires RequestInv(r) && Removed(r)
    ensures ServiceOver(r) && !ServiceRunning(r)
  {}

  /** In every history an admitted request whose service call is running is tracked,
      streams with all their ways to be finalized included. */
  lemma RunningIsTracked(start: int, es: seq<Timed>, timeout: int, key: string)
    requires key in After(start, es, timeout).requests
    ensures var s := After(start, es, timeout); ServiceRunning(s.requests[key]) ==> key in s.active
  {
    AlwaysInv(start, es, timeout);
    var s := After(start, es, timeout);
    hide After, RequestInv, ServiceRunning;
    if key !in s.active {
      RemovedIsOver(s.requests[key]);
    }
  }

  /** Whenever the transfer store and the database are closed, the lifecycle is
      stopping, nothing is tracked, and the service call of every request ever admitted
      is over: no admitted work runs against a closed database. */
  lemma ClosedOnlyWhenDrained(start: int, es: seq<Timed>, timeout: int)
    requires After(start, es, timeout).finalization.Released?
    ensures var s := After(start, es, timeout);
            && s.lifecycle.Stopping? && !Busy(s)
            && forall key :: key in s.requests ==> ServiceOver(s.requests[key])
  {
    AlwaysInv(start, es, timeout);
    var s := After(start, es, timeout);
    hide After, RequestInv, ServiceOver, Removed;
    forall key | key in s.requests ensures ServiceOver(s.requests[key]) {
      RemovedIsOver(s.requests[key]);
    }
  }

  lemma ReleasedStays(s: Application, a: Action, timeout: int)
    requires s.finalization.Released?
    ensures Effect(s, a, timeout).finalization.Released?
  {
    hide BusinessStream.StreamStep, AbortRequest;
  }

  /** Once released, released for ever, and no request is tracked afterwards. */
  lemma {:induction false} NothingTrackedAfterRelease(start: int, es: seq<Timed>, k: nat, timeout: int)
    requires k <= |es| && After(start, es[..k], timeout).finalization.Released?
    ensures After(start, es, timeout).finalization.Released?
    ensures !Busy(After(start, es, timeout))
    decreases |es|
  {
    AlwaysInv(start, es, timeout);
    if k == |es| {
      assert es[..k] == es;
    } else {
      var front := es[..|es| - 1];
      assert front[..k] == es[..k];
      NothingTrackedAfterRelease(start, front, k, timeout);
      AlwaysInv(start, front, timeout);
      var s, e := After(start, front, timeout), es[|es| - 1];
      ReleasedStays(s.(clock := e.now), e.action, timeout);
      hide Inv, Effect;
    }
  }

  lemma RequestsStay(s: Application, a: Action, timeout: int)
    ensures s.requests.Keys <= Effect(s, a, timeout).requests.Keys
  {
    hide BusinessStream.StreamStep, AbortRequest;
  }

  lemma {:induction false} RequestsPersist(start: int, es: seq<Timed>, k: nat, timeout: int, key: string)
    requires k <= |es| && key in After(start, es[..k], timeout).requests
    ensures key in After(start, es, timeout).requests
    decreases |es|
  {
    if k == |es| {
      assert es[..k] == es;
    } else {
      var front, e := es[..|es| - 1], es[|es| - 1];
      assert front[..k] == es[..k];
      RequestsPersist(start, front, k, timeout, key);
      RequestsStay(After(start, front, timeout).(clock := e.now), e.action, timeout);
      hide Effect;
    }
  }

  /** In every history a request that was tracked and is tracked no longer was removed by
      its own `finally` or `finalize`, and its service call is over. */
  lemma LeavesOnlyWhenSettled(start: int, es: seq<Timed>, k: nat, timeout: int, key: string)
    requires k <= |es|
    requires key in After(start, es[..k], timeout).active && key !in After(start, es, timeout).active
    ensures var s := After(start, es, timeout);
            key in s.requests && Removed(s.requests[key]) && ServiceOver(s.requests[key])
  {
    hide After, Step, RequestInv, KeysBelowSequence;
    AlwaysInv(start, es[..k], timeout);
    AlwaysInv(start, es, timeout);
    RequestsPersist(start, es, k, timeout, key);
    RemovedIsOver(After(start, es, timeout).requests[key]);
  }

  // ---- What each step does -----------------------------------------------------------------

  /** A request is admitted exactly when the daemon is ready; the new one is of the kind
      asked for, not aborted, and waits for its service call to begin. */
  lemma AdmittedExactly(start: int, es: seq<Timed>, timeout: int, requestId: string, streaming: bool, now: int)
    ensures var s := After(start, es, timeout);
            var t := After(start, es + [Timed(Admit(requestId, streaming), now)], timeout);
            var key := RequestKey(requestId, s.sequence);
            if s.lifecycle.Ready? then
              && key !in s.requests && key in t.requests && t.requests - {key} == s.requests
              && t.active == s.active + {key} && t.handle.NoTimer?
              && (t.requests[key].Streaming? <==> streaming)
              && !IsAborted(t.requests[key]) && !ServiceRunning(t.requests[key]) && !ServiceOver(t.requests[key])
            else t == s.(clock := now)
  {
    AlwaysInv(start, es, timeout);
    Snoc(start, es, Timed(Admit(requestId, streaming), now), timeout);
    var s := After(start, es, timeout);
    NewKeyIsFresh(s, requestId);
    AdmitIsStep(s, requestId, streaming, now, timeout);
    hide After, RequestKey, Step, Inv;
  }

  /** The service call of a business request runs from the step that begins an un-aborted
      one to the step that settles it; it is over then, or at once when an aborted one
      begins; the entry is deleted by the `finally` after that. */
  lemma AdvanceExactly(r: Request, step: BusinessStep)
    requires r.Business?
    ensures var t := AdvanceRequest(r, step);
            var waits := !ServiceRunning(r) && !ServiceOver(r);
            && (ServiceRunning(t) <==> (ServiceRunning(r) && !step.ServiceSettles?) || (waits && step.Begins? && !IsAborted(r)))
            && (ServiceOver(t) <==> ServiceOver(r) || (ServiceRunning(r) && step.ServiceSettles?)
                                    || (waits && step.Begins? && IsAborted(r)))
            && (Removed(t) <==> Removed(r) || (ServiceOver(r) && step.FinallyRuns?))
            && (IsAborted(t) <==> IsAborted(r) || step.ClientAborts?)
  {}

  /** Once the daemon is stopping and nothing is tracked, and only then, the next test of
      the drain loop and what follows it close the transfer store and the database. */
  lemma ReleasedExactly(start: int, es: seq<Timed>, timeout: int, a: int, b: int)
    ensures var s := After(start, es, timeout);
            var t := After(start, (es + [Timed(DrainObserved, a)]) + [Timed(ReleaseResources, b)], timeout);
            t.finalization.Released? <==> s.lifecycle.Stopping? && !Busy(s)
  {
    AlwaysInv(start, es, timeout);
    Snoc(start, es, Timed(DrainObserved, a), timeout);
    Snoc(start, es + [Timed(DrainObserved, a)], Timed(ReleaseResources, b), timeout);
    hide After, KeysBelowSequence, TrackedExactly, AllAborted;
  }

  /** Stopping aborts every tracked request and no other. */
  lemma StopAbortsExactly(start: int, es: seq<Timed>, timeout: int, now: int, key: string)
    requires key in After(start, es, timeout).requests
    ensures var s, t := After(start, es, timeout), After(start, es + [Timed(BeginStopping, now)], timeout);
            && t.lifecycle.Stopping? && t.active == s.active && key in t.requests
            && (IsAborted(t.requests[key]) <==> IsAborted(s.requests[key]) || key in s.active)
  {
    AlwaysInv(start, es, timeout);
    Snoc(start, es, Timed(BeginStopping, now), timeout);
    hide After, KeysBelowSequence;
  }

  // ---- The idle timer --------------------------------------------------------------------

  /** After any history, stale and early callbacks included, a live timer exists exactly
      when the daemon is ready and idle; it is then of the current generation; and at any
      other time every timer ever filed belongs to an earlier generation. */
  lemma LiveTimerExactlyWhenIdle(start: int, es: seq<Timed>, timeout: int)
    ensures var s := After(start, es, timeout);
            && (s.handle.Armed? <==> s.lifecycle.Ready? && !Busy(s))
            && (s.handle.Armed? ==> s.handle.timer < |s.timers| && s.timers[s.handle.timer].generation == s.generation)
            && (!s.handle.Armed? ==> forall i :: 0 <= i < |s.timers| ==> s.timers[i].generation < s.generation)
  {
    AlwaysInv(start, es, timeout);
    hide After, TrackedExactly, KeysBelowSequence;
  }

  /** A timer of the current generation expires no earlier than one interval after
      the end of every busy state of the history. */
  ghost predicate DeadlinesFollowWork(start: int, es: seq<Timed>, timeout: int)
  {
    var s := After(start, es, timeout);
    forall j, i :: 0 <= j < |s.timers| && s.timers[j].generation == s.generation
                   && 0 <= i < |es| && Busy(After(start, es[..i], timeout)) ==>
      es[i].now + timeout <= s.timers[j].deadline
  }

  lemma ForgetTimers(s: Application, key: string, timeout: int)
    ensures var t := Forget(s, key, timeout);
            || (t.timers == s.timers && t.generation == s.generation)
            || (t.timers == s.timers + [Timer(t.generation, s.clock + timeout)] && t.generation == s.generation + 1)
  {}

  /** Advancing a request arms nothing, or ends its work and arms for one interval from now. */
  lemma AdvanceTimers(s: Application, key: string, step: BusinessStep, timeout: int)
    requires Inv(s) && key in s.requests && s.requests[key].Business?
    ensures var t := AdvanceStep(s, key, step, timeout);
            || (t.timers == s.timers && t.generation == s.generation)
            || (&& t.timers == s.timers + [Timer(t.generation, s.clock + timeout)] && t.generation == s.generation + 1
                && Busy(s))
  {
    AdvanceKeepsInv(s, key, step, timeout);
    ForgetTimers(s.(requests := s.requests[key := AdvanceRequest(s.requests[key], step)]), key, timeout);
    hide Forget, Inv;
  }

  /** So does an event of a stream. */
  lemma FlowTimers(s: Application, key: string, event: StreamEvent, timeout: int)
    requires Inv(s) && key in s.requests && s.requests[key].Streaming?
    ensures var t := FlowStep(s, key, event, timeout);
            || (t.timers == s.timers && t.generation == s.generation)
            || (&& t.timers == s.timers + [Timer(t.generation, s.clock + timeout)] && t.generation == s.generation + 1
                && Busy(s))
  {
    FlowKeepsInv(s, key, event, timeout);
    var after := BusinessStream.StreamStep(s.requests[key].stream, event);
    ForgetTimers(s.(requests := s.requests[key := Streaming(after)]), key, timeout);
    hide Forget, Inv, BusinessStream.StreamStep;
  }

  /** A step other than a timer callback arms nothing, or arms for one interval from now. */
  lemma TimersOfStep(s: Application, e: Timed, timeout: int)
    requires Inv(s) && !e.action.TimerFires?
    ensures var t := Step(s, e, timeout);
            || (t.timers == s.timers && s.generation <= t.generation <= s.generation + 1)
            || (&& t.timers == s.timers + [Timer(t.generation, e.now + timeout)] && t.generation == s.generation + 1
                && (Busy(s) || (s.lifecycle.Starting? && e.action.MarkReady?)))
  {
    var u := s.(clock := e.now);
    ClockKeepsInv(s, e.now);
    hide AdvanceStep, FlowStep, AbortRequest, RequestKey, Inv;
    match e.action
    case Advance(key, step) =>
      if key in s.requests && s.requests[key].Business? {
        AdvanceTimers(u, key, step, timeout);
      }
    case Flow(key, event) =>
      if key in s.requests && s.requests[key].Streaming? {
        FlowTimers(u, key, event, timeout);
      }
    case _ =>
  }

  /** Where a timer of the current generation comes from: it was armed by this very
      step for one interval from now, when the last request was forgotten or the daemon
      became ready, or its deadline is that of an older one of the same generation. */
  lemma TimerOrigin(s: Application, e: Timed, timeout: int, j: nat)
    requires Inv(s)
    requires var t := Step(s, e, timeout); j < |t.timers| && t.timers[j].generation == t.generation
    ensures var t := Step(s, e, timeout);
            || (t.timers[j].deadline == e.now + timeout && (Busy(s) || (s.lifecycle.Starting? && e.action.MarkReady?)))
            || (&& !Busy(s)
                && exists i :: 0 <= i < |s.timers| && s.timers[i].generation == s.generation
                               && s.timers[i].deadline == t.timers[j].deadline)
  {
    var t := Step(s, e, timeout);
    if e.action.TimerFires? {
      hide BusinessStream.StreamStep, AbortRequest, KeysBelowSequence, TrackedExactly, AllAborted;
      var i := if j == |s.timers| then e.action.timer else j;
      assert i < |s.timers| && s.timers[i].generation == s.generation && s.timers[i].deadline == t.timers[j].deadline;
    } else {
      TimersOfStep(s, e, timeout);
      hide Step, KeysBelowSequence, TrackedExactly, AllAborted;
      if j < |s.timers| {
        assert s.timers[j] == t.timers[j];
      }
    }
  }

  lemma DeadlineFollows(start: int, front: seq<Timed>, e: Timed, timeout: int, i: nat, j: nat)
    requires Monotone(start, front + [e])
    requires DeadlinesFollowWork(start, front, timeout) && Inv(After(start, front, timeout))
    requires i <= |front| && Busy(After(start, (front + [e])[..i], timeout))
    requires var t := Step(After(start, front, timeout), e, timeout);
             j < |t.timers| && t.timers[j].generation == t.generation
    ensures (front + [e])[i].now + timeout <= Step(After(start, front, timeout), e, timeout).timers[j].deadline
  {
    hide Inv, Step, After, Busy;
    var s := After(start, front, timeout);
    var t := Step(s, e, timeout);
    TimerOrigin(s, e, timeout, j);
    assert (front + [e])[..i] == front[..i] && front[..|front|] == front;
    if t.timers[j].deadline != e.now + timeout {
      var k :| 0 <= k < |s.timers| && s.timers[k].generation == s.generation && s.timers[k].deadline == t.timers[j].deadline;
      assert i < |front|;
      assert front[i].now + timeout <= s.timers[k].deadline;
    } else {
      assert (front + [e])[|front|] == e;
    }
  }

  lemma DeadlinesStep(start: int, front: seq<Timed>, e: Timed, timeout: int)
    requires Monotone(start, front + [e])
    requires DeadlinesFollowWork(start, front, timeout) && Inv(After(start, front, timeout))
    ensures DeadlinesFollowWork(start, front + [e], timeout)
  {
    hide Inv, Step, After;
    var s := After(start, front, timeout);
    var t := Step(s, e, timeout);
    Snoc(start, front, e, timeout);
    forall j, i | 0 <= j < |t.timers| && t.timers[j].generation == t.generation
                  && 0 <= i < |front| + 1 && Busy(After(start, (front + [e])[..i], timeout))
      ensures (front + [e])[i].now + timeout <= t.timers[j].deadline
    {
      DeadlineFollows(start, front, e, timeout, i, j);
    }
  }

  lemma MonotoneFront(start: int, front: seq<Timed>, e: Timed)
    requires Monotone(start, front + [e])
    ensures Monotone(start, front)
  {
    assert forall i :: 0 <= i < |front| ==> (front + [e])[i] == front[i];
  }

  lemma {:induction false} DeadlinesAlwaysFollowWork(start: int, es: seq<Timed>, timeout: int)
    requires Monotone(start, es)
    ensures DeadlinesFollowWork(start, es, timeout)
    decreases |es|
  {
    if es != [] {
      var front, e := es[..|es| - 1], es[|es| - 1];
      assert es == front + [e];
      hide DeadlinesFollowWork, After, Inv, Monotone;
      MonotoneFront(start, front, e);
      DeadlinesAlwaysFollowWork(start, front, timeout);
      AlwaysInv(start, front, timeout);
      DeadlinesStep(start, front, e, timeout);
    }
  }

  lemma FiringStops(s: Application, e: Timed, timeout: int)
    requires Inv(s) && s.lifecycle.Ready? && e.action.TimerFires?
    requires Step(s, e, timeout).lifecycle.Stopping?
    ensures e.action.timer < |s.timers|
    ensures s.timers[e.action.timer].generation == s.generation && s.timers[e.action.timer].deadline <= e.now
    ensures !Busy(s)
  {}

  /** After any history a callback of a timer of the current generation begins stopping
      exactly when the deadline has come, however late it runs; one that is early leaves
      a live timer with the same deadline. A callback of an earlier generation does
      nothing. */
  lemma ExpiryExactly(start: int, es: seq<Timed>, timeout: int, i: nat, now: int)
    requires i < |After(start, es, timeout).timers|
    ensures var s := After(start, es, timeout);
            var t, timer := After(start, es + [Timed(TimerFires(i), now)], timeout), s.timers[i];
            && (timer.generation == s.generation ==>
                  && s.lifecycle.Ready?
                  && (t.lifecycle.Stopping? <==> timer.deadline <= now)
                  && (t.lifecycle.Stopping? ==> t.finalization.Draining?)
                  && (now < timer.deadline ==>
                        t.lifecycle.Ready? && t.handle.Armed?
                        && t.handle.timer < |t.timers| && t.timers[t.handle.timer] == Timer(t.generation, timer.deadline)))
            && (timer.generation != s.generation ==> t == s.(clock := now))
  {
    AlwaysInv(start, es, timeout);
    Snoc(start, es, Timed(TimerFires(i), now), timeout);
    hide After, KeysBelowSequence, TrackedExactly, AllAborted;
  }

  /** The lifecycle after any history moves from starting to ready by `markReady` alone,
      and to stopping by `beginStopping` or by a current timer whose deadline has come. */
  lemma LifecycleExactly(start: int, es: seq<Timed>, e: Timed, timeout: int)
    ensures var s, t := After(start, es, timeout), After(start, es + [e], timeout);
            var due := e.action.TimerFires? && e.action.timer < |s.timers|
                       && s.timers[e.action.timer].generation == s.generation
                       && s.timers[e.action.timer].deadline <= e.now;
            && (t.lifecycle.Stopping? <==> s.lifecycle.Stopping? || e.action.BeginStopping? || due)
            && (t.lifecycle.Starting? <==> s.lifecycle.Starting? && !e.action.MarkReady? && !e.action.BeginStopping?)
  {
    AlwaysInv(start, es, timeout);
    Snoc(start, es, e, timeout);
    hide After, KeysBelowSequence, TrackedExactly, AllAborted, BusinessStream.StreamStep, AdvanceRequest, AbortRequest, RequestKey;
  }

  /** When an idle callback begins stopping at time t, every state with a tracked
      request had been left by t - timeout. */
  lemma IdleExpiryFollowsQuiet(start: int, es: seq<Timed>, k: nat, timeout: int)
    requires Monotone(start, es) && k < |es|
    requires es[k].action.TimerFires?
    requires After(start, es[..k], timeout).lifecycle.Ready?
    requires After(start, es[..k + 1], timeout).lifecycle.Stopping?
    ensures !Busy(After(start, es[..k], timeout))
    ensures forall i :: 0 <= i < k && Busy(After(start, es[..i], timeout)) ==>
              es[i].now <= es[k].now - timeout
  {
    var front := es[..k];
    var s := After(start, front, timeout);
    Prefix(start, es, k, timeout);
    AlwaysInv(start, front, timeout);
    DeadlinesAlwaysFollowWork(start, front, timeout);
    FiringStops(s, es[k], timeout);
    forall i | 0 <= i < k && Busy(After(start, es[..i], timeout))
      ensures es[i].now <= es[k].now - timeout
    {
      assert front[..i] == es[..i] && front[i] == es[i];
      assert front[i].now + timeout <= s.timers[es[k].action.timer].deadline;
    }
  }

  lemma AdmitMakesBusy(s: Application, e: Timed, timeout: int)
    requires e.action.Admit? && s.lifecycle.Ready?
    ensures Busy(Step(s, e, timeout))
  {
    assert RequestKey(e.action.requestId, s.sequence) in Step(s, e, timeout).active;
  }

  /** ... and nothing was admitted after t - timeout. */
  lemma IdleExpiryFollowsAdmissions(start: int, es: seq<Timed>, k: nat, i: nat, timeout: int)
    requires Monotone(start, es) && i < k < |es|
    requires es[k].action.TimerFires?
    requires After(start, es[..k], timeout).lifecycle.Ready?
    requires After(start, es[..k + 1], timeout).lifecycle.Stopping?
    requires es[i].action.Admit? && After(start, es[..i], timeout).lifecycle.Ready?
    ensures es[i].now <= es[k].now - timeout
  {
    IdleExpiryFollowsQuiet(start, es, k, timeout);
    Prefix(start, es, i, timeout);
    AdmitMakesBusy(After(start, es[..i], timeout), es[i], timeout);
    assert i + 1 < k;
    assert es[i].now <= es[i + 1].now;
  }

  // ---- The closed interval -------------------------------------------------------------------

  ghost predicate NeverBusy(start: int, es: seq<Timed>, timeout: int)
  {
    forall i :: 0 <= i <= |es| ==> !Busy(After(start, es[..i], timeout))
  }

  /** The deadline is one interval after the end of a busy state of the history. */
  ghost predicate EndsWork(start: int, es: seq<Timed>, timeout: int, deadline: int)
  {
    exists i :: 0 <= i < |es| && Busy(After(start, es[..i], timeout)) && es[i].now + timeout == deadline
  }

  lemma NeverBusyGrows(start: int, front: seq<Timed>, e: Timed, timeout: int)
    requires NeverBusy(start, front, timeout) && !Busy(After(start, front + [e], timeout))
    ensures NeverBusy(start, front + [e], timeout)
  {
    hide After, Busy;
    var es := front + [e];
    forall i | 0 <= i <= |es| ensures !Busy(After(start, es[..i], timeout)) {
      if i <= |front| {
        assert es[..i] == front[..i];
      } else {
        assert es[..i] == es;
      }
    }
  }

  lemma StartingIsIdle(s: Application)
    requires Inv(s) && s.lifecycle.Starting?
    ensures !Busy(s)
  {
    hide KeysBelowSequence, RequestInv, Removed;
  }

  lemma StartingStays(s: Application, e: Timed, timeout: int)
    requires Step(s, e, timeout).lifecycle.Starting?
    ensures s.lifecycle.Starting?
  {
    hide BusinessStream.StreamStep, AbortRequest;
  }

  /** Nothing is admitted before the daemon is ready. */
  lemma {:induction false} StartingWasNeverBusy(start: int, es: seq<Timed>, timeout: int)
    requires After(start, es, timeout).lifecycle.Starting?
    ensures NeverBusy(start, es, timeout)
    decreases |es|
  {
    AlwaysInv(start, es, timeout);
    StartingIsIdle(After(start, es, timeout));
    assert es[..|es|] == es;
    if es != [] {
      var front, e := es[..|es| - 1], es[|es| - 1];
      assert es == front + [e];
      StartingStays(After(start, front, timeout), e, timeout);
      hide After, NeverBusy, Inv;
      StartingWasNeverBusy(start, front, timeout);
      NeverBusyGrows(start, front, e, timeout);
    }
  }

  lemma CurrentTimerIsIdle(s: Application, j: nat)
    requires Inv(s) && j < |s.timers| && s.timers[j].generation == s.generation
    ensures !Busy(s)
  {
    hide KeysBelowSequence, TrackedExactly;
  }

  lemma EndsWorkGrows(start: int, front: seq<Timed>, e: Timed, timeout: int, deadline: int)
    requires EndsWork(start, front, timeout, deadline)
    ensures EndsWork(start, front + [e], timeout, deadline)
  {
    hide After, Busy;
    var es := front + [e];
    var i :| 0 <= i < |front| && Busy(After(start, front[..i], timeout)) && front[i].now + timeout == deadline;
    assert es[..i] == front[..i] && es[i] == front[i];
  }

  /** This is one interval after the daemon became ready. */
  ghost predicate FollowsReady(start: int, es: seq<Timed>, timeout: int, deadline: int)
  {
    exists i :: 0 <= i < |es| && After(start, es[..i], timeout).lifecycle.Starting? && es[i].action.MarkReady?
                && es[i].now + timeout == deadline
  }

  lemma FollowsReadyGrows(start: int, front: seq<Timed>, e: Timed, timeout: int, deadline: int)
    requires FollowsReady(start, front, timeout, deadline)
    ensures FollowsReady(start, front + [e], timeout, deadline)
  {
    hide After;
    var es := front + [e];
    var i :| 0 <= i < |front| && After(start, front[..i], timeout).lifecycle.Starting? && front[i].action.MarkReady?
             && front[i].now + timeout == deadline;
    assert es[..i] == front[..i] && es[i] == front[i];
  }

  /** A timer of the current generation expires one interval after the end of some busy
      state, or, when nothing was ever tracked, one interval after the daemon became
      ready. */
  lemma {:induction false} DeadlineEndsWork(start: int, es: seq<Timed>, timeout: int, j: nat)
    requires var s := After(start, es, timeout); j < |s.timers| && s.timers[j].generation == s.generation
    ensures var deadline := After(start, es, timeout).timers[j].deadline;
            || EndsWork(start, es, timeout, deadline)
            || (NeverBusy(start, es, timeout) && FollowsReady(start, es, timeout, deadline))
    decreases |es|
  {
    var front, e := es[..|es| - 1], es[|es| - 1];
    var s, t := After(start, front, timeout), After(start, es, timeout);
    AlwaysInv(start, front, timeout);
    AlwaysInv(start, es, timeout);
    TimerOrigin(s, e, timeout, j);
    CurrentTimerIsIdle(t, j);
    hide Inv, Step;
    assert es[..|es| - 1] == front;
    if t.timers[j].deadline == e.now + timeout && Busy(s) {
      assert Busy(After(start, es[..|es| - 1], timeout));
    } else if s.lifecycle.Starting? && e.action.MarkReady? && t.timers[j].deadline == e.now + timeout {
      StartingWasNeverBusy(start, front, timeout);
      NeverBusyGrows(start, front, e, timeout);
      assert After(start, es[..|front|], timeout).lifecycle.Starting?;
    } else {
      var i :| 0 <= i < |s.timers| && s.timers[i].generation == s.generation && s.timers[i].deadline == t.timers[j].deadline;
      DeadlineEndsWork(start, front, timeout, i);
      if NeverBusy(start, front, timeout) && FollowsReady(start, front, timeout, t.timers[j].deadline) {
        NeverBusyGrows(start, front, e, timeout);
        FollowsReadyGrows(start, front, e, timeout, t.timers[j].deadline);
      } else {
        EndsWorkGrows(start, front, e, timeout, t.timers[j].deadline);
      }
    }
    assert es == front + [e];
  }

  /** What a deadline that follows all work says about the quiet before the moment now. */
  lemma QuietBy(start: int, es: seq<Timed>, timeout: int, deadline: int, now: int)
    requires forall i :: 0 <= i < |es| && Busy(After(start, es[..i], timeout)) ==> es[i].now + timeout <= deadline
    requires EndsWork(start, es, timeout, deadline) || NeverBusy(start, es, timeout)
    requires deadline <= now
    ensures (forall i :: 0 <= i < |es| && Busy(After(start, es[..i], timeout)) ==> es[i].now < now - timeout)
            <==> now > deadline || NeverBusy(start, es, timeout)
  {
    hide After, Busy;
    if now <= deadline && !NeverBusy(start, es, timeout) {
      var i :| 0 <= i < |es| && Busy(After(start, es[..i], timeout)) && es[i].now + timeout == deadline;
      assert !(es[i].now < now - timeout);
    }
  }

  /** When a timer callback begins stopping a ready daemon at t, nothing was tracked in
      the whole closed interval from t - timeout on exactly when the callback ran later
      than its deadline or nothing was ever tracked. */
  lemma ClosedIntervalQuietExactly(start: int, es: seq<Timed>, k: nat, timeout: int)
    requires Monotone(start, es) && k < |es|
    requires es[k].action.TimerFires?
    requires After(start, es[..k], timeout).lifecycle.Ready?
    requires After(start, es[..k + 1], timeout).lifecycle.Stopping?
    ensures es[k].action.timer < |After(start, es[..k], timeout).timers|
    ensures (forall i :: 0 <= i < k && Busy(After(start, es[..i], timeout)) ==> es[i].now < es[k].now - timeout)
            <==> es[k].now > After(start, es[..k], timeout).timers[es[k].action.timer].deadline
                 || NeverBusy(start, es[..k], timeout)
  {
    var front := es[..k];
    var s := After(start, front, timeout);
    Prefix(start, es, k, timeout);
    AlwaysInv(start, front, timeout);
    FiringStops(s, es[k], timeout);
    DeadlinesAlwaysFollowWork(start, front, timeout);
    DeadlineEndsWork(start, front, timeout, es[k].action.timer);
    hide After, Busy, Inv, Step;
    forall i | 0 <= i < k ensures front[..i] == es[..i] && front[i] == es[i] {}
    QuietBy(start, front, timeout, s.timers[es[k].action.timer].deadline, es[k].now);
  }

  function EdgeWork(key: string, a: int): seq<Timed>
  {
    [Timed(Advance(key, Begins), a)] + [Timed(Advance(key, ServiceSettles), a)] + [Timed(Advance(key, FinallyRuns), a)]
  }

  function EdgeState(key: string, phase: Phase, a: int, timeout: int): Application
  {
    Application(Ready, map[key := Business(phase, false)], {key}, 1, 2, NoTimer, [Timer(1, a + timeout)], NotRequested, a)
  }

  lemma EdgeAdmission(key: string, requestId: string, a: int, timeout: int)
    requires key == RequestKey(requestId, 0)
    ensures Step(Step(Initial(a), Timed(MarkReady, a), timeout), Timed(Admit(requestId, false), a), timeout)
            == EdgeState(key, Waiting, a, timeout)
  {
    var s1 := Step(Initial(a), Timed(MarkReady, a), timeout);
    assert s1 == Application(Ready, map[], {}, 0, 1, Armed(0), [Timer(1, a + timeout)], NotRequested, a);
  }

  lemma EdgeBusy(requestId: string, a: int, timeout: int)
    ensures After(a, [Timed(MarkReady, a)] + [Timed(Admit(requestId, false), a)], timeout)
            == EdgeState(RequestKey(requestId, 0), Waiting, a, timeout)
  {
    var ready := [Timed(MarkReady, a)];
    EdgeAdmission(RequestKey(requestId, 0), requestId, a, timeout);
    Snoc(a, [], Timed(MarkReady, a), timeout);
    Snoc(a, ready, Timed(Admit(requestId, false), a), timeout);
    hide Step, RequestKey;
    assert [] + [Timed(MarkReady, a)] == ready;
    assert After(a, [], timeout) == Initial(a);
  }

  function EdgeIdle(key: string, a: int, timeout: int): Application
  {
    Application(Ready, map[key := Business(Finished, false)], {}, 1, 3, Armed(1),
                [Timer(1, a + timeout), Timer(3, a + timeout)], NotRequested, a)
  }

  lemma EdgeFires(key: string, t: int, timeout: int)
    ensures Step(EdgeIdle(key, t - timeout, timeout), Timed(TimerFires(1), t), timeout).lifecycle.Stopping?
  {}

  lemma EdgeSettlement(key: string, a: int, timeout: int)
    ensures Step(EdgeState(key, Waiting, a, timeout), Timed(Advance(key, Begins), a), timeout)
            == EdgeState(key, Running, a, timeout)
    ensures Step(EdgeState(key, Running, a, timeout), Timed(Advance(key, ServiceSettles), a), timeout)
            == EdgeState(key, Settled, a, timeout)
    ensures Step(EdgeState(key, Settled, a, timeout), Timed(Advance(key, FinallyRuns), a), timeout)
            == EdgeIdle(key, a, timeout)
  {
    var w, r, d := Business(Waiting, false), Business(Running, false), Business(Settled, false);
    assert map[key := w][key := r] == map[key := r];
    assert map[key := r][key := d] == map[key := d];
    assert map[key := d][key := Business(Finished, false)] == map[key := Business(Finished, false)];
    assert {key} - {key} == {};
  }

  lemma EdgeWorkRetires(key: string, a: int, busy: seq<Timed>, timeout: int)
    requires After(a, busy, timeout) == EdgeState(key, Waiting, a, timeout)
    ensures After(a, busy + EdgeWork(key, a), timeout) == EdgeIdle(key, a, timeout)
  {
    var h3 := busy + [Timed(Advance(key, Begins), a)];
    var h4 := h3 + [Timed(Advance(key, ServiceSettles), a)];
    Snoc(a, busy, Timed(Advance(key, Begins), a), timeout);
    Snoc(a, h3, Timed(Advance(key, ServiceSettles), a), timeout);
    Snoc(a, h4, Timed(Advance(key, FinallyRuns), a), timeout);
    EdgeSettlement(key, a, timeout);
    hide After, Step;
    assert busy + EdgeWork(key, a) == h4 + [Timed(Advance(key, FinallyRuns), a)];
  }

  /** The clock stands still until the last event. */
  lemma EdgeIsMonotone(requestId: string, key: string, a: int, t: int)
    requires a <= t
    ensures var busy := [Timed(MarkReady, a)] + [Timed(Admit(requestId, false), a)];
            var idle := busy + EdgeWork(key, a);
            Monotone(a, idle + [Timed(TimerFires(1), t)]) && |idle| == 5 && idle[|busy|].now == a
  {}

  lemma EdgeStates(key: string, a: int, timeout: int)
    ensures Busy(EdgeState(key, Waiting, a, timeout)) && EdgeIdle(key, a, timeout).lifecycle.Ready?
  {
    assert key in EdgeState(key, Waiting, a, timeout).active;
  }

  /** The case in between occurs: work admitted and retired within one clock tick arms
      the timer for that same tick, and the callback runs at its deadline. */
  lemma QuietIntervalIsOpenOnTheLeft(requestId: string, t: int, timeout: int)
    requires timeout > 0
    ensures var a := t - timeout;
            var busy := [Timed(MarkReady, a)] + [Timed(Admit(requestId, false), a)];
            var idle := busy + EdgeWork(RequestKey(requestId, 0), a);
            && Monotone(a, idle + [Timed(TimerFires(1), t)])
            && Busy(After(a, busy, timeout))
            && idle[|busy|].now == t - timeout
            && After(a, idle, timeout).lifecycle.Ready?
            && After(a, idle + [Timed(TimerFires(1), t)], timeout).lifecycle.Stopping?
  {
    hide *;
    var a, key := t - timeout, RequestKey(requestId, 0);
    var busy := [Timed(MarkReady, a)] + [Timed(Admit(requestId, false), a)];
    EdgeIsMonotone(requestId, key, a, t);
    EdgeBusy(requestId, a, timeout);
    EdgeWorkRetires(key, a, busy, timeout);
    EdgeFires(key, t, timeout);
    Snoc(a, busy + EdgeWork(key, a), Timed(TimerFires(1), t), timeout);
    EdgeStates(key, a, timeout);
  }

  // ---- The application object ---------------------------------------------------------------

  class DaemonApplication {
    const timeout: int
    var lifecycle: Lifecycle
    var requests: map<string, Request>
    var active: set<string>
    var requestSequence: nat
    var idleGeneration: nat
    var idleTimerHandle: Handle
    var timers: seq<Timer>
    var finalization: Finalization
    var stoppingNotified: bool
    ghost var clock: int

    ghost function View(): Application
      reads this
    {
      Application(lifecycle, requests, active, requestSequence, idleGeneration, idleTimerHandle, timers, finalization, clock)
    }

    ghost predicate Valid()
      reads this
    {
      Inv(View()) && stoppingNotified == lifecycle.Stopping?
    }

    constructor (idleTimeoutMs: int, ghost start: int)
      requires idleTimeoutMs >= 1
      ensures Valid() && View() == Initial(start) && timeout == idleTimeoutMs
    {
      timeout := idleTimeoutMs;
      lifecycle, requests, active, requestSequence, idleGeneration := Starting, map[], {}, 0, 0;
      idleTimerHandle, timers, finalization, stoppingNotified := NoTimer, [], NotRequested, false;
      clock := start;
    }

    /** Returns false where the original throws. */
    method BecomeReady(now: int) returns (ok: bool)
      requires Valid()
      modifies this
      ensures Valid() && View() == Step(old(View()), Timed(MarkReady, now), timeout)
      ensures ok == old(lifecycle).Starting?
    {
      ClockKeepsInv(View(), now);
      EffectKeepsInv(View().(clock := now), MarkReady, timeout);
      hide Inv;
      clock := now;
      ok := lifecycle.Starting?;
      if ok {
        lifecycle := Ready;
        Arm(now);
      }
    }

    /** The synchronous head of `#business` and `#businessStream`. */
    method AdmitRequest(requestId: string, streaming: bool, now: int) returns (admitted: bool, key: string)
      requires Valid()
      modifies this
      ensures Valid() && View() == Step(old(View()), Timed(Admit(requestId, streaming), now), timeout)
      ensures admitted == old(lifecycle).Ready?
      ensures admitted ==> key !in old(requests) && key in active && requests == old(requests)[key := NewRequest(streaming)]
    {
      ClockKeepsInv(View(), now);
      AdmitKeepsInv(View().(clock := now), requestId, streaming, timeout);
      AdmitIsStep(View(), requestId, streaming, now, timeout);
      hide Inv, RequestKey, NewRequest, Step, DisarmIdle;
      clock := now;
      key := "";
      admitted := lifecycle.Ready?;
      if admitted {
        key := RequestKey(requestId, requestSequence);
        requestSequence := requestSequence + 1;
        requests := requests[key := NewRequest(streaming)];
        active := active + {key};
        Disarm();
      }
    }

    /** One link of the promise chain of `#business`; the last is its `finally`. */
    method AdvanceBusiness(key: string, step: BusinessStep, now: int)
      requires Valid() && key in requests && requests[key].Business?
      requires step.FinallyRuns? ==> requests[key].phase.Settled?
      modifies this
      ensures Valid() && View() == Step(old(View()), Timed(Advance(key, step), now), timeout)
      ensures step.FinallyRuns? ==> key in old(active) && active == old(active) - {key}
    {
      ClockKeepsInv(View(), now);
      AdvanceKeepsInv(View().(clock := now), key, step, timeout);
      AdvanceIsStep(View(), key, step, now, timeout);
      hide Inv, Forget, AdvanceRequest, Step;
      clock := now;
      requests := requests[key := AdvanceRequest(requests[key], step)];
      if step.FinallyRuns? {
        ForgetKey(key, now);
      }
    }

    /** `#active.delete(key)`, with the timer armed again when it was the last. */
    method ForgetKey(key: string, now: int)
      requires now == clock
      modifies this`active, this`idleGeneration, this`idleTimerHandle, this`timers
      ensures View() == Forget(old(View()), key, timeout) && active == old(active) - {key}
    {
      active := active - {key};
      Arm(now);
    }

    /** One event of a stream; its `finalize` deletes the key. */
    method FlowStream(key: string, event: StreamEvent, now: int)
      requires Valid() && key in requests && requests[key].Streaming?
      modifies this
      ensures Valid() && View() == Step(old(View()), Timed(Flow(key, event), now), timeout)
    {
      ClockKeepsInv(View(), now);
      FlowKeepsInv(View().(clock := now), key, event, timeout);
      ghost var u := View().(clock := now);
      FlowIsStep(View(), key, event, now, timeout);
      hide Inv, BusinessStream.StreamStep, Forget, Step;
      clock := now;
      var before := requests[key].stream;
      var after := BusinessStream.StreamStep(before, event);
      requests := requests[key := Streaming(after)];
      assert View() == u.(requests := u.requests[key := Streaming(after)]);
      if after.removals > before.removals {
        ForgetKey(key, now);
      }
    }

    method StopAccepting(now: int) returns (alreadyStopping: bool)
      requires Valid()
      modifies this
      ensures Valid() && View() == Step(old(View()), Timed(BeginStopping, now), timeout)
      ensures alreadyStopping == old(lifecycle).Stopping?
    {
      ClockKeepsInv(View(), now);
      StopKeepsInv(View().(clock := now));
      hide KeysBelowSequence, TrackedExactly, TimerExact, AllAborted;
      clock := now;
      alreadyStopping := EnterStopping();
    }

    method EnterStopping() returns (alreadyStopping: bool)
      requires stoppingNotified == lifecycle.Stopping? && (lifecycle.Stopping? <==> !finalization.NotRequested?)
      modifies this
      ensures View() == Stop(old(View())) && stoppingNotified
      ensures alreadyStopping == old(lifecycle).Stopping?
    {
      hide AbortRequest;
      alreadyStopping := lifecycle.Stopping?;
      lifecycle := Stopping;
      Disarm();
      requests := map k | k in requests :: if k in active then AbortRequest(requests[k]) else requests[k];
      if !stoppingNotified {
        stoppingNotified := true;
        finalization := Draining;
      }
    }

    /** The callback given to the host timer. */
    method IdleCallback(timer: nat, now: int)
      requires Valid() && timer < |timers|
      modifies this
      ensures Valid() && View() == Step(old(View()), Timed(TimerFires(timer), now), timeout)
      ensures old(timers)[timer].generation == old(idleGeneration) ==>
                (lifecycle.Stopping? <==> old(timers)[timer].deadline <= now)
      ensures old(timers)[timer].generation == old(idleGeneration) && now < old(timers)[timer].deadline ==>
                && idleTimerHandle.Armed? && idleTimerHandle.timer < |timers|
                && timers[idleTimerHandle.timer] == Timer(idleGeneration, old(timers)[timer].deadline)
      ensures old(timers)[timer].generation != old(idleGeneration) ==> View() == old(View()).(clock := now)
    {
      ClockKeepsInv(View(), now);
      EffectKeepsInv(View().(clock := now), TimerFires(timer), timeout);
      hide KeysBelowSequence, TrackedExactly, TimerExact, AllAborted, AbortRequest;
      clock := now;
      var fired := timers[timer];
      if fired.generation != idleGeneration {
        return;
      }
      idleTimerHandle := NoTimer;
      if !lifecycle.Ready? || active != {} {
        return;
      }
      if now < fired.deadline {
        Schedule(fired.deadline);
        return;
      }
      var _ := EnterStopping();
    }

    /** One test of the `whenDrained` loop; true when the loop is left. */
    method ObserveDrain(now: int) returns (drained: bool)
      requires Valid() && finalization.Draining?
      modifies this
      ensures Valid() && View() == Step(old(View()), Timed(DrainObserved, now), timeout)
      ensures drained == (old(active) == {})
    {
      ClockKeepsInv(View(), now);
      EffectKeepsInv(View().(clock := now), DrainObserved, timeout);
      hide Inv;
      clock := now;
      drained := active == {};
      if drained {
        finalization := Drained;
      }
    }

    method Release(now: int)
      requires Valid() && finalization.Drained?
      modifies this
      ensures Valid() && View() == Step(old(View()), Timed(ReleaseResources, now), timeout)
      ensures active == {} && lifecycle.Stopping?
    {
      ClockKeepsInv(View(), now);
      EffectKeepsInv(View().(clock := now), ReleaseResources, timeout);
      hide KeysBelowSequence, TrackedExactly, TimerExact, AllAborted;
      clock := now;
      finalization := Released;
    }

    method Arm(now: int)
      requires now == clock
      modifies this`idleGeneration, this`idleTimerHandle, this`timers
      ensures View() == ArmIdle(old(View()), timeout)
    {
      if !lifecycle.Ready? || active != {} {
        return;
      }
      Disarm();
      Schedule(now + timeout);
    }

    method Schedule(deadline: int)
      modifies this`idleTimerHandle, this`timers
      ensures View() == ScheduleIdleExpiry(old(View()), deadline)
    {
      idleTimerHandle := Armed(|timers|);
      timers := timers + [Timer(idleGeneration, deadline)];
    }

    method Disarm()
      modifies this`idleGeneration, this`idleTimerHandle
      ensures View() == DisarmIdle(old(View()))
    {
      idleGeneration := idleGeneration + 1;
      idleTimerHandle := NoTimer;
    }
  }
}
