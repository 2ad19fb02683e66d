/** One streaming request of the daemon application: its abort controller, producer,
    rendezvous and tracker entry (apps/daemon/src/application.ts:1756-1884). */
module BusinessStream {
  import opened StreamRendezvous

  /** The terminal value of the stream. */
  datatype Outcome<R> = Succeeded(value: R) | Failed | Cancelled

  /** The producer promise: waiting for secret access, running the service call,
      settled with its outcome, and past the callbacks that call `finish`. */
  datatype Phase<R> = AwaitingAccess | Invoking | Settled(outcome: Outcome<R>) | Finished

  /** The callback the abort listener attaches to the producer. */
  datatype Hook = Absent | Attached | Ran

  /** `finishing` counts `next` calls that hold a terminal step and have not yet
      run the line after their await, `stops` the `stop()` calls awaiting the
      producer. `removals` counts deletions from the tracker. */
  datatype Stream<T, R> = Stream(
    slot: Slot<T, Outcome<R>>,
    aborted: bool,
    phase: Phase<R>,
    hook: Hook,
    finishing: nat,
    stops: nat,
    completed: bool,
    finalized: bool,
    removals: nat)

  datatype StreamEvent<T, R> =
    | Abort
    | AccessGranted
    | Emit(value: T)
    | InvokeSettles(outcome: Outcome<R>)
    | ProducerFinishes
    | HookRuns
    | NextCalled
    | NextResumes(call: nat)
    | TerminalObserved
    | Stop
    | StopResumes

  function Admitted<T, R>(): Stream<T, R>
  {
    Stream(StreamRendezvous.Initial(), false, AwaitingAccess, Absent, 0, 0, false, false, 0)
  }

  // ---- The steps ----------------------------------------------------------------

  function Finalize<T, R>(s: Stream<T, R>): Stream<T, R>
  {
    if s.finalized then s else s.(finalized := true, removals := s.removals + 1)
  }

  /** `controller.abort()`: the listener runs the first time only. */
  function AbortStep<T, R>(s: Stream<T, R>): Stream<T, R>
  {
    if s.aborted then s
    else s.(aborted := true, slot := Step(s.slot, DoClose), hook := Attached)
  }

  /** A `next` stretch leaves a terminal step behind when it appends a `Done`. */
  function ReaderStep<T, R>(s: Stream<T, R>, a: Action<T, Outcome<R>>): Stream<T, R>
  {
    var t := Step(s.slot, a);
    s.(slot := t,
       finishing := s.finishing + if |t.replies| > |s.slot.replies| && t.replies[|t.replies| - 1].Done? then 1 else 0)
  }

  function StreamStep<T, R>(s: Stream<T, R>, e: StreamEvent<T, R>): Stream<T, R>
  {
    match e
    case Abort => AbortStep(s)
    case AccessGranted =>
      if !s.phase.AwaitingAccess? then s
      else s.(phase := if s.aborted then Settled(Failed) else Invoking)
    case Emit(value) =>
      if s.phase.AwaitingAccess? then s else s.(slot := Step(s.slot, DoPush(value)))
    case InvokeSettles(outcome) =>
      if s.phase.Invoking? then s.(phase := Settled(outcome)) else s
    case ProducerFinishes =>
      if !s.phase.Settled? then s
      else s.(phase := Finished,
              slot := Step(s.slot, DoFinish(if s.aborted then Cancelled else s.phase.outcome)))
    case HookRuns =>
      if s.hook.Attached? && s.phase.Finished? then Finalize(s.(hook := Ran)) else s
    case NextCalled => ReaderStep(s, DoNext)
    case NextResumes(call) => ReaderStep(s, DoResume(call))
    case TerminalObserved =>
      if s.finishing == 0 then s
      else Finalize(s.(finishing := s.finishing - 1, completed := true))
    case Stop =>
      if s.completed then Finalize(s)
      else var t := AbortStep(s); t.(slot := Step(t.slot, DoClose), stops := t.stops + 1)
    case StopResumes =>
      if s.stops == 0 || !s.phase.Finished? then s
      else Finalize(s.(stops := s.stops - 1, completed := true))
  }

  function StreamRun<T, R>(s: Stream<T, R>, es: seq<StreamEvent<T, R>>): Stream<T, R>
    decreases |es|
  {
    if es == [] then s else StreamRun(StreamStep(s, es[0]), es[1..])
  }

  // ---- The invariant ---------------------------------------------------------------

  /** The request is still in the tracker. */
  predicate Tracked<T, R>(s: Stream<T, R>)
  {
    s.removals == 0
  }

  ghost predicate StreamInv<T, R>(s: Stream<T, R>)
  {
    && Inv(s.slot)
    && s.removals == (if s.finalized then 1 else 0)
    && (s.phase.Finished? <==> s.slot.terminal.Set?)
    && (s.finalized || s.completed || s.finishing > 0 ==> s.phase.Finished?)
    && (s.aborted <==> s.hook != Absent)
    && (s.aborted <==> s.slot.closed)
    && (s.stops > 0 ==> s.aborted)
    && (s.hook.Ran? ==> s.finalized)
    && (s.completed ==> s.finalized)
    && (forall i :: 0 <= i < |s.slot.replies| && s.slot.replies[i].Done? ==> s.finishing > 0 || s.finalized)
  }

  lemma ReaderKeepsStreamInv<T, R>(s: Stream<T, R>, a: Action<T, Outcome<R>>)
    requires StreamInv(s) && (a.DoNext? || a.DoResume?)
    ensures StreamInv(ReaderStep(s, a))
  {
    hide Inv, AcceptedValues, DeliveredValues;
    StepKeepsInv(s.slot, a);
    var t := Step(s.slot, a);
    assert t.terminal == s.slot.terminal && t.closed == s.slot.closed;
    assert t.replies == s.slot.replies || t.replies[..|t.replies| - 1] == s.slot.replies;
  }

  lemma StreamStepKeepsInv<T, R>(s: Stream<T, R>, e: StreamEvent<T, R>)
    requires StreamInv(s)
    ensures StreamInv(StreamStep(s, e))
  {
    match e
    case Abort => StepKeepsInv(s.slot, DoClose);
    case Emit(value) => StepKeepsInv(s.slot, DoPush(value));
    case ProducerFinishes =>
      if s.phase.Settled? {
        StepKeepsInv(s.slot, DoFinish(if s.aborted then Cancelled else s.phase.outcome));
      }
    case NextCalled => ReaderKeepsStreamInv(s, DoNext);
    case NextResumes(call) => ReaderKeepsStreamInv(s, DoResume(call));
    case Stop =>
      StepKeepsInv(s.slot, DoClose);
      StepKeepsInv(AbortStep(s).slot, DoClose);
    case _ =>
  }

  lemma {:induction false} StreamRunKeepsInv<T, R>(s: Stream<T, R>, es: seq<StreamEvent<T, R>>)
    requires StreamInv(s)
    ensures StreamInv(StreamRun(s, es))
    decreases |es|
  {
    if es != [] {
      StreamStepKeepsInv(s, es[0]);
      StreamRunKeepsInv(StreamStep(s, es[0]), es[1..]);
    }
  }

  // ---- Whole-run results ---------------------------------------------------------------

  /** In every run the request leaves the tracker at most once, and only after its
      producer, hence its service call, has settled and its terminal is set. */
  lemma RemovedOnlyOnceAndOnlyWhenSettled<T, R>(es: seq<StreamEvent<T, R>>)
    ensures var s := StreamRun(Admitted<T, R>(), es);
            && s.removals <= 1
            && (!Tracked(s) ==> s.phase.Finished? && s.slot.terminal.Set?)
  {
    StreamRunKeepsInv(Admitted<T, R>(), es);
  }

  /** No callback of the stream is waiting to run, and its service call is over. */
  predicate Quiescent<T, R>(s: Stream<T, R>)
  {
    && s.phase.Finished?
    && !s.hook.Attached?
    && s.finishing == 0
    && s.stops == 0
  }

  ghost predicate CausedFinalize<T, R>(s: Stream<T, R>)
  {
    s.finalized || s.finishing > 0 ==> s.aborted || exists i :: 0 <= i < |s.slot.replies| && s.slot.replies[i].Done?
  }

  lemma RepliesGrow<T, R>(s: Stream<T, R>, e: StreamEvent<T, R>)
    ensures s.slot.replies <= StreamStep(s, e).slot.replies
  {}

  lemma CauseStays<T, R>(s: Stream<T, R>, e: StreamEvent<T, R>)
    requires StreamInv(s) && CausedFinalize(s)
    ensures CausedFinalize(StreamStep(s, e))
  {
    RepliesGrow(s, e);
    var t := StreamStep(s, e);
    if s.finalized || s.finishing > 0 {
      if !s.aborted {
        var i :| 0 <= i < |s.slot.replies| && s.slot.replies[i].Done?;
        assert t.slot.replies[i].Done?;
      }
    } else if t.finishing > 0 {
      assert t.slot.replies[|t.slot.replies| - 1].Done?;
    }
  }

  lemma {:induction false} FinalizedHasCause<T, R>(s: Stream<T, R>, es: seq<StreamEvent<T, R>>)
    requires StreamInv(s) && CausedFinalize(s)
    ensures CausedFinalize(StreamRun(s, es))
    decreases |es|
  {
    if es != [] {
      hide StreamInv, CausedFinalize, StreamStep;
      CauseStays(s, es[0]);
      StreamStepKeepsInv(s, es[0]);
      FinalizedHasCause(StreamStep(s, es[0]), es[1..]);
    }
  }

  /** Every path out removes the request exactly once: when no callback is left to
      run it is gone if it was aborted or if a reader has taken the terminal. */
  lemma RemovedExactlyOnceWhenQuiescent<T, R>(es: seq<StreamEvent<T, R>>)
    requires Quiescent(StreamRun(Admitted<T, R>(), es))
    ensures var s := StreamRun(Admitted<T, R>(), es);
            s.removals == if s.aborted || (exists i :: 0 <= i < |s.slot.replies| && s.slot.replies[i].Done?) then 1 else 0
  {
    var init := Admitted<T, R>();
    StreamRunKeepsInv(init, es);
    FinalizedHasCause(init, es);
  }

  lemma AbortedStep<T, R>(s: Stream<T, R>, e: StreamEvent<T, R>)
    requires StreamInv(s) && s.aborted
    ensures var t := StreamStep(s, e);
            && t.aborted && (s.hook.Ran? ==> t.hook.Ran?)
            && DeliveredValues(t.slot.replies) == DeliveredValues(s.slot.replies)
            && (t.slot.terminal == s.slot.terminal || (s.slot.terminal.Unset? && t.slot.terminal == Set(Cancelled)))
  {
    match e
    case NextCalled => ClosedStep(s.slot, DoNext);
    case NextResumes(call) => ClosedStep(s.slot, DoResume(call));
    case _ =>
  }

  /** Once aborted - by the client, by `return`/`throw`/dispose or by shutdown - the
      slot is empty for ever, no push is left parked, no event is delivered, the callback
      it attached runs once, and the terminal still to come is `Cancelled`. */
  lemma {:induction false} AbortedForEver<T, R>(s: Stream<T, R>, es: seq<StreamEvent<T, R>>)
    requires StreamInv(s) && s.aborted
    ensures var t := StreamRun(s, es);
            && t.aborted && t.slot.item.NoItem? && (s.hook.Ran? ==> t.hook.Ran?)
            && (forall i :: 0 <= i < |t.slot.pushes| ==> !t.slot.pushes[i].fate.Pending?)
            && DeliveredValues(t.slot.replies) == DeliveredValues(s.slot.replies)
            && (t.slot.terminal == s.slot.terminal || t.slot.terminal == Set(Cancelled))
    decreases |es|
  {
    if es != [] {
      var u := StreamStep(s, es[0]);
      AbortedStep(s, es[0]);
      StreamStepKeepsInv(s, es[0]);
      AbortedForEver(u, es[1..]);
    }
  }

  // ---- Removal after an abort -------------------------------------------------------------

  /** How far the producer has come. */
  function Progress<R>(phase: Phase<R>): nat
  {
    match phase
    case AwaitingAccess => 0
    case Invoking => 1
    case Settled(_) => 2
    case Finished => 3
  }

  lemma ProgressOfStep<T, R>(s: Stream<T, R>, e: StreamEvent<T, R>)
    requires StreamInv(s)
    ensures var t := StreamStep(s, e);
            && Progress(t.phase) >= Progress(s.phase)
            && (s.aborted ==> t.aborted) && (s.finalized ==> t.finalized)
            && (e.AccessGranted? ==> Progress(t.phase) >= 1)
            && (e.InvokeSettles? && Progress(s.phase) >= 1 ==> Progress(t.phase) >= 2)
            && (e.ProducerFinishes? && Progress(s.phase) >= 2 ==> Progress(t.phase) == 3)
            && (e.HookRuns? && s.aborted && Progress(s.phase) == 3 ==> t.finalized)
  {
    hide Step, Inv;
  }

  lemma {:induction false} ProgressOfRun<T, R>(s: Stream<T, R>, es: seq<StreamEvent<T, R>>)
    requires StreamInv(s)
    ensures var t := StreamRun(s, es);
            && StreamInv(t) && Progress(t.phase) >= Progress(s.phase)
            && (s.aborted ==> t.aborted) && (s.finalized ==> t.finalized)
    decreases |es|
  {
    if es != [] {
      hide StreamStep, StreamInv;
      StreamStepKeepsInv(s, es[0]);
      ProgressOfStep(s, es[0]);
      ProgressOfRun(StreamStep(s, es[0]), es[1..]);
    }
  }

  lemma {:induction false} StreamRunConcat<T, R>(s: Stream<T, R>, a: seq<StreamEvent<T, R>>, b: seq<StreamEvent<T, R>>)
    ensures StreamRun(s, a + b) == StreamRun(StreamRun(s, a), b)
    decreases |a|
  {
    hide StreamStep;
    if a == [] {
      assert a + b == b;
    } else {
      assert (a + b)[1..] == a[1..] + b;
      StreamRunConcat(StreamStep(s, a[0]), a[1..], b);
    }
  }

  /** Events around one event of interest. */
  lemma Around<T, R>(s: Stream<T, R>, before: seq<StreamEvent<T, R>>, e: StreamEvent<T, R>) returns (t: Stream<T, R>)
    requires StreamInv(s)
    ensures t == StreamRun(s, before + [e]) && StreamInv(t) && Progress(t.phase) >= Progress(s.phase)
    ensures s.aborted ==> t.aborted
    ensures e.AccessGranted? ==> Progress(t.phase) >= 1
    ensures e.InvokeSettles? && Progress(s.phase) >= 1 ==> Progress(t.phase) >= 2
    ensures e.ProducerFinishes? && Progress(s.phase) >= 2 ==> Progress(t.phase) == 3
    ensures e.HookRuns? && s.aborted && Progress(s.phase) == 3 ==> t.finalized
  {
    var u := StreamRun(s, before);
    ProgressOfRun(s, before);
    StreamRunConcat(s, before, [e]);
    assert [e][1..] == [];
    assert StreamRun(u, [e]) == StreamRun(StreamStep(u, e), []);
    hide StreamInv, StreamStep;
    StreamStepKeepsInv(u, e);
    ProgressOfStep(u, e);
    t := StreamStep(u, e);
  }

  /** From any aborted state, whatever happens around them, secret access being granted,
      the service call settling, the producer's callbacks and the callback the abort
      attached lead to exactly one removal, which no later event repeats. */
  lemma AbortLeadsToRemoval<T, R>(
    s: Stream<T, R>, e0: seq<StreamEvent<T, R>>, e1: seq<StreamEvent<T, R>>, outcome: Outcome<R>,
    e2: seq<StreamEvent<T, R>>, e3: seq<StreamEvent<T, R>>, e4: seq<StreamEvent<T, R>>)
    requires StreamInv(s) && s.aborted
    ensures StreamRun(s, (e0 + [AccessGranted]) + ((e1 + [InvokeSettles(outcome)])
                         + ((e2 + [ProducerFinishes]) + ((e3 + [HookRuns]) + e4)))).removals == 1
  {
    var s1 := Around(s, e0, AccessGranted);
    var s2 := Around(s1, e1, InvokeSettles(outcome));
    var s3 := Around(s2, e2, ProducerFinishes);
    var s4 := Around(s3, e3, HookRuns);
    ProgressOfRun(s4, e4);
    var r3 := (e3 + [HookRuns]) + e4;
    var r2 := (e2 + [ProducerFinishes]) + r3;
    var r1 := (e1 + [InvokeSettles(outcome)]) + r2;
    hide StreamRun;
    StreamRunConcat(s, e0 + [AccessGranted], r1);
    StreamRunConcat(s1, e1 + [InvokeSettles(outcome)], r2);
    StreamRunConcat(s2, e2 + [ProducerFinishes], r3);
    StreamRunConcat(s3, e3 + [HookRuns], e4);
  }

  /** The lines after the awaits: whoever takes the terminal, or resumes a `stop()` once the
      producer is finished, completes the stream and removes it; a `stop()` aborts and waits,
      but leaves a completed stream alone. */
  lemma CleanupExactly<T, R>(s: Stream<T, R>)
    requires StreamInv(s)
    ensures s.finishing > 0 ==>
              var t := StreamStep(s, TerminalObserved); t.finishing == s.finishing - 1 && t.completed && t.removals == 1
    ensures s.stops > 0 && s.phase.Finished? ==>
              var t := StreamStep(s, StopResumes); t.stops == s.stops - 1 && t.completed && t.removals == 1
    ensures var t := StreamStep(s, Stop);
            if s.completed then t == s
            else t.aborted && t.stops == s.stops + 1 && t.removals == s.removals && t.phase == s.phase
  {
    hide Step, Inv;
  }

  // ---- How a stream ends ----------------------------------------------------------------------

  /** Before position n the controller was told to abort, by a signal or by `stop()`. */
  predicate AbortedBefore<T, R>(es: seq<StreamEvent<T, R>>, n: nat)
    requires n <= |es|
  {
    exists i :: 0 <= i < n && (es[i].Abort? || es[i].Stop?)
  }

  predicate FirstGrant<T, R>(es: seq<StreamEvent<T, R>>, g: nat)
  {
    g < |es| && es[g].AccessGranted? && forall i :: 0 <= i < g ==> !es[i].AccessGranted?
  }

  /** The producer is granted access at g and is over at s: at once when it finds itself
      aborted, else when the service call it then makes settles for the first time. */
  predicate ProducerOver<T, R>(es: seq<StreamEvent<T, R>>, g: nat, s: nat)
  {
    && FirstGrant(es, g)
    && if AbortedBefore(es, g) then s == g
       else g < s < |es| && es[s].InvokeSettles? && forall i :: g < i < s ==> !es[i].InvokeSettles?
  }

  /** The callbacks of the producer first run at p, after it was over at s. */
  predicate Ends<T, R>(es: seq<StreamEvent<T, R>>, g: nat, s: nat, p: nat)
  {
    && ProducerOver(es, g, s)
    && s < p < |es| && es[p].ProducerFinishes? && forall i :: s < i < p ==> !es[i].ProducerFinishes?
  }

  /** What such a history ends with. */
  function Ending<T, R>(es: seq<StreamEvent<T, R>>, g: nat, s: nat, p: nat): Outcome<R>
    requires Ends(es, g, s, p)
  {
    if AbortedBefore(es, p) then Cancelled else es[s].outcome
  }

  /** Where a stream stands after a history, in terms of the history. */
  ghost predicate Stands<T, R>(s: Stream<T, R>, es: seq<StreamEvent<T, R>>, g: nat, o: nat, p: nat)
  {
    && (!s.phase.Finished? ==> (s.aborted <==> AbortedBefore(es, |es|)))
    && match s.phase
       case AwaitingAccess => forall i :: 0 <= i < |es| ==> !es[i].AccessGranted?
       case Invoking => FirstGrant(es, g) && !AbortedBefore(es, g) && forall i :: g < i < |es| ==> !es[i].InvokeSettles?
       case Settled(outcome) =>
         && ProducerOver(es, g, o) && (!AbortedBefore(es, g) ==> outcome == es[o].outcome)
         && forall i :: o < i < |es| ==> !es[i].ProducerFinishes?
       case Finished => Ends(es, g, o, p) && s.slot.terminal == Set(Ending(es, g, o, p))
  }

  lemma AbortedSnoc<T, R>(es: seq<StreamEvent<T, R>>, e: StreamEvent<T, R>, n: nat)
    requires n <= |es|
    ensures AbortedBefore(es + [e], n) <==> AbortedBefore(es, n)
    ensures AbortedBefore(es + [e], |es| + 1) <==> AbortedBefore(es, |es|) || e.Abort? || e.Stop?
  {
    assert forall i :: 0 <= i < |es| ==> (es + [e])[i] == es[i];
    assert (es + [e])[|es|] == e;
  }

  lemma OverSnoc<T, R>(es: seq<StreamEvent<T, R>>, e: StreamEvent<T, R>, g: nat, o: nat)
    ensures FirstGrant(es, g) ==> FirstGrant(es + [e], g)
    ensures ProducerOver(es, g, o) ==> ProducerOver(es + [e], g, o)
  {
    assert forall i :: 0 <= i < |es| ==> (es + [e])[i] == es[i];
    if g < |es| {
      AbortedSnoc(es, e, g);
    }
  }

  lemma EndsSnoc<T, R>(es: seq<StreamEvent<T, R>>, e: StreamEvent<T, R>, g: nat, o: nat, p: nat)
    requires Ends(es, g, o, p)
    ensures Ends(es + [e], g, o, p) && Ending(es + [e], g, o, p) == Ending(es, g, o, p)
  {
    OverSnoc(es, e, g, o);
    AbortedSnoc(es, e, p);
    assert forall i :: 0 <= i < |es| ==> (es + [e])[i] == es[i];
    hide ProducerOver, AbortedBefore;
  }

  /** One more event moves a stream on exactly as its history does. */
  lemma StandsStep<T, R>(s: Stream<T, R>, es: seq<StreamEvent<T, R>>, e: StreamEvent<T, R>, g: nat, o: nat, p: nat)
    returns (g': nat, o': nat, p': nat)
    requires StreamInv(s) && Stands(s, es, g, o, p)
    ensures Stands(StreamStep(s, e), es + [e], g', o', p')
  {
    g', o', p' := g, o, p;
    var n, all := |es|, es + [e];
    assert forall i :: 0 <= i < n ==> all[i] == es[i];
    assert all[n] == e;
    AbortedSnoc(es, e, n);
    OverSnoc(es, e, g, o);
    match s.phase
    case AwaitingAccess =>
      g', o' := n, n;
    case Invoking =>
      o' := n;
      AbortedSnoc(es, e, g);
    case Settled(_) =>
      p' := n;
      AbortedSnoc(es, e, g);
    case Finished =>
      EndsSnoc(es, e, g, o, p);
  }

  lemma {:induction false} StandsSomewhere<T, R>(es: seq<StreamEvent<T, R>>) returns (g: nat, o: nat, p: nat)
    ensures Stands(StreamRun(Admitted<T, R>(), es), es, g, o, p)
    decreases |es|
  {
    g, o, p := 0, 0, 0;
    if es != [] {
      var front, e := es[..|es| - 1], es[|es| - 1];
      assert es == front + [e];
      g, o, p := StandsSomewhere(front);
      hide Stands, StreamStep;
      StreamRunKeepsInv(Admitted<T, R>(), front);
      StreamRunConcat(Admitted<T, R>(), front, [e]);
      var s := StreamRun(Admitted<T, R>(), front);
      assert [e][1..] == [] && StreamRun(s, [e]) == StreamRun(StreamStep(s, e), []);
      g, o, p := StandsStep(s, front, e, g, o, p);
    }
  }

  /** After every history from its admission a stream has its terminal exactly when the
      history has its ending, and it is that one: the service call is made unless an abort
      came first; its first outcome is what the reader is told unless an abort came before
      the producer's callbacks; then it is told of a cancellation. */
  lemma EndsExactly<T, R>(es: seq<StreamEvent<T, R>>, x: Outcome<R>)
    ensures StreamRun(Admitted<T, R>(), es).slot.terminal == Set(x) <==>
            exists g, o, p :: Ends(es, g, o, p) && x == Ending(es, g, o, p)
  {
    var s := StreamRun(Admitted<T, R>(), es);
    StreamRunKeepsInv(Admitted<T, R>(), es);
    var g, o, p := StandsSomewhere(es);
    forall g', o', p' | Ends(es, g', o', p') ensures s.phase.Finished? && g' == g && o' == o && p' == p {}
  }

  function PushedValues<T>(pushes: seq<PushRecord<T>>): seq<T>
  {
    seq(|pushes|, i requires 0 <= i < |pushes| => pushes[i].value)
  }

  predicate Granted<T, R>(es: seq<StreamEvent<T, R>>)
  {
    exists i :: 0 <= i < |es| && es[i].AccessGranted?
  }

  /** What the service call emits: the values after the grant, none before. */
  function EmittedValues<T, R>(es: seq<StreamEvent<T, R>>): seq<T>
  {
    if es == [] then []
    else
      var front, e := es[..|es| - 1], es[|es| - 1];
      EmittedValues(front) + if e.Emit? && Granted(front) then [e.value] else []
  }

  lemma PushValues<T, R>(s: Slot<T, R>, a: Action<T, R>)
    requires Inv(s)
    ensures PushedValues(Step(s, a).pushes) == PushedValues(s.pushes) + if a.DoPush? then [a.value] else []
  {
    hide SlotIsThePendingPush, TerminalIsLast, AcceptedValues, DeliveredValues;
  }

  lemma EmitStep<T, R>(s: Stream<T, R>, e: StreamEvent<T, R>)
    requires StreamInv(s)
    ensures PushedValues(StreamStep(s, e).slot.pushes)
            == PushedValues(s.slot.pushes) + if e.Emit? && !s.phase.AwaitingAccess? then [e.value] else []
  {
    hide Step, Inv, PushedValues;
    match e
    case Abort => PushValues(s.slot, DoClose);
    case Emit(value) => PushValues(s.slot, DoPush(value));
    case ProducerFinishes =>
      if s.phase.Settled? {
        PushValues(s.slot, DoFinish(if s.aborted then Cancelled else s.phase.outcome));
      }
    case NextCalled => PushValues(s.slot, DoNext);
    case NextResumes(call) => PushValues(s.slot, DoResume(call));
    case Stop =>
      PushValues(s.slot, DoClose);
      StepKeepsInv(s.slot, DoClose);
      PushValues(AbortStep(s).slot, DoClose);
    case _ =>
  }

  /** In every history the values offered to the reader are those emitted since access was
      granted, all of them and in order. */
  lemma {:induction false} EmitsExactly<T, R>(es: seq<StreamEvent<T, R>>)
    ensures PushedValues(StreamRun(Admitted<T, R>(), es).slot.pushes) == EmittedValues(es)
    decreases |es|
  {
    if es != [] {
      var front, e := es[..|es| - 1], es[|es| - 1];
      assert es == front + [e];
      EmitsExactly(front);
      hide StreamStep;
      StreamRunKeepsInv(Admitted<T, R>(), front);
      StreamRunConcat(Admitted<T, R>(), front, [e]);
      var s := StreamRun(Admitted<T, R>(), front);
      assert [e][1..] == [] && StreamRun(s, [e]) == StreamRun(StreamStep(s, e), []);
      EmitStep(s, e);
      var g, o, p := StandsSomewhere(front);
      assert s.phase.AwaitingAccess? <==> !Granted(front);
    }
  }

  // ---- The closures of one request ---------------------------------------------------------

  class StreamRequest<T(!new), R(!new)> {
    const rendezvous: Rendezvous<T, Outcome<R>>
    var aborted: bool
    var phase: Phase<R>
    var hook: Hook
    var finishing: nat
    var stops: nat
    var completed: bool
    var finalized: bool
    var removals: nat

    ghost function View(): Stream<T, R>
      reads this, rendezvous
    {
      Stream(rendezvous.View(), aborted, phase, hook, finishing, stops, completed, finalized, removals)
    }

    ghost predicate Valid()
      reads this, rendezvous
    {
      rendezvous.Valid() && StreamInv(View())
    }

    constructor ()
      ensures Valid() && fresh(rendezvous) && View() == Admitted<T, R>()
    {
      rendezvous := new Rendezvous();
      aborted, phase, hook, finishing, stops := false, AwaitingAccess, Absent, 0, 0;
      completed, finalized, removals := false, false, 0;
    }

    /** `finalize`: guarded, so the tracker entry is deleted at most once. */
    method RunFinalize()
      modifies this`finalized, this`removals
      ensures View() == Finalize(old(View()))
    {
      if finalized {
        return;
      }
      finalized := true;
      removals := removals + 1;
    }

    method AbortController()
      requires Valid()
      modifies this, rendezvous
      ensures Valid() && View() == StreamStep(old(View()), Abort)
    {
      StreamStepKeepsInv(View(), Abort);
      if aborted {
        return;
      }
      aborted := true;
      rendezvous.Close();
      hook := Attached;
    }

    /** The two `then`/`catch` callbacks of the producer. */
    method SettleProducer()
      requires Valid() && phase.Settled?
      modifies this, rendezvous
      ensures Valid() && View() == StreamStep(old(View()), ProducerFinishes)
      ensures rendezvous.terminal == Set(if aborted then Cancelled else old(phase).outcome)
    {
      StreamStepKeepsInv(View(), ProducerFinishes);
      rendezvous.Finish(if aborted then Cancelled else phase.outcome);
      phase := Finished;
    }

    method RunHook()
      requires Valid() && hook.Attached? && phase.Finished?
      modifies this
      ensures Valid() && View() == StreamStep(old(View()), HookRuns)
      ensures removals == 1
    {
      StreamStepKeepsInv(View(), HookRuns);
      hook := Ran;
      RunFinalize();
    }

    /** `stop()` up to its await; the rest is `ResumeStop`. */
    method BeginStop()
      requires Valid()
      modifies this, rendezvous
      ensures Valid() && View() == StreamStep(old(View()), Stop)
    {
      StreamStepKeepsInv(View(), Stop);
      if completed {
        RunFinalize();
      } else {
        AbortController();
        rendezvous.Close();
        stops := stops + 1;
      }
    }

    method ResumeStop()
      requires Valid() && stops > 0 && phase.Finished?
      modifies this
      ensures Valid() && View() == StreamStep(old(View()), StopResumes)
      ensures removals == 1
    {
      StreamStepKeepsInv(View(), StopResumes);
      stops := stops - 1;
      completed := true;
      RunFinalize();
    }

    /** The line of `next` after the await, when the step is the terminal one. */
    method ObserveTerminal()
      requires Valid() && finishing > 0
      modifies this
      ensures Valid() && View() == StreamStep(old(View()), TerminalObserved)
      ensures removals == 1
    {
      StreamStepKeepsInv(View(), TerminalObserved);
      finishing := finishing - 1;
      completed := true;
      RunFinalize();
    }
  }
}
