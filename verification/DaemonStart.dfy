/** Starting the daemon from the command line (apps/cli/src/daemon/lifecycle.ts:502-638):
    two polling loops that share one deadline, around at most one launch.

    What each poll observes and when is a parameter, so a daemon may come up, go away
    or be replaced between any two polls; times are in milliseconds. */
module DaemonStart {

  const STARTUP_TIMEOUT := 10000
  const POLL_INTERVAL := 25

  datatype Selection = NoSelection | FromMetadata | TestOverride

  /** What a health request comes to; `Broken` is any error but unavailability, being
      cancelled during the request included. */
  datatype Health = Ready | NotReady(stopping: bool) | NoAnswer | Broken

  datatype Cleanup = Removed | Missing | NotOwner | Busy | CleanupFails

  /** One poll: the clock at its loop test, what it would observe, and the clock after
      the observation. */
  datatype Poll = Poll(
    now: int,
    cancelled: bool,
    selection: Selection,
    retained: bool,
    health: Health,
    cleanup: Cleanup,
    after: int)

  type World = nat -> Poll

  /** The clock never goes back, and a sleep between two polls lasts its time. */
  ghost predicate Ticking(w: World)
  {
    forall i: nat :: w(i).now <= w(i).after && w(i).after + POLL_INTERVAL <= w(i + 1).now
  }

  datatype Wait = BecameReady | Released | TimedOut | Cancelled | Failed

  /** How a loop ends, and the number of the poll after its last one. */
  datatype Result = Result(wait: Wait, next: nat)

  // ---- The loops ------------------------------------------------------------------------------

  /** One poll of `waitForOwnerReleaseOrReady`; `None` when it goes round again. */
  datatype Step = Again | Ends(wait: Wait)

  function OwnerPoll(p: Poll, deadline: int): Step
  {
    if p.cancelled then Ends(Cancelled)
    else if p.selection.NoSelection? then
      if p.retained then Again else Ends(Released)
    else if p.health.Broken? then Ends(Failed)
    else if p.health.Ready? then Ends(BecameReady)
    else if p.selection.FromMetadata? && p.cleanup.CleanupFails? then Ends(Failed)
    else if p.selection.FromMetadata? && (p.cleanup.Removed? || p.cleanup.Missing?) then Ends(Released)
    else if p.after >= deadline then Ends(TimedOut)
    else Again
  }

  /** One poll of `waitForReady`. */
  function ReadyPoll(p: Poll, deadline: int): Step
  {
    if p.cancelled then Ends(Cancelled)
    else if p.selection.NoSelection? then Again
    else if p.health.Broken? then Ends(Failed)
    else if p.health.Ready? then Ends(BecameReady)
    else Again
  }

  ghost function Loop(w: World, poll: (Poll, int) -> Step, i: nat, deadline: int): Result
    requires Ticking(w)
    decreases if w(i).now <= deadline then deadline - w(i).now + 1 else 0
  {
    if w(i).now > deadline then Result(TimedOut, i)
    else
      match poll(w(i), deadline)
      case Ends(wait) => Result(wait, i + 1)
      case Again => Loop(w, poll, i + 1, deadline)
  }

  method WaitForOwnerReleaseOrReady(w: World, i: nat, deadline: int) returns (wait: Wait, next: nat)
    requires Ticking(w)
    ensures Result(wait, next) == Loop(w, OwnerPoll, i, deadline)
  {
    next := i;
    while w(next).now <= deadline
      invariant Loop(w, OwnerPoll, next, deadline) == Loop(w, OwnerPoll, i, deadline)
      decreases if w(next).now <= deadline then deadline - w(next).now + 1 else 0
    {
      var p := w(next);
      next := next + 1;
      if p.cancelled {
        return Cancelled, next;
      }
      if p.selection.NoSelection? {
        if !p.retained {
          return Released, next;
        }
        continue;
      }
      if p.health.Broken? {
        return Failed, next;
      }
      if p.health.Ready? {
        return BecameReady, next;
      }
      if p.selection.FromMetadata? {
        if p.cleanup.CleanupFails? {
          return Failed, next;
        }
        if p.cleanup.Removed? || p.cleanup.Missing? {
          return Released, next;
        }
      }
      if p.after >= deadline {
        return TimedOut, next;
      }
    }
    wait := TimedOut;
  }

  method WaitForReady(w: World, i: nat, deadline: int) returns (wait: Wait, next: nat)
    requires Ticking(w)
    ensures Result(wait, next) == Loop(w, ReadyPoll, i, deadline)
  {
    next := i;
    while w(next).now <= deadline
      invariant Loop(w, ReadyPoll, next, deadline) == Loop(w, ReadyPoll, i, deadline)
      decreases if w(next).now <= deadline then deadline - w(next).now + 1 else 0
    {
      var p := w(next);
      next := next + 1;
      if p.cancelled {
        return Cancelled, next;
      }
      if p.selection != NoSelection {
        if p.health.Broken? {
          return Failed, next;
        }
        if p.health.Ready? {
          return BecameReady, next;
        }
      }
    }
    wait := TimedOut;
  }

  /** A loop takes at most one poll per interval left and one more, and every poll
      began before the deadline. */
  lemma {:induction false} LoopIsBounded(w: World, poll: (Poll, int) -> Step, i: nat, deadline: int)
    requires Ticking(w)
    ensures var r := Loop(w, poll, i, deadline);
            && i <= r.next
            && (r.next > i ==> POLL_INTERVAL * (r.next - i - 1) <= deadline - w(i).now)
            && (r.next > i ==> w(r.next - 1).now <= deadline)
    decreases if w(i).now <= deadline then deadline - w(i).now + 1 else 0
  {
    if w(i).now <= deadline && poll(w(i), deadline).Again? {
      LoopIsBounded(w, poll, i + 1, deadline);
    }
  }

  // ---- startOnce ------------------------------------------------------------------------------------

  /** What the call finds before it waits. */
  datatype Start = Start(
    cancelledBefore: bool,
    supported: bool,
    initialized: bool,
    cancelledAfter: bool,
    now: int,
    selection: Selection,
    retained: bool,
    transitional: bool,
    health: Health,
    launchFails: bool)

  datatype Outcome =
    | Running(started: bool)
    | WasCancelled
    | Unavailable
    | Raised

  /** The outcome, how often the daemon was launched and how many polls were made. */
  datatype Report = Report(outcome: Outcome, launches: nat, polls: nat)

  /** The call has to wait for another owner before it may launch. */
  predicate AwaitsOwner(s: Start)
  {
    if s.selection.NoSelection? then s.retained
    else s.transitional || (s.health.NotReady? && s.health.stopping)
  }

  /** What ends the call before any wait. */
  function Early(s: Start): (r: seq<Outcome>)
    ensures |r| <= 1
  {
    if s.cancelledBefore then [WasCancelled]
    else if !s.supported then [Unavailable]
    else if !s.initialized then [Raised]
    else if s.cancelledAfter then [WasCancelled]
    else if s.selection.NoSelection? then []
    else if s.health.Broken? then [Raised]
    else if s.health.Ready? then [Running(false)]
    else if s.selection.TestOverride? then [Unavailable]
    else []
  }

  function WaitOutcome(wait: Wait, started: bool): Outcome
  {
    match wait
    case BecameReady => Running(started)
    case TimedOut => Unavailable
    case Cancelled => WasCancelled
    case _ => Raised
  }

  method StartOnce(s: Start, w: World) returns (report: Report)
    requires Ticking(w)
    ensures report == StartReport(s, w)
  {
    var early := Early(s);
    if |early| == 1 {
      return Report(early[0], 0, 0);
    }
    var deadline := s.now + STARTUP_TIMEOUT;
    var next := 0;
    if AwaitsOwner(s) {
      var transition;
      transition, next := WaitForOwnerReleaseOrReady(w, 0, deadline);
      if transition != Released {
        return Report(WaitOutcome(transition, false), 0, next);
      }
    }
    if s.launchFails {
      return Report(Unavailable, 1, next);
    }
    var ready, polls := WaitForReady(w, next, deadline);
    return Report(WaitOutcome(ready, true), 1, polls);
  }

  ghost function StartReport(s: Start, w: World): Report
    requires Ticking(w)
  {
    if Early(s) != [] then Report(Early(s)[0], 0, 0)
    else
      var deadline := s.now + STARTUP_TIMEOUT;
      var owner := if AwaitsOwner(s) then Loop(w, OwnerPoll, 0, deadline) else Result(Released, 0);
      if !owner.wait.Released? then Report(WaitOutcome(owner.wait, false), 0, owner.next)
      else if s.launchFails then Report(Unavailable, 1, owner.next)
      else
        var r := Loop(w, ReadyPoll, owner.next, deadline);
        Report(WaitOutcome(r.wait, true), 1, r.next)
  }

  lemma {:induction false} ClockAdvances(w: World, i: nat)
    requires Ticking(w)
    ensures w(i).now >= w(0).now + POLL_INTERVAL * i
    decreases i
  {
    if i > 0 {
      ClockAdvances(w, i - 1);
      assert w(i - 1 + 1).now >= w(i - 1).after + POLL_INTERVAL;
    }
  }

  /** However many loops run, a start makes at most 401 polls when they come after its
      own clock reading, and none begins after the shared deadline. */
  lemma StartIsBounded(s: Start, w: World)
    requires Ticking(w) && s.now <= w(0).now
    ensures StartReport(s, w).polls <= STARTUP_TIMEOUT / POLL_INTERVAL + 1
    ensures StartReport(s, w).polls > 0 ==> w(StartReport(s, w).polls - 1).now <= s.now + STARTUP_TIMEOUT
  {
    if Early(s) == [] {
      var deadline := s.now + STARTUP_TIMEOUT;
      LoopIsBounded(w, OwnerPoll, 0, deadline);
      var next := if AwaitsOwner(s) then Loop(w, OwnerPoll, 0, deadline).next else 0;
      LoopIsBounded(w, ReadyPoll, next, deadline);
      var polls := StartReport(s, w).polls;
      if polls > 0 {
        ClockAdvances(w, polls - 1);
      }
    }
  }

  /** The poll in which an owner is seen to be gone. */
  predicate SeesRelease(p: Poll)
  {
    && !p.cancelled
    && if p.selection.NoSelection? then !p.retained
       else p.selection.FromMetadata? && !p.health.Ready? && !p.health.Broken? && (p.cleanup.Removed? || p.cleanup.Missing?)
  }

  /** The poll in which a selected daemon answers that it is ready. */
  predicate SeesReady(p: Poll)
  {
    !p.cancelled && !p.selection.NoSelection? && p.health.Ready?
  }

  /** The poll whose health request fails for another reason than unavailability. */
  predicate SeesError(p: Poll)
  {
    !p.cancelled && !p.selection.NoSelection? && p.health.Broken?
  }

  /** The poll whose removal of stale metadata throws. */
  predicate CleanupThrows(p: Poll)
  {
    !p.cancelled && p.selection.FromMetadata? && !p.health.Ready? && !p.health.Broken? && p.cleanup.CleanupFails?
  }

  /** The poll that found a daemon which is not ready, and took until the deadline. */
  predicate ComesLate(p: Poll, deadline: int)
  {
    && !p.cancelled && !p.selection.NoSelection? && (p.health.NotReady? || p.health.NoAnswer?)
    && !SeesRelease(p) && !CleanupThrows(p) && p.after >= deadline
  }

  predicate DecidesOwner(p: Poll, deadline: int)
  {
    p.cancelled || SeesReady(p) || SeesError(p) || CleanupThrows(p) || SeesRelease(p) || ComesLate(p, deadline)
  }

  /** The wait for another owner goes on, poll by poll, while none decides; the first that
      does decides it: cancelled, ready, failed, released or out of time. Without one the
      wait ends when the time of the next poll is past the deadline. */
  lemma {:induction false} OwnerLoopExactly(w: World, i: nat, deadline: int)
    requires Ticking(w)
    ensures var r := Loop(w, OwnerPoll, i, deadline);
            && i <= r.next
            && (forall k: nat :: i <= k < r.next ==> w(k).now <= deadline)
            && (forall k: nat :: i <= k < r.next - 1 ==> !DecidesOwner(w(k), deadline))
            && if r.next > i && DecidesOwner(w(r.next - 1), deadline) then
                 var p := w(r.next - 1);
                 && (r.wait.Cancelled? <==> p.cancelled)
                 && (r.wait.BecameReady? <==> SeesReady(p))
                 && (r.wait.Failed? <==> SeesError(p) || CleanupThrows(p))
                 && (r.wait.Released? <==> SeesRelease(p))
                 && (r.wait.TimedOut? <==> ComesLate(p, deadline))
               else r.wait.TimedOut? && w(r.next).now > deadline
    decreases if w(i).now <= deadline then deadline - w(i).now + 1 else 0
  {
    if w(i).now <= deadline && OwnerPoll(w(i), deadline).Again? {
      OwnerLoopExactly(w, i + 1, deadline);
    }
  }

  /** The wait for the launched daemon ends in the same way, but for its own reasons: being
      cancelled, an error, or an answer that it is ready. */
  lemma {:induction false} ReadyLoopExactly(w: World, i: nat, deadline: int)
    requires Ticking(w)
    ensures var r := Loop(w, ReadyPoll, i, deadline);
            && i <= r.next
            && (forall k: nat :: i <= k < r.next ==> w(k).now <= deadline)
            && (forall k: nat :: i <= k < r.next - 1 ==> !w(k).cancelled && !SeesReady(w(k)) && !SeesError(w(k)))
            && if r.next > i && (w(r.next - 1).cancelled || SeesReady(w(r.next - 1)) || SeesError(w(r.next - 1))) then
                 var p := w(r.next - 1);
                 && (r.wait.Cancelled? <==> p.cancelled)
                 && (r.wait.BecameReady? <==> SeesReady(p))
                 && (r.wait.Failed? <==> SeesError(p))
               else r.wait.TimedOut? && w(r.next).now > deadline
    decreases if w(i).now <= deadline then deadline - w(i).now + 1 else 0
  {
    if w(i).now <= deadline && ReadyPoll(w(i), deadline).Again? {
      ReadyLoopExactly(w, i + 1, deadline);
    }
  }

  lemma {:induction false} ReleaseWasSeen(w: World, i: nat, deadline: int)
    requires Ticking(w) && Loop(w, OwnerPoll, i, deadline).wait.Released?
    ensures i < Loop(w, OwnerPoll, i, deadline).next
    ensures SeesRelease(w(Loop(w, OwnerPoll, i, deadline).next - 1))
    decreases if w(i).now <= deadline then deadline - w(i).now + 1 else 0
  {
    if OwnerPoll(w(i), deadline).Again? {
      ReleaseWasSeen(w, i + 1, deadline);
    }
  }

  lemma {:induction false} ReadyWasSeen(w: World, poll: (Poll, int) -> Step, i: nat, deadline: int)
    requires Ticking(w) && Loop(w, poll, i, deadline).wait.BecameReady?
    requires poll == OwnerPoll || poll == ReadyPoll
    ensures i < Loop(w, poll, i, deadline).next
    ensures var p := w(Loop(w, poll, i, deadline).next - 1);
            !p.selection.NoSelection? && p.health.Ready? && p.now <= deadline
    decreases if w(i).now <= deadline then deadline - w(i).now + 1 else 0
  {
    if poll(w(i), deadline).Again? {
      ReadyWasSeen(w, poll, i + 1, deadline);
    }
  }

  /** A daemon is launched at most once, and never beside an owner: only when no ready
      daemon answered and either no owner had to be awaited or it was seen to be gone. */
  lemma LaunchedOnlyWhenFree(s: Start, w: World)
    requires Ticking(w) && StartReport(s, w).launches > 0
    ensures StartReport(s, w).launches == 1 && Early(s) == []
    ensures AwaitsOwner(s) ==> exists i: nat :: i < StartReport(s, w).polls && SeesRelease(w(i))
  {
    if AwaitsOwner(s) {
      var deadline := s.now + STARTUP_TIMEOUT;
      ReleaseWasSeen(w, 0, deadline);
      var next := Loop(w, OwnerPoll, 0, deadline).next;
      LoopIsBounded(w, ReadyPoll, next, deadline);
      assert SeesRelease(w(next - 1));
    }
  }

  /** A start reports a running daemon only if one answered ready, at once or in a poll
      before the deadline, and reports it as started exactly when it launched one. */
  lemma RunningWasSeen(s: Start, w: World)
    requires Ticking(w) && StartReport(s, w).outcome.Running?
    ensures StartReport(s, w).outcome.started <==> StartReport(s, w).launches == 1
    ensures StartReport(s, w).polls == 0 ==> s.health.Ready?
    ensures StartReport(s, w).polls > 0 ==>
              var p := w(StartReport(s, w).polls - 1);
              p.health.Ready? && !p.selection.NoSelection? && p.now <= s.now + STARTUP_TIMEOUT
  {
    if Early(s) == [] {
      var deadline := s.now + STARTUP_TIMEOUT;
      var owner := if AwaitsOwner(s) then Loop(w, OwnerPoll, 0, deadline) else Result(Released, 0);
      if owner.wait.Released? {
        ReadyWasSeen(w, ReadyPoll, owner.next, deadline);
      } else {
        ReadyWasSeen(w, OwnerPoll, 0, deadline);
      }
    }
  }

  /** Nothing ends the call before it looks for a daemon. */
  predicate GetsToLook(s: Start)
  {
    !s.cancelledBefore && s.supported && s.initialized && !s.cancelledAfter
  }

  /** It looks, and what it finds neither answers ready nor ends the call. */
  predicate GetsToWait(s: Start)
  {
    GetsToLook(s) && (s.selection.NoSelection? || (!s.health.Broken? && !s.health.Ready? && !s.selection.TestOverride?))
  }

  /** An owner is there that may still come up or go away: a lifecycle lease without
      metadata, or a found daemon that is starting or stopping. */
  predicate OwnerInTransition(s: Start)
  {
    if s.selection.NoSelection? then s.retained else s.transitional || s.health == NotReady(true)
  }

  /** The call launches a daemon exactly when it gets to wait and need not, or its wait saw
      the owner gone; it reports it as started exactly when the launch worked and a poll then
      saw it ready. It reports one as running without a launch exactly when one answered at
      once or while it waited. What else ends it ends it as cancelled, raised or
      unavailable. */
  lemma StartExactly(s: Start, w: World)
    requires Ticking(w)
    ensures var deadline := s.now + 10000;
            var owner := Loop(w, OwnerPoll, 0, deadline);
            var free := GetsToWait(s) && (OwnerInTransition(s) ==> owner.wait.Released?);
            var next := if OwnerInTransition(s) then owner.next else 0;
            var ready := Loop(w, ReadyPoll, next, deadline);
            var r := StartReport(s, w);
            && (r.launches == if free then 1 else 0)
            && (r.polls == if !GetsToWait(s) then 0 else if free && !s.launchFails then ready.next else next)
            && (r.outcome == Running(true) <==> free && !s.launchFails && ready.wait.BecameReady?)
            && (r.outcome == Running(false) <==>
                || (GetsToLook(s) && !s.selection.NoSelection? && s.health.Ready?)
                || (GetsToWait(s) && OwnerInTransition(s) && owner.wait.BecameReady?))
            && (r.outcome.WasCancelled? <==>
                || s.cancelledBefore || (s.supported && s.initialized && s.cancelledAfter)
                || (GetsToWait(s) && OwnerInTransition(s) && owner.wait.Cancelled?)
                || (free && !s.launchFails && ready.wait.Cancelled?))
            && (r.outcome.Raised? <==>
                || (!s.cancelledBefore && s.supported && !s.initialized)
                || (GetsToLook(s) && !s.selection.NoSelection? && s.health.Broken?)
                || (GetsToWait(s) && OwnerInTransition(s) && owner.wait.Failed?)
                || (free && !s.launchFails && ready.wait.Failed?))
  {
    ReadyLoopExactly(w, if OwnerInTransition(s) then Loop(w, OwnerPoll, 0, s.now + STARTUP_TIMEOUT).next else 0, s.now + STARTUP_TIMEOUT);
    hide Loop, OwnerPoll, ReadyPoll;
  }
}
