/** The shared/exclusive secret-access lock of the daemon application
    (apps/daemon/src/application.ts:1706-1754). */
module SecretAccess {

  // Every synchronous stretch of the original is one atomic step: an `Acquire`
  // pushes a waiter and drains, a `Release` runs the closure that was handed to
  // a granted waiter. Waiters are named by their arrival number, so the history
  // `granted + queue` can be compared with the arrival order.

  datatype Mode = Shared | Exclusive

  datatype Waiter = Waiter(ticket: nat, mode: Mode)

  /** `released` collects the per-closure flags: one flag for each granted ticket. */
  datatype Access = Access(
    queue: seq<Waiter>,
    readers: int,
    writer: bool,
    granted: seq<Waiter>,
    released: set<nat>,
    arrivals: nat)

  datatype Event = Acquire(mode: Mode) | Release(ticket: nat)

  const INITIAL := Access([], 0, false, [], {}, 0)

  // ---- The transition functions -----------------------------------------

  /** Shared waiters at the head of the queue are granted one after the other. */
  function GrantReaders(s: Access): Access
    decreases |s.queue|
  {
    if s.queue == [] || s.queue[0].mode.Exclusive? then s
    else GrantReaders(s.(
        queue := s.queue[1..],
        readers := s.readers + 1,
        granted := s.granted + [s.queue[0]]))
  }

  function Drain(s: Access): Access
  {
    if s.writer || s.queue == [] then s
    else if s.queue[0].mode.Shared? then GrantReaders(s)
    else if s.readers > 0 then s
    else s.(queue := s.queue[1..], writer := true, granted := s.granted + [s.queue[0]])
  }

  function Enqueue(s: Access, mode: Mode): Access
  {
    s.(queue := s.queue + [Waiter(s.arrivals, mode)], arrivals := s.arrivals + 1)
  }

  /** A release does something only when the ticket was granted and its flag is
      still unset; the closure does not exist before the grant. */
  predicate Effective(s: Access, ticket: nat)
  {
    ticket < |s.granted| && ticket !in s.released
  }

  function Return(s: Access, ticket: nat): Access
    requires Effective(s, ticket)
  {
    var t := s.(released := s.released + {ticket});
    if s.granted[ticket].mode.Exclusive? then t.(writer := false) else t.(readers := s.readers - 1)
  }

  function Step(s: Access, e: Event): Access
  {
    match e
    case Acquire(mode) => Drain(Enqueue(s, mode))
    case Release(ticket) => if Effective(s, ticket) then Drain(Return(s, ticket)) else s
  }

  function Run(s: Access, es: seq<Event>): Access
    decreases |es|
  {
    if es == [] then s else Run(Step(s, es[0]), es[1..])
  }

  // ---- What a state means ------------------------------------------------

  function Outstanding(s: Access): set<nat>
  {
    set i | 0 <= i < |s.granted| && i !in s.released
  }

  function Holding(s: Access, mode: Mode): set<nat>
  {
    set i | 0 <= i < |s.granted| && i !in s.released && s.granted[i].mode == mode
  }

  /** Grants happen in arrival order: the granted requests followed by the queue
      are the arrivals 0, 1, 2, ... */
  ghost predicate InArrivalOrder(s: Access)
  {
    && |s.granted| + |s.queue| == s.arrivals
    && (forall i :: 0 <= i < |s.granted| ==> s.granted[i].ticket == i)
    && (forall i :: 0 <= i < |s.queue| ==> s.queue[i].ticket == |s.granted| + i)
    && (forall i :: i in s.released ==> i < |s.granted|)
  }

  ghost predicate CountersExact(s: Access)
  {
    && s.readers == |Holding(s, Shared)|
    && |Holding(s, Exclusive)| == if s.writer then 1 else 0
  }

  ghost predicate WriterAlone(s: Access)
  {
    s.writer ==> s.readers == 0
  }

  /** The head of the queue cannot be granted in this state. */
  predicate HeadBlocked(s: Access)
    requires s.queue != []
  {
    if s.queue[0].mode.Shared? then s.writer else s.writer || s.readers > 0
  }

  ghost predicate NoLostWakeUp(s: Access)
  {
    s.queue != [] ==> HeadBlocked(s)
  }

  /** Everything but the wake-up clause, which holds again only after a drain. */
  ghost predicate Coherent(s: Access)
  {
    InArrivalOrder(s) && CountersExact(s) && WriterAlone(s)
  }

  ghost predicate Inv(s: Access)
  {
    Coherent(s) && NoLostWakeUp(s)
  }

  // ---- Set bookkeeping ----------------------------------------------------

  lemma HoldingAfterGrant(s: Access, t: Access)
    requires InArrivalOrder(s) && s.queue != []
    requires t.granted == s.granted + [s.queue[0]] && t.released == s.released
    ensures Holding(t, s.queue[0].mode) == Holding(s, s.queue[0].mode) + {|s.granted|}
    ensures forall m :: m != s.queue[0].mode ==> Holding(t, m) == Holding(s, m)
    ensures |Holding(t, s.queue[0].mode)| == |Holding(s, s.queue[0].mode)| + 1
    ensures Outstanding(t) == Outstanding(s) + {|s.granted|}
    ensures |Outstanding(t)| == |Outstanding(s)| + 1
  {
    assert |s.granted| !in s.released;
  }

  lemma OutstandingAfterReturn(s: Access, ticket: nat)
    requires Effective(s, ticket)
    ensures Outstanding(Return(s, ticket)) == Outstanding(s) - {ticket}
    ensures |Outstanding(Return(s, ticket))| == |Outstanding(s)| - 1
  {
    assert ticket in Outstanding(s);
  }

  lemma HoldingAfterReturn(s: Access, ticket: nat)
    requires InArrivalOrder(s) && Effective(s, ticket)
    ensures var m := s.granted[ticket].mode; var t := Return(s, ticket);
            && Holding(t, m) == Holding(s, m) - {ticket}
            && |Holding(t, m)| == |Holding(s, m)| - 1
            && (forall n :: n != m ==> Holding(t, n) == Holding(s, n))
            && |Outstanding(t)| == |Outstanding(s)| - 1
  {
    var m := s.granted[ticket].mode;
    var t := Return(s, ticket);
    OutstandingAfterReturn(s, ticket);
    hide Outstanding;
    assert ticket in Holding(s, m);
    assert Holding(t, m) == Holding(s, m) - {ticket};
    forall n | n != m ensures Holding(t, n) == Holding(s, n) {}
  }

  lemma EnqueueKeepsHoldings(s: Access, mode: Mode)
    ensures var t := Enqueue(s, mode);
            Outstanding(t) == Outstanding(s) && forall m :: Holding(t, m) == Holding(s, m)
  {}

  // ---- The invariant -------------------------------------------------------

  lemma {:induction false} GrantReadersCoherent(s: Access)
    requires Coherent(s) && !s.writer
    ensures var t := GrantReaders(s);
            && Coherent(t) && !t.writer
            && (t.queue != [] ==> t.queue[0].mode.Exclusive?)
            && (s.queue != [] && s.queue[0].mode.Shared? ==> t.readers > 0 && |t.granted| > |s.granted|)
            && |Outstanding(t)| + |t.queue| == |Outstanding(s)| + |s.queue|
            && t.arrivals == s.arrivals && t.released == s.released
            && |t.granted| >= |s.granted|
            && t.readers >= s.readers
    decreases |s.queue|
  {
    if s.queue != [] && s.queue[0].mode.Shared? {
      var u := s.(queue := s.queue[1..], readers := s.readers + 1, granted := s.granted + [s.queue[0]]);
      HoldingAfterGrant(s, u);
      GrantReadersCoherent(u);
    }
  }

  lemma DrainRestoresInv(s: Access)
    requires Coherent(s)
    ensures var t := Drain(s);
            && Inv(t)
            && |Outstanding(t)| + |t.queue| == |Outstanding(s)| + |s.queue|
            && t.arrivals == s.arrivals && t.released == s.released
            && |t.granted| >= |s.granted|
  {
    if !s.writer && s.queue != [] {
      if s.queue[0].mode.Shared? {
        GrantReadersCoherent(s);
      } else if s.readers <= 0 {
        HoldingAfterGrant(s, Drain(s));
      }
    }
  }

  lemma ReturnCoherent(s: Access, ticket: nat)
    requires Coherent(s) && Effective(s, ticket)
    ensures Coherent(Return(s, ticket))
    ensures |Outstanding(Return(s, ticket))| == |Outstanding(s)| - 1
  {
    HoldingAfterReturn(s, ticket);
    var m := s.granted[ticket].mode;
    assert ticket in Holding(s, m);
  }

  lemma EnqueueCoherent(s: Access, mode: Mode)
    requires Coherent(s)
    ensures Coherent(Enqueue(s, mode))
  {
    EnqueueKeepsHoldings(s, mode);
  }

  lemma StepKeepsInv(s: Access, e: Event)
    requires Inv(s)
    ensures Inv(Step(s, e))
  {
    match e
    case Acquire(mode) =>
      EnqueueCoherent(s, mode);
      DrainRestoresInv(Enqueue(s, mode));
    case Release(ticket) =>
      if Effective(s, ticket) {
        ReturnCoherent(s, ticket);
        DrainRestoresInv(Return(s, ticket));
      }
  }

  lemma {:induction false} RunKeepsInv(s: Access, es: seq<Event>)
    requires Inv(s)
    ensures Inv(Run(s, es))
    decreases |es|
  {
    if es != [] {
      StepKeepsInv(s, es[0]);
      RunKeepsInv(Step(s, es[0]), es[1..]);
    }
  }

  // ---- Whole-run results ----------------------------------------------------

  lemma {:induction false} SubsetCardinality(a: set<nat>, b: set<nat>)
    requires a <= b
    ensures |a| <= |b|
    decreases |a|
  {
    if a != {} {
      var x :| x in a;
      SubsetCardinality(a - {x}, b - {x});
    }
  }

  lemma HoldersCompatible(s: Access)
    requires Coherent(s)
    ensures forall i, j :: i in Outstanding(s) && j in Outstanding(s) && i != j ==>
                             s.granted[i].mode.Shared? && s.granted[j].mode.Shared?
  {
    forall i, j | i in Outstanding(s) && j in Outstanding(s) && i != j
      ensures s.granted[i].mode.Shared?
    {
      if s.granted[i].mode.Exclusive? {
        assert i in Holding(s, Exclusive);
        assert Holding(s, Shared) == {};
        assert j !in Holding(s, Shared);
        SubsetCardinality({i, j}, Holding(s, Exclusive));
      }
    }
  }

  /** After any sequence of acquires and (possibly repeated) releases: a writer
      excludes every other holder, the counters are the outstanding grants, the
      grants followed by the queue are the arrival order, and a non-empty queue
      has a blocked head. */
  lemma EveryRunIsSafe(es: seq<Event>)
    ensures var s := Run(INITIAL, es);
            && (forall i, j :: i in Outstanding(s) && j in Outstanding(s) && i != j ==>
                  s.granted[i].mode.Shared? && s.granted[j].mode.Shared?)
            && CountersExact(s) && InArrivalOrder(s) && NoLostWakeUp(s)
  {
    assert Holding(INITIAL, Shared) == {} && Holding(INITIAL, Exclusive) == {};
    RunKeepsInv(INITIAL, es);
    HoldersCompatible(Run(INITIAL, es));
  }

  // ---- What a release and an arrival do -------------------------------------------

  /** The head of the queue could hold the lock beside these holders. */
  ghost predicate FitsBeside(s: Access, holders: set<nat>)
    requires s.queue != [] && holders <= Outstanding(s)
  {
    if s.queue[0].mode.Exclusive? then holders == {}
    else forall i :: i in holders ==> s.granted[i].mode.Shared?
  }

  /** The counters say what the holders are. */
  lemma BlockedExactly(s: Access)
    requires Coherent(s) && s.queue != []
    ensures HeadBlocked(s) <==> !FitsBeside(s, Outstanding(s))
  {
    if s.writer {
      var i :| i in Holding(s, Exclusive);
      assert i in Outstanding(s) && s.granted[i].mode.Exclusive?;
    } else if s.readers > 0 {
      var i :| i in Holding(s, Shared);
      assert i in Outstanding(s);
    }
    forall i | i in Outstanding(s) ensures s.writer || (s.readers > 0 && s.granted[i].mode.Shared?) {
      assert i in Holding(s, s.granted[i].mode);
    }
  }

  lemma GrantedHolds(s: Access, granter: Waiter)
    requires InArrivalOrder(s) && granter in s.granted
    ensures granter.ticket < |s.granted| && s.granted[granter.ticket] == granter
    ensures granter.ticket in s.released || granter.ticket in Outstanding(s)
  {}

  /** A drain grants the head exactly when it fits beside the holders. */
  lemma DrainGrantsExactly(s: Access)
    requires Coherent(s)
    ensures |Drain(s).granted| > |s.granted| <==> s.queue != [] && FitsBeside(s, Outstanding(s))
  {
    DrainRestoresInv(s);
    if s.queue != [] {
      BlockedExactly(s);
      if s.queue[0].mode.Shared? && !s.writer {
        GrantReadersCoherent(s);
      }
    }
  }

  lemma FrontKept(a: seq<Waiter>, b: seq<Waiter>, c: seq<Waiter>, d: seq<Waiter>)
    requires a + b == c + d && |a| <= |c|
    ensures a <= c
  {
    assert a == (a + b)[..|a|];
    assert a == (c + d)[..|a|];
  }

  lemma {:induction false} GrantReadersMovesHead(s: Access)
    ensures var t := GrantReaders(s); t.granted + t.queue == s.granted + s.queue
    decreases |s.queue|
  {
    if s.queue != [] && s.queue[0].mode.Shared? {
      var u := s.(queue := s.queue[1..], readers := s.readers + 1, granted := s.granted + [s.queue[0]]);
      assert u.granted + u.queue == s.granted + s.queue;
      GrantReadersMovesHead(u);
    }
  }

  /** Draining never reorders: it only moves the boundary between the granted
      requests and the queue. */
  lemma DrainMovesHead(s: Access)
    ensures var t := Drain(s); t.granted + t.queue == s.granted + s.queue
  {
    if !s.writer && s.queue != [] {
      if s.queue[0].mode.Shared? {
        GrantReadersMovesHead(s);
      } else if s.readers <= 0 {
        assert (s.granted + [s.queue[0]]) + s.queue[1..] == s.granted + s.queue;
      }
    }
  }

  /** Whoever holds the lock, reader or writer, gives it up by releasing; nothing else
      changes but that the head of the queue is granted exactly when it fits beside the
      remaining holders. A release by anybody else changes nothing. */
  lemma ReleaseExactly(s: Access, ticket: nat)
    requires Inv(s)
    ensures var t := Step(s, Release(ticket));
            if ticket in Outstanding(s) then
              && t.released == s.released + {ticket}
              && t.granted + t.queue == s.granted + s.queue && t.arrivals == s.arrivals
              && s.granted <= t.granted
              && (|t.granted| > |s.granted| <==> s.queue != [] && FitsBeside(s, Outstanding(s) - {ticket}))
            else t == s
  {
    if ticket in Outstanding(s) {
      var u := Return(s, ticket);
      ReturnCoherent(s, ticket);
      OutstandingAfterReturn(s, ticket);
      DrainRestoresInv(u);
      DrainMovesHead(u);
      DrainGrantsExactly(u);
      FrontKept(s.granted, s.queue, Drain(u).granted, Drain(u).queue);
    }
  }

  /** An arrival joins at the end, and is granted at once exactly when nobody waits and it
      fits beside the holders. */
  lemma AcquireExactly(s: Access, mode: Mode)
    requires Inv(s)
    ensures var t := Step(s, Acquire(mode));
            && t.granted + t.queue == s.granted + s.queue + [Waiter(s.arrivals, mode)]
            && t.arrivals == s.arrivals + 1 && t.released == s.released
            && (s.arrivals < |t.granted| <==>
                s.queue == [] && (if mode.Exclusive? then Outstanding(s) == {}
                                  else forall i :: i in Outstanding(s) ==> s.granted[i].mode.Shared?))
  {
    var u := Enqueue(s, mode);
    EnqueueCoherent(s, mode);
    EnqueueKeepsHoldings(s, mode);
    DrainRestoresInv(u);
    DrainMovesHead(u);
    DrainGrantsExactly(u);
    assert s.granted + (s.queue + [Waiter(s.arrivals, mode)]) == s.granted + s.queue + [Waiter(s.arrivals, mode)];
    if s.queue != [] {
      BlockedExactly(s);
      assert u.queue[0] == s.queue[0];
    }
  }

  // ---- Bounded bypass ---------------------------------------------------------

  /** How many of the events are releases by somebody who holds the lock then. */
  function HolderReleases(s: Access, es: seq<Event>): nat
    decreases |es|
  {
    if es == [] then 0
    else (if es[0].Release? && es[0].ticket in Outstanding(s) then 1 else 0)
         + HolderReleases(Step(s, es[0]), es[1..])
  }

  /** The distance of a ticket from its grant: the grants outstanding plus the
      waiters in front of it. */
  function Distance(s: Access, ticket: nat): int
  {
    |Outstanding(s)| + ticket - |s.granted|
  }

  lemma StepDistance(s: Access, e: Event, ticket: nat)
    requires Inv(s) && |s.granted| <= ticket < s.arrivals
    ensures var t := Step(s, e);
            && |t.granted| >= |s.granted|
            && t.arrivals >= s.arrivals
            && Distance(t, ticket) ==
                 Distance(s, ticket) - (if e.Release? && e.ticket in Outstanding(s) then 1 else 0)
  {
    match e
    case Acquire(mode) =>
      EnqueueCoherent(s, mode);
      EnqueueKeepsHoldings(s, mode);
      DrainRestoresInv(Enqueue(s, mode));
      var u := Enqueue(s, mode);
      assert u.queue[0] == s.queue[0];
    case Release(r) =>
      if Effective(s, r) {
        ReturnCoherent(s, r);
        DrainRestoresInv(Return(s, r));
      }
  }

  lemma BlockedMeansHeld(s: Access)
    requires Coherent(s) && s.queue != [] && HeadBlocked(s)
    ensures |Outstanding(s)| > 0
  {
    if s.writer {
      var i :| i in Holding(s, Exclusive);
      assert i in Outstanding(s);
    } else {
      var i :| i in Holding(s, Shared);
      assert i in Outstanding(s);
    }
  }

  lemma StepMonotone(s: Access, e: Event)
    requires Inv(s)
    ensures var t := Step(s, e);
            && t.arrivals >= s.arrivals && |t.granted| >= |s.granted|
            && s.granted + s.queue <= t.granted + t.queue
  {
    match e
    case Acquire(mode) =>
      EnqueueCoherent(s, mode);
      DrainRestoresInv(Enqueue(s, mode));
      DrainMovesHead(Enqueue(s, mode));
      assert s.granted + s.queue <= s.granted + (s.queue + [Waiter(s.arrivals, mode)]);
    case Release(ticket) =>
      if Effective(s, ticket) {
        ReturnCoherent(s, ticket);
        DrainRestoresInv(Return(s, ticket));
        DrainMovesHead(Return(s, ticket));
      }
  }

  lemma {:induction false} StillGranted(s: Access, es: seq<Event>)
    requires Inv(s)
    ensures |Run(s, es).granted| >= |s.granted|
    decreases |es|
  {
    if es != [] {
      StepMonotone(s, es[0]);
      StepKeepsInv(s, es[0]);
      StillGranted(Step(s, es[0]), es[1..]);
    }
  }

  lemma {:induction false} StillGrantedOrNear(s: Access, es: seq<Event>, ticket: nat)
    requires Inv(s) && ticket < s.arrivals
    ensures var t := Run(s, es);
            && ticket < t.arrivals
            && (ticket < |t.granted| || Distance(t, ticket) == Distance(s, ticket) - HolderReleases(s, es))
    decreases |es|
  {
    if es != [] {
      var t := Step(s, es[0]);
      StepKeepsInv(s, es[0]);
      StepMonotone(s, es[0]);
      if ticket >= |s.granted| {
        StepDistance(s, es[0], ticket);
      } else {
        StillGranted(t, es[1..]);
      }
      StillGrantedOrNear(t, es[1..], ticket);
    }
  }

  lemma {:induction false} RunExtends(s: Access, es: seq<Event>)
    requires Inv(s)
    ensures var t := Run(s, es); s.granted + s.queue <= t.granted + t.queue
    decreases |es|
  {
    if es != [] {
      StepMonotone(s, es[0]);
      StepKeepsInv(s, es[0]);
      RunExtends(Step(s, es[0]), es[1..]);
    }
  }

  /** A waiter at queue index i with h grants outstanding is granted after at most
      h + i further releases, whatever arrives in between. */
  lemma {:induction false} BoundedBypass(s: Access, es: seq<Event>, i: nat)
    requires Inv(s) && i < |s.queue|
    requires HolderReleases(s, es) >= |Outstanding(s)| + i
    ensures s.queue[i].ticket < |Run(s, es).granted|
    ensures Run(s, es).granted[s.queue[i].ticket] == s.queue[i]
    decreases |es|
  {
    StillGrantedOrNear(s, es, s.queue[i].ticket);
    RunExtends(s, es);
    RunKeepsInv(s, es);
    var t := Run(s, es);
    var ticket := s.queue[i].ticket;
    if ticket >= |t.granted| {
      assert Distance(t, ticket) <= 0;
      assert t.queue != [];
      assert HeadBlocked(t);
      BlockedMeansHeld(t);
      assert false;
    }
    assert (t.granted + t.queue)[ticket] == (s.granted + s.queue)[ticket];
  }

  // ---- The lock as the application keeps it ----------------------------------

  class SecretAccessLock {
    var queue: seq<Waiter>
    var readers: int
    var writer: bool
    var released: set<nat>
    var arrivals: nat
    ghost var granted: seq<Waiter>

    ghost function View(): Access
      reads this
    {
      Access(queue, readers, writer, granted, released, arrivals)
    }

    ghost predicate Valid()
      reads this
    {
      Inv(View())
    }

    constructor ()
      ensures Valid() && View() == INITIAL
    {
      queue, readers, writer, released, arrivals, granted := [], 0, false, {}, 0, [];
      new;
      assert Holding(View(), Shared) == {} && Holding(View(), Exclusive) == {};
    }

    method AcquireSecretAccess(mode: Mode) returns (ticket: nat)
      requires Valid()
      modifies this
      ensures Valid() && ticket == old(arrivals)
      ensures View() == Step(old(View()), Acquire(mode))
    {
      StepKeepsInv(View(), Acquire(mode));
      ticket := arrivals;
      queue := queue + [Waiter(arrivals, mode)];
      arrivals := arrivals + 1;
      DrainSecretAccess();
    }

    /** The closure handed to a granted waiter; calling it again does nothing. */
    method ReleaseSecretAccess(granter: Waiter)
      requires Valid()
      requires granter in granted
      modifies this
      ensures Valid()
      ensures View() == Step(old(View()), Release(granter.ticket))
      ensures granter.ticket in released
      ensures granter.ticket in old(released) ==> View() == old(View())
    {
      GrantedHolds(View(), granter);
      hide Inv, Outstanding, FitsBeside, Drain;
      StepKeepsInv(View(), Release(granter.ticket));
      ReleaseExactly(View(), granter.ticket);
      if granter.ticket in released {
        return;
      }
      released := released + {granter.ticket};
      if granter.mode.Exclusive? {
        writer := false;
      } else {
        readers := readers - 1;
      }
      DrainSecretAccess();
    }

    method DrainSecretAccess()
      modifies this
      ensures View() == Drain(old(View()))
    {
      if writer || queue == [] {
        return;
      }
      var next := queue[0];
      if next.mode.Exclusive? {
        if readers > 0 {
          return;
        }
        queue := queue[1..];
        writer := true;
        granted := granted + [next];
        return;
      }
      while queue != [] && queue[0].mode.Shared?
        invariant GrantReaders(View()) == GrantReaders(old(View()))
        decreases |queue|
      {
        var reader := queue[0];
        queue := queue[1..];
        readers := readers + 1;
        granted := granted + [reader];
      }
    }
  }
}
