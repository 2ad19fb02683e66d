/** The one-slot hand-off between a streaming operation and its reader
    (apps/daemon/src/application.ts:268-329). */
module StreamRendezvous {

  // The event loop runs one synchronous stretch at a time, so `push`, `finish`,
  // `close`, the first stretch of `next` and each resumption of a parked `next`
  // are atomic steps. Any number of `next` calls may be outstanding here; the
  // single `#waiter` cell of the original remembers only the last one to park.

  datatype Reason = StreamClosed | StreamSettled | BufferOccupied

  /** What became of the promise returned by one `push`. */
  datatype Fate = Pending | Accepted | Rejected(reason: Reason)

  datatype PushRecord<T> = Pushed(value: T, fate: Fate)

  datatype Item<T> = NoItem | Item(push: nat, value: T)

  datatype Terminal<R> = Unset | Set(value: R)

  datatype Waiter = NoWaiter | Waiter(call: nat)

  /** What one `next` call resolved to. */
  datatype Reply<T, R> = Event(value: T) | Done(result: R)

  /** `calls` numbers the `next` calls; `parked` are those suspended on a promise
      nobody has resolved, `woken` those whose resumption is queued. `pushes` and
      `replies` are the history of the stream. */
  datatype Slot<T, R> = Slot(
    item: Item<T>,
    terminal: Terminal<R>,
    closed: bool,
    waiter: Waiter,
    calls: nat,
    parked: set<nat>,
    woken: set<nat>,
    pushes: seq<PushRecord<T>>,
    replies: seq<Reply<T, R>>)

  datatype Action<T, R> =
    | DoPush(value: T)
    | DoFinish(result: R)
    | DoClose
    | DoNext
    | DoResume(call: nat)

  function Initial<T, R>(): Slot<T, R>
  {
    Slot(NoItem, Unset, false, NoWaiter, 0, {}, {}, [], [])
  }

  // ---- The steps ------------------------------------------------------------

  function Wake<T, R>(s: Slot<T, R>): Slot<T, R>
  {
    match s.waiter
    case NoWaiter => s
    case Waiter(c) => s.(waiter := NoWaiter, parked := s.parked - {c}, woken := s.woken + {c})
  }

  function Refuse<T, R>(s: Slot<T, R>, value: T, reason: Reason): Slot<T, R>
  {
    s.(pushes := s.pushes + [Pushed(value, Rejected(reason))])
  }

  function PushStep<T, R>(s: Slot<T, R>, value: T): Slot<T, R>
  {
    if s.closed then Refuse(s, value, StreamClosed)
    else if s.terminal.Set? then Refuse(s, value, StreamSettled)
    else if s.item.Item? then Refuse(s, value, BufferOccupied)
    else Wake(s.(item := Item(|s.pushes|, value), pushes := s.pushes + [Pushed(value, Pending)]))
  }

  function FinishStep<T, R>(s: Slot<T, R>, result: R): Slot<T, R>
  {
    if s.terminal.Set? then s else Wake(s.(terminal := Set(result)))
  }

  function Mark<T>(pushes: seq<PushRecord<T>>, i: nat, fate: Fate): seq<PushRecord<T>>
  {
    if i < |pushes| then pushes[i := Pushed(pushes[i].value, fate)] else pushes
  }

  function CloseStep<T, R>(s: Slot<T, R>): Slot<T, R>
  {
    var t := s.(closed := true, item := NoItem);
    Wake(if s.item.Item? then t.(pushes := Mark(s.pushes, s.item.push, Rejected(StreamClosed))) else t)
  }

  /** One pass of the loop of `next`: take the item, else the terminal, else park. */
  function Poll<T, R>(s: Slot<T, R>, call: nat): Slot<T, R>
  {
    if s.item.Item? then
      s.(item := NoItem,
         pushes := Mark(s.pushes, s.item.push, Accepted),
         replies := s.replies + [Event(s.item.value)])
    else if s.terminal.Set? then
      s.(replies := s.replies + [Done(s.terminal.value)])
    else
      s.(waiter := Waiter(call), parked := s.parked + {call})
  }

  function Step<T, R>(s: Slot<T, R>, a: Action<T, R>): Slot<T, R>
  {
    match a
    case DoPush(value) => PushStep(s, value)
    case DoFinish(result) => FinishStep(s, result)
    case DoClose => CloseStep(s)
    case DoNext => Poll(s.(calls := s.calls + 1), s.calls)
    case DoResume(call) => if call in s.woken then Poll(s.(woken := s.woken - {call}), call) else s
  }

  function Run<T, R>(s: Slot<T, R>, actions: seq<Action<T, R>>): Slot<T, R>
    decreases |actions|
  {
    if actions == [] then s else Run(Step(s, actions[0]), actions[1..])
  }

  // ---- What the history says --------------------------------------------------

  /** The values whose push resolved, in push order. */
  function AcceptedValues<T>(pushes: seq<PushRecord<T>>): seq<T>
  {
    if pushes == [] then []
    else AcceptedValues(pushes[..|pushes| - 1])
         + (if pushes[|pushes| - 1].fate.Accepted? then [pushes[|pushes| - 1].value] else [])
  }

  /** The events handed to readers, in reply order. */
  function DeliveredValues<T, R>(replies: seq<Reply<T, R>>): seq<T>
  {
    if replies == [] then []
    else DeliveredValues(replies[..|replies| - 1])
         + (if replies[|replies| - 1].Event? then [replies[|replies| - 1].value] else [])
  }

  /** The slot holds exactly the one pending push, and every later push was refused. */
  ghost predicate SlotIsThePendingPush<T, R>(s: Slot<T, R>)
  {
    && (forall i :: 0 <= i < |s.pushes| && s.pushes[i].fate.Pending? ==>
          s.item == Item(i, s.pushes[i].value))
    && (s.item.Item? ==>
          && s.item.push < |s.pushes|
          && s.pushes[s.item.push] == Pushed(s.item.value, Pending)
          && forall j :: s.item.push < j < |s.pushes| ==> s.pushes[j].fate.Rejected?)
  }

  /** The terminal reply comes only from an empty slot and is then repeated for ever. */
  ghost predicate TerminalIsLast<T, R>(s: Slot<T, R>)
  {
    forall i :: 0 <= i < |s.replies| && s.replies[i].Done? ==>
      && s.item.NoItem?
      && s.terminal == Set(s.replies[i].result)
      && forall j :: i <= j < |s.replies| ==> s.replies[j] == s.replies[i]
  }

  /** Everything but the wake-up clause, which a step restores when it wakes. */
  ghost predicate Core<T, R>(s: Slot<T, R>)
  {
    && SlotIsThePendingPush(s)
    && TerminalIsLast(s)
    && DeliveredValues(s.replies) == AcceptedValues(s.pushes)
    && (s.closed ==> s.item.NoItem?)
    && s.parked !! s.woken
    && (forall c :: c in s.parked || c in s.woken ==> c < s.calls)
    && (s.waiter.Waiter? ==> s.waiter.call in s.parked)
  }

  ghost predicate Inv<T, R>(s: Slot<T, R>)
  {
    Core(s) && (s.waiter.Waiter? ==> s.item.NoItem? && s.terminal.Unset?)
  }

  // ---- Lemmas on the history ----------------------------------------------------

  lemma {:induction false} AcceptedAfterMark<T>(pushes: seq<PushRecord<T>>, i: nat, fate: Fate)
    requires i < |pushes| && pushes[i].fate.Pending?
    requires forall j :: i < j < |pushes| ==> pushes[j].fate.Rejected?
    ensures AcceptedValues(Mark(pushes, i, fate)) ==
            AcceptedValues(pushes) + if fate.Accepted? then [pushes[i].value] else []
    decreases |pushes|
  {
    var n := |pushes| - 1;
    var marked := Mark(pushes, i, fate);
    if i == n {
      assert marked[..n] == pushes[..n];
    } else {
      assert marked[..n] == Mark(pushes[..n], i, fate);
      AcceptedAfterMark(pushes[..n], i, fate);
    }
  }

  lemma AcceptedSnoc<T>(pushes: seq<PushRecord<T>>, p: PushRecord<T>)
    ensures AcceptedValues(pushes + [p]) == AcceptedValues(pushes) + if p.fate.Accepted? then [p.value] else []
  {
    assert (pushes + [p])[..|pushes|] == pushes;
  }

  lemma DeliveredSnoc<T, R>(replies: seq<Reply<T, R>>, r: Reply<T, R>)
    ensures DeliveredValues(replies + [r]) == DeliveredValues(replies) + if r.Event? then [r.value] else []
  {
    assert (replies + [r])[..|replies|] == replies;
  }

  lemma WakeRestoresInv<T, R>(s: Slot<T, R>)
    requires Core(s)
    ensures Inv(Wake(s))
  {
    hide AcceptedValues, DeliveredValues;
  }

  /** A refused push only adds its refusal to the history. */
  lemma RefuseKeepsInv<T, R>(s: Slot<T, R>, value: T, reason: Reason)
    requires Inv(s)
    ensures Inv(Refuse(s, value, reason))
  {
    AcceptedSnoc(s.pushes, Pushed(value, Rejected(reason)));
    hide AcceptedValues, DeliveredValues;
  }

  /** An admitted push is the one pending push from now on. */
  lemma AdmitKeepsCore<T, R>(s: Slot<T, R>, value: T)
    requires Inv(s) && !s.closed && s.terminal.Unset? && s.item.NoItem?
    ensures Core(s.(item := Item(|s.pushes|, value), pushes := s.pushes + [Pushed(value, Pending)]))
  {
    AcceptedSnoc(s.pushes, Pushed(value, Pending));
    hide AcceptedValues, DeliveredValues;
  }

  lemma PushKeepsInv<T, R>(s: Slot<T, R>, value: T)
    requires Inv(s)
    ensures Inv(PushStep(s, value))
  {
    if s.closed || s.terminal.Set? || s.item.Item? {
      RefuseKeepsInv(s, value, if s.closed then StreamClosed else if s.terminal.Set? then StreamSettled else BufferOccupied);
    } else {
      AdmitKeepsCore(s, value);
      WakeRestoresInv(s.(item := Item(|s.pushes|, value), pushes := s.pushes + [Pushed(value, Pending)]));
    }
    hide Inv, Core, Refuse, Wake;
  }

  lemma CloseKeepsInv<T, R>(s: Slot<T, R>)
    requires Inv(s)
    ensures Inv(CloseStep(s))
  {
    var t := s.(closed := true, item := NoItem);
    if s.item.Item? {
      AcceptedAfterMark(s.pushes, s.item.push, Rejected(StreamClosed));
      WakeRestoresInv(t.(pushes := Mark(s.pushes, s.item.push, Rejected(StreamClosed))));
    } else {
      WakeRestoresInv(t);
    }
  }

  /** Taking the item accepts its push and delivers its value. */
  lemma TakeKeepsInv<T, R>(s: Slot<T, R>)
    requires Inv(s) && s.item.Item?
    ensures Inv(s.(item := NoItem,
                   pushes := Mark(s.pushes, s.item.push, Accepted),
                   replies := s.replies + [Event(s.item.value)]))
  {
    AcceptedAfterMark(s.pushes, s.item.push, Accepted);
    DeliveredSnoc(s.replies, Event(s.item.value));
    hide AcceptedValues, DeliveredValues;
  }

  lemma ReportKeepsInv<T, R>(s: Slot<T, R>)
    requires Inv(s) && s.item.NoItem? && s.terminal.Set?
    ensures Inv(s.(replies := s.replies + [Done(s.terminal.value)]))
  {
    DeliveredSnoc(s.replies, Done(s.terminal.value));
    hide AcceptedValues, DeliveredValues;
  }

  lemma PollKeepsInv<T, R>(s: Slot<T, R>, call: nat)
    requires Inv(s) && call < s.calls && call !in s.parked && call !in s.woken
    ensures Inv(Poll(s, call))
  {
    if s.item.Item? {
      TakeKeepsInv(s);
    } else if s.terminal.Set? {
      ReportKeepsInv(s);
    }
    hide AcceptedValues, DeliveredValues, SlotIsThePendingPush, TerminalIsLast;
  }

  lemma StepKeepsInv<T, R>(s: Slot<T, R>, a: Action<T, R>)
    requires Inv(s)
    ensures Inv(Step(s, a))
  {
    hide PushStep, CloseStep, Poll;
    match a
    case DoPush(value) => PushKeepsInv(s, value);
    case DoFinish(result) => WakeRestoresInv(s.(terminal := if s.terminal.Set? then s.terminal else Set(result)));
    case DoClose => CloseKeepsInv(s);
    case DoNext => PollKeepsInv(s.(calls := s.calls + 1), s.calls);
    case DoResume(call) =>
      if call in s.woken {
        PollKeepsInv(s.(woken := s.woken - {call}), call);
      }
  }

  lemma {:induction false} RunKeepsInv<T, R>(s: Slot<T, R>, actions: seq<Action<T, R>>)
    requires Inv(s)
    ensures Inv(Run(s, actions))
    decreases |actions|
  {
    if actions != [] {
      StepKeepsInv(s, actions[0]);
      RunKeepsInv(Step(s, actions[0]), actions[1..]);
    }
  }

  // ---- Exact delivery --------------------------------------------------------------

  /** In every run the delivered events are precisely the pushes that resolved, in
      push order; the one push still pending is in the slot; every other push was
      refused; and a terminal reply is followed by nothing but itself. */
  lemma ExactDelivery<T, R>(actions: seq<Action<T, R>>)
    ensures var s := Run(Initial<T, R>(), actions);
            && DeliveredValues(s.replies) == AcceptedValues(s.pushes)
            && SlotIsThePendingPush(s)
            && TerminalIsLast(s)
  {
    RunKeepsInv(Initial<T, R>(), actions);
  }

  /** What becomes of one more push: refused, for the first of the three reasons that
      applies, or pending in the slot. */
  lemma PushExactly<T, R>(s: Slot<T, R>, value: T)
    requires Inv(s)
    ensures var t := Step(s, DoPush(value));
            var fate := if s.closed then Rejected(StreamClosed)
                        else if s.terminal.Set? then Rejected(StreamSettled)
                        else if exists i :: 0 <= i < |s.pushes| && s.pushes[i].fate.Pending? then Rejected(BufferOccupied)
                        else Pending;
            t.pushes == s.pushes + [Pushed(value, fate)]
  {
    hide AcceptedValues, DeliveredValues, TerminalIsLast;
    assert s.item.Item? ==> s.pushes[s.item.push].fate.Pending?;
  }

  /** A push that is pending resolves when a `next` takes it and is rejected by `close`
      alone: not by `finish`, nor by any other push. A settled one stays as it is. */
  lemma FateExactly<T, R>(s: Slot<T, R>, a: Action<T, R>, i: nat)
    requires Inv(s) && i < |s.pushes|
    ensures var t := Step(s, a);
            var fate := if !s.pushes[i].fate.Pending? then s.pushes[i].fate
                        else if a.DoClose? then Rejected(StreamClosed)
                        else if a.DoNext? || (a.DoResume? && a.call in s.woken) then Accepted
                        else Pending;
            i < |t.pushes| && t.pushes[i] == Pushed(s.pushes[i].value, fate)
  {
    hide AcceptedValues, DeliveredValues, TerminalIsLast;
  }

  /** What one pass of `next` comes to: the pending push, else the terminal, else the call
      is parked. */
  lemma NextExactly<T, R>(s: Slot<T, R>, a: Action<T, R>)
    requires Inv(s) && (a.DoNext? || (a.DoResume? && a.call in s.woken))
    ensures var t := Step(s, a);
            var call := if a.DoNext? then s.calls else a.call;
            && (forall i :: 0 <= i < |s.pushes| && s.pushes[i].fate.Pending? ==>
                  t.replies == s.replies + [Event(s.pushes[i].value)])
            && ((forall i :: 0 <= i < |s.pushes| ==> !s.pushes[i].fate.Pending?) ==>
                  if s.terminal.Set? then t.replies == s.replies + [Done(s.terminal.value)]
                  else t.replies == s.replies && call in t.parked && t.waiter == Waiter(call))
  {
    hide AcceptedValues, DeliveredValues, TerminalIsLast;
    assert s.item.Item? ==> s.pushes[s.item.push].fate.Pending?;
  }

  lemma FirstFinishStep<T, R>(s: Slot<T, R>, a: Action<T, R>)
    ensures var t := Step(s, a);
            t.terminal == if s.terminal.Unset? && a.DoFinish? then Set(a.result) else s.terminal
  {}

  lemma {:induction false} RunSnoc<T, R>(s: Slot<T, R>, actions: seq<Action<T, R>>, a: Action<T, R>)
    ensures Run(s, actions + [a]) == Step(Run(s, actions), a)
    decreases |actions|
  {
    hide Step;
    if actions == [] {
      assert [] + [a] == [a] && [a][1..] == [];
    } else {
      assert (actions + [a])[1..] == actions[1..] + [a];
      RunSnoc(Step(s, actions[0]), actions[1..], a);
    }
  }

  /** In every run the terminal is the result of the first `finish`. */
  lemma {:induction false} FirstFinishWins<T, R>(actions: seq<Action<T, R>>, x: R)
    ensures Run(Initial<T, R>(), actions).terminal == Set(x) <==>
            exists k :: 0 <= k < |actions| && actions[k] == DoFinish(x) && forall j :: 0 <= j < k ==> !actions[j].DoFinish?
    ensures Run(Initial<T, R>(), actions).terminal.Unset? <==> forall j :: 0 <= j < |actions| ==> !actions[j].DoFinish?
    decreases |actions|
  {
    if actions != [] {
      var n := |actions| - 1;
      var front, a := actions[..n], actions[n];
      assert actions == front + [a];
      assert forall j :: 0 <= j < n ==> actions[j] == front[j];
      hide Step;
      RunSnoc(Initial<T, R>(), front, a);
      FirstFinishStep(Run(Initial<T, R>(), front), a);
      FirstFinishWins(front, x);
    }
  }

  /** The replies given and the calls still open. */
  function Accounted<T, R>(s: Slot<T, R>): nat
  {
    |s.replies| + |s.parked| + |s.woken|
  }

  lemma WakeAccounts<T, R>(s: Slot<T, R>)
    requires s.parked !! s.woken && (s.waiter.Waiter? ==> s.waiter.call in s.parked)
    ensures Accounted(Wake(s)) == Accounted(s) && Wake(s).calls == s.calls
  {}

  lemma PollAccounts<T, R>(s: Slot<T, R>, call: nat)
    requires call !in s.parked
    ensures Accounted(Poll(s, call)) == Accounted(s) + 1 && Poll(s, call).calls == s.calls
  {
    hide Mark;
  }

  lemma CallsStep<T, R>(s: Slot<T, R>, a: Action<T, R>)
    requires Inv(s) && Accounted(s) == s.calls
    ensures Accounted(Step(s, a)) == Step(s, a).calls
  {
    hide Wake, Poll, Mark, SlotIsThePendingPush, TerminalIsLast, AcceptedValues, DeliveredValues;
    match a
    case DoPush(value) => WakeAccounts(s.(item := Item(|s.pushes|, value), pushes := s.pushes + [Pushed(value, Pending)]));
    case DoFinish(result) => WakeAccounts(s.(terminal := Set(result)));
    case DoClose =>
      var t := s.(closed := true, item := NoItem);
      WakeAccounts(if s.item.Item? then t.(pushes := Mark(s.pushes, s.item.push, Rejected(StreamClosed))) else t);
    case DoNext => PollAccounts(s.(calls := s.calls + 1), s.calls);
    case DoResume(call) =>
      if call in s.woken {
        PollAccounts(s.(woken := s.woken - {call}), call);
      }
  }

  /** No call is lost and none is answered twice: in every run each `next` made so far has
      its one reply, or is parked, or is about to run again. */
  lemma {:induction false} CallsConserved<T, R>(actions: seq<Action<T, R>>)
    ensures var s := Run(Initial<T, R>(), actions); Accounted(s) == s.calls && s.parked !! s.woken
    decreases |actions|
  {
    if actions != [] {
      var front, a := actions[..|actions| - 1], actions[|actions| - 1];
      assert actions == front + [a];
      hide Step;
      RunSnoc(Initial<T, R>(), front, a);
      RunKeepsInv(Initial<T, R>(), front);
      RunKeepsInv(Initial<T, R>(), actions);
      CallsConserved(front);
      CallsStep(Run(Initial<T, R>(), front), a);
    }
  }

  lemma ClosedStep<T, R>(s: Slot<T, R>, a: Action<T, R>)
    requires Inv(s) && s.closed
    ensures var t := Step(s, a);
            && t.closed && t.item.NoItem?
            && DeliveredValues(t.replies) == DeliveredValues(s.replies)
            && |s.pushes| <= |t.pushes|
            && forall i :: 0 <= i < |t.pushes| ==>
                 t.pushes[i] == if i < |s.pushes| then s.pushes[i]
                                else Pushed(t.pushes[i].value, Rejected(StreamClosed))
  {
    var t := Step(s, a);
    if |t.replies| > |s.replies| {
      assert t.replies[..|t.replies| - 1] == s.replies;
    }
  }

  lemma {:induction false} RunExtendsPushes<T, R>(s: Slot<T, R>, actions: seq<Action<T, R>>)
    requires Inv(s) && s.closed
    ensures s.pushes <= Run(s, actions).pushes
    decreases |actions|
  {
    if actions != [] {
      ClosedStep(s, actions[0]);
      StepKeepsInv(s, actions[0]);
      RunExtendsPushes(Step(s, actions[0]), actions[1..]);
    }
  }

  /** After `close`: the slot stays empty, nothing more is delivered, no push is
      left parked, and every later push is refused as closed. */
  lemma {:induction false} ClosedForEver<T, R>(s: Slot<T, R>, actions: seq<Action<T, R>>)
    requires Inv(s) && s.closed
    ensures var t := Run(s, actions);
            && t.closed && t.item.NoItem?
            && DeliveredValues(t.replies) == DeliveredValues(s.replies)
            && |s.pushes| <= |t.pushes|
            && (forall i :: 0 <= i < |t.pushes| ==> !t.pushes[i].fate.Pending?)
            && forall i :: |s.pushes| <= i < |t.pushes| ==> t.pushes[i].fate == Rejected(StreamClosed)
    decreases |actions|
  {
    if actions != [] {
      var u := Step(s, actions[0]);
      ClosedStep(s, actions[0]);
      StepKeepsInv(s, actions[0]);
      ClosedForEver(u, actions[1..]);
      RunExtendsPushes(u, actions[1..]);
    }
  }

  // ---- Wake-ups -----------------------------------------------------------------------

  /** A parked call the waiter cell no longer names. */
  predicate Stranded<T, R>(s: Slot<T, R>, call: nat)
  {
    call in s.parked && s.waiter != Waiter(call)
  }

  /** Every `next` is made only when no earlier one is outstanding. */
  predicate OneReader<T, R>(s: Slot<T, R>, actions: seq<Action<T, R>>)
    decreases |actions|
  {
    actions == []
    || ((actions[0].DoNext? ==> s.parked == {} && s.woken == {})
        && OneReader(Step(s, actions[0]), actions[1..]))
  }

  ghost predicate AtMostOneCall<T, R>(s: Slot<T, R>)
  {
    && (forall c, d :: c in s.parked + s.woken && d in s.parked + s.woken ==> c == d)
    && (forall c :: c in s.parked ==> s.waiter == Waiter(c))
  }

  lemma StepKeepsOneCall<T, R>(s: Slot<T, R>, a: Action<T, R>)
    requires Inv(s) && AtMostOneCall(s)
    requires a.DoNext? ==> s.parked == {} && s.woken == {}
    ensures AtMostOneCall(Step(s, a))
  {
    hide SlotIsThePendingPush, TerminalIsLast, AcceptedValues, DeliveredValues, Mark;
    var t := Step(s, a);
    forall c | c in t.parked + t.woken
      ensures c in s.parked + s.woken || (a.DoNext? && c == s.calls)
    {}
    forall c | c in t.parked ensures t.waiter == Waiter(c) {
      assert c in s.parked ==> s.waiter == Waiter(c);
    }
  }

  /** With one reader at a time no wake-up is lost: a parked call means there is
      neither an item nor a terminal to take. */
  lemma {:induction false} NoLostWakeUp<T, R>(s: Slot<T, R>, actions: seq<Action<T, R>>)
    requires Inv(s) && AtMostOneCall(s) && OneReader(s, actions)
    ensures var t := Run(s, actions);
            && AtMostOneCall(t)
            && (forall c :: !Stranded(t, c))
            && (t.parked != {} ==> t.item.NoItem? && t.terminal.Unset?)
    decreases |actions|
  {
    if actions == [] {
      if s.parked != {} {
        var c :| c in s.parked;
        assert s.waiter == Waiter(c);
      }
    } else {
      StepKeepsInv(s, actions[0]);
      StepKeepsOneCall(s, actions[0]);
      NoLostWakeUp(Step(s, actions[0]), actions[1..]);
    }
  }

  lemma StaysStranded<T, R>(s: Slot<T, R>, call: nat, a: Action<T, R>)
    requires Inv(s) && Stranded(s, call)
    ensures Stranded(Step(s, a), call)
  {
    hide SlotIsThePendingPush, TerminalIsLast, AcceptedValues, DeliveredValues, Mark;
  }

  /** A stranded call is lost: no later push, finish or close ever resumes it. */
  lemma {:induction false} StrandedForEver<T, R>(s: Slot<T, R>, call: nat, actions: seq<Action<T, R>>)
    requires Inv(s) && Stranded(s, call)
    ensures Stranded(Run(s, actions), call)
    decreases |actions|
  {
    if actions != [] {
      StepKeepsInv(s, actions[0]);
      StaysStranded(s, call, actions[0]);
      hide Inv, Step, Stranded;
      StrandedForEver(Step(s, actions[0]), call, actions[1..]);
    }
  }

  /** The step parks a call while the waiter cell already names another. */
  predicate Overwrites<T, R>(s: Slot<T, R>, a: Action<T, R>)
  {
    && (a.DoNext? || (a.DoResume? && a.call in s.woken))
    && s.item.NoItem? && s.terminal.Unset? && s.waiter.Waiter?
  }

  ghost predicate NoneStranded<T, R>(s: Slot<T, R>)
  {
    forall c :: !Stranded(s, c)
  }

  /** One step from a state without stranded calls strands one exactly when it
      overwrites the waiter cell. */
  lemma StrandsExactly<T, R>(s: Slot<T, R>, a: Action<T, R>)
    requires Inv(s) && NoneStranded(s)
    ensures NoneStranded(Step(s, a)) <==> !Overwrites(s, a)
  {
    var t := Step(s, a);
    if Overwrites(s, a) {
      assert s.waiter.call in s.parked && s.waiter.call < s.calls;
      assert Stranded(t, s.waiter.call);
    } else {
      forall c ensures !Stranded(t, c) {
        assert !Stranded(s, c);
      }
    }
  }

  lemma RunFront<T, R>(s: Slot<T, R>, actions: seq<Action<T, R>>, k: nat)
    requires k < |actions|
    ensures Run(s, actions[..k + 1]) == Run(Step(s, actions[0]), actions[1..][..k])
  {
    hide Step;
    assert actions[..k + 1][0] == actions[0] && actions[..k + 1][1..] == actions[1..][..k];
  }

  /** A run strands some call exactly when one of its steps parks a call while another
      is parked in the waiter cell: overlapping calls alone do no harm. */
  lemma {:induction false} StrandedExactly<T, R>(s: Slot<T, R>, actions: seq<Action<T, R>>)
    requires Inv(s) && NoneStranded(s)
    ensures !NoneStranded(Run(s, actions)) <==>
            exists k :: 0 <= k < |actions| && Overwrites(Run(s, actions[..k]), actions[k])
    decreases |actions|
  {
    if actions != [] {
      var a, rest := actions[0], actions[1..];
      var t := Step(s, a);
      StrandsExactly(s, a);
      StepKeepsInv(s, a);
      assert actions[..0] == [] && Run(s, actions[..0]) == s;
      forall k | 0 <= k < |rest| ensures Run(s, actions[..k + 1]) == Run(t, rest[..k]) && rest[k] == actions[k + 1] {
        RunFront(s, actions, k);
      }
      if Overwrites(s, a) {
        var c :| Stranded(t, c);
        StrandedForEver(t, c, rest);
      } else {
        StrandedExactly(t, rest);
        if k :| 0 <= k < |rest| && Overwrites(Run(t, rest[..k]), rest[k]) {
          assert Overwrites(Run(s, actions[..k + 1]), actions[k + 1]);
        }
        if k :| 0 <= k < |actions| && Overwrites(Run(s, actions[..k]), actions[k]) {
          assert k > 0;
          assert Overwrites(Run(t, rest[..k - 1]), rest[k - 1]);
        }
      }
    }
  }

  // ---- The rendezvous object -----------------------------------------------------------

  class Rendezvous<T, R> {
    var item: Item<T>
    var terminal: Terminal<R>
    var closedError: bool
    var waiter: Waiter
    var calls: nat
    var woken: set<nat>
    ghost var parked: set<nat>
    ghost var pushes: seq<PushRecord<T>>
    ghost var replies: seq<Reply<T, R>>
    var pushCount: nat

    ghost function View(): Slot<T, R>
      reads this
    {
      Slot(item, terminal, closedError, waiter, calls, parked, woken, pushes, replies)
    }

    ghost predicate Valid()
      reads this
    {
      Inv(View()) && pushCount == |pushes|
    }

    constructor ()
      ensures Valid() && View() == Initial<T, R>()
    {
      item, terminal, closedError, waiter := NoItem, Unset, false, NoWaiter;
      calls, woken, parked, pushes, replies, pushCount := 0, {}, {}, [], [], 0;
    }

    /** Returns whether the value entered the slot; otherwise the promise is rejected. */
    method Push(value: T) returns (admitted: bool)
      requires Valid()
      modifies this
      ensures Valid() && View() == Step(old(View()), DoPush(value))
      ensures admitted == (!old(closedError) && old(terminal).Unset? && old(item).NoItem?)
    {
      StepKeepsInv(View(), DoPush(value));
      hide Inv;
      admitted := false;
      if closedError {
        pushes := pushes + [Pushed(value, Rejected(StreamClosed))];
      } else if terminal.Set? {
        pushes := pushes + [Pushed(value, Rejected(StreamSettled))];
      } else if item.Item? {
        pushes := pushes + [Pushed(value, Rejected(BufferOccupied))];
      } else {
        item := Item(pushCount, value);
        pushes := pushes + [Pushed(value, Pending)];
        assert PushStep(old(View()), value) == Wake(View());
        WakeWaiter();
        admitted := true;
      }
      pushCount := pushCount + 1;
    }

    method Finish(result: R)
      requires Valid()
      modifies this
      ensures Valid() && View() == Step(old(View()), DoFinish(result))
    {
      StepKeepsInv(View(), DoFinish(result));
      hide Inv;
      if terminal.Set? {
        return;
      }
      terminal := Set(result);
      WakeWaiter();
    }

    method Close()
      requires Valid()
      modifies this
      ensures Valid() && View() == Step(old(View()), DoClose)
      ensures closedError && item.NoItem?
    {
      StepKeepsInv(View(), DoClose);
      hide Inv;
      closedError := true;
      var held := item;
      item := NoItem;
      if held.Item? {
        pushes := Mark(pushes, held.push, Rejected(StreamClosed));
      }
      WakeWaiter();
    }

    /** The synchronous first stretch of `next`; true when it already has its reply. */
    method Next() returns (call: nat, replied: bool)
      requires Valid()
      modifies this
      ensures Valid() && View() == Step(old(View()), DoNext)
      ensures call == old(calls) && replied == (old(item).Item? || old(terminal).Set?)
    {
      StepKeepsInv(View(), DoNext);
      hide Inv, Poll;
      call := calls;
      calls := calls + 1;
      replied := TakeOrPark(call);
    }

    /** The loop of a woken `next` runs again. */
    method Resume(call: nat) returns (replied: bool)
      requires Valid() && call in woken
      modifies this
      ensures Valid() && View() == Step(old(View()), DoResume(call))
      ensures replied == (old(item).Item? || old(terminal).Set?)
    {
      StepKeepsInv(View(), DoResume(call));
      hide Inv, Poll;
      woken := woken - {call};
      replied := TakeOrPark(call);
    }

    method TakeOrPark(call: nat) returns (replied: bool)
      modifies this
      ensures View() == Poll(old(View()), call) && pushCount == old(pushCount) && |pushes| == |old(pushes)|
      ensures replied == (old(item).Item? || old(terminal).Set?)
    {
      if item.NoItem? && terminal.Unset? {
        waiter := Waiter(call);
        parked := parked + {call};
        return false;
      }
      replied := true;
      if item.Item? {
        var taken := item;
        item := NoItem;
        pushes := Mark(pushes, taken.push, Accepted);
        replies := replies + [Event(taken.value)];
      } else {
        replies := replies + [Done(terminal.value)];
      }
    }

    method WakeWaiter()
      modifies this`waiter, this`parked, this`woken
      ensures View() == Wake(old(View()))
    {
      if waiter.Waiter? {
        parked := parked - {waiter.call};
        woken := woken + {waiter.call};
        waiter := NoWaiter;
      }
    }
  }
}
