/** Authorization stages of account logins (apps/daemon/src/application.ts:1051-1137). */
module AuthorizationStages {

  // The response a client sends to `accountRespond` reaches the login waiting in
  // `accountAdd`. Request ids may be reused once they are no longer pending; random ids
  // are fresh.

  /** The promise a stage waits on; the first settlement wins. */
  datatype Promise = Unsettled | Response(value: string) | Withdrawn | Expired

  /** Where the event that announces the stage stands. */
  datatype Announcement = Announcing | Announced | Refused

  /** One call of `readAuthorizationResponse`. `answered` says that a response was
      accepted for it, `expired` that its timer fired, `aborted` that a signal
      withdrew it, `finished` that its `finally` block has run. */
  datatype Stage = Stage(
    id: string,
    promise: Promise,
    announcement: Announcement,
    answered: bool,
    expired: bool,
    aborted: bool,
    finished: bool)

  /** A stage's number is its place in the history; `pending` holds the numbers of the
      stages that may still be answered. */
  datatype Registry = Registry(stages: seq<Stage>, pending: map<string, nat>)

  datatype Action =
    | Open(id: string)
    | AnnounceSettles(stage: nat, delivered: bool)
    | Respond(id: string, value: string)
    | Abort(stage: nat)
    | TimerFires(stage: nat)
    | Finish(stage: nat)

  const EMPTY := Registry([], map[])

  function Settle(p: Promise, outcome: Promise): Promise
  {
    if p.Unsettled? then outcome else p
  }

  predicate Collides(r: Registry, id: string)
  {
    id in r.pending
  }

  /** The `finally` block is due: the event was refused, or it was delivered and the
      promise is settled. */
  predicate FinishDue(r: Registry, k: nat)
  {
    && k < |r.stages| && !r.stages[k].finished
    && (r.stages[k].announcement.Refused? || (r.stages[k].announcement.Announced? && !r.stages[k].promise.Unsettled?))
  }

  function Step(r: Registry, a: Action): Registry
  {
    match a
    case Open(id) =>
      if Collides(r, id) then r
      else Registry(r.stages + [Stage(id, Unsettled, Announcing, false, false, false, false)], r.pending[id := |r.stages|])
    case AnnounceSettles(k, delivered) =>
      if k < |r.stages| && r.stages[k].announcement.Announcing?
      then r.(stages := r.stages[k := r.stages[k].(announcement := if delivered then Announced else Refused)])
      else r
    case Respond(id, value) =>
      if id !in r.pending || r.pending[id] >= |r.stages| then r
      else
        var k := r.pending[id];
        var stage := r.stages[k];
        Registry(r.stages[k := stage.(promise := Settle(stage.promise, Response(value)), answered := true)], r.pending - {id})
    case Abort(k) =>
      // The listeners stay until the `finally` block.
      if k >= |r.stages| || r.stages[k].finished then r
      else
        var stage := r.stages[k];
        r.(stages := r.stages[k := stage.(promise := Settle(stage.promise, Withdrawn), aborted := true)])
    case TimerFires(k) =>
      if k >= |r.stages| || r.stages[k].finished || r.stages[k].expired then r
      else
        var stage := r.stages[k];
        Registry(r.stages[k := stage.(promise := Settle(stage.promise, Expired), expired := true)], r.pending - {stage.id})
    case Finish(k) =>
      if !FinishDue(r, k) then r
      else Registry(r.stages[k := r.stages[k].(finished := true)], r.pending - {r.stages[k].id})
  }

  function Run(r: Registry, actions: seq<Action>): Registry
    decreases |actions|
  {
    if actions == [] then r else Run(Step(r, actions[0]), actions[1..])
  }

  // ---- The invariant -----------------------------------------------------------------------

  predicate Answerable(s: Stage)
  {
    !s.answered && !s.expired && !s.finished
  }

  ghost predicate StageInv(s: Stage)
  {
    && (s.promise.Unsettled? <==> !s.answered && !s.expired && !s.aborted)
    && (s.promise.Response? ==> s.answered)
    && (s.promise.Expired? ==> s.expired)
    && (s.promise.Withdrawn? ==> s.aborted)
    && (s.finished ==> s.announcement.Refused? || !s.promise.Unsettled?)
  }

  ghost predicate Inv(r: Registry)
  {
    && (forall k :: 0 <= k < |r.stages| ==> StageInv(r.stages[k]))
    && (forall id :: id in r.pending ==> r.pending[id] < |r.stages| && r.stages[r.pending[id]].id == id
                                         && Answerable(r.stages[r.pending[id]]))
  }

  /** The stage a response in this state is accepted for. */
  predicate AcceptsFor(r: Registry, id: string, k: nat)
  {
    id in r.pending && r.pending[id] == k
  }

  predicate TimerLive(r: Registry, k: nat)
  {
    k < |r.stages| && !r.stages[k].finished && !r.stages[k].expired
  }

  /** The action is the cleanup or the expiry of another stage under the same id. */
  predicate Forgets(r: Registry, a: Action, k: nat)
    requires k < |r.stages|
  {
    || (a.Finish? && FinishDue(r, a.stage) && a.stage != k && r.stages[a.stage].id == r.stages[k].id)
    || (a.TimerFires? && TimerLive(r, a.stage) && a.stage != k && r.stages[a.stage].id == r.stages[k].id)
  }

  lemma StageStep(r: Registry, a: Action, k: nat)
    requires Inv(r) && k < |Step(r, a).stages|
    ensures StageInv(Step(r, a).stages[k])
  {}

  lemma PendingStep(r: Registry, a: Action, id: string)
    requires Inv(r) && id in Step(r, a).pending
    ensures var t := Step(r, a);
            t.pending[id] < |t.stages| && t.stages[t.pending[id]].id == id && Answerable(t.stages[t.pending[id]])
  {
    hide StageInv;
  }

  lemma StepKeepsInv(r: Registry, a: Action)
    requires Inv(r)
    ensures Inv(Step(r, a))
  {
    var t := Step(r, a);
    forall k | 0 <= k < |t.stages| ensures StageInv(t.stages[k]) {
      StageStep(r, a, k);
    }
    forall id | id in t.pending
      ensures t.pending[id] < |t.stages| && t.stages[t.pending[id]].id == id && Answerable(t.stages[t.pending[id]])
    {
      PendingStep(r, a, id);
    }
  }

  /** A stage stays acceptable through a step unless the step answers, expires or
      finishes it, or forgets its id on behalf of another stage. */
  lemma AcceptanceStep(r: Registry, a: Action, id: string, k: nat)
    requires Inv(r)
    ensures var t := Step(r, a);
            && |r.stages| <= |t.stages| <= |r.stages| + 1
            && (k < |r.stages| ==>
                  && t.stages[k].id == r.stages[k].id
                  && (Answerable(t.stages[k]) ==> Answerable(r.stages[k]))
                  && (AcceptsFor(t, id, k) <==> AcceptsFor(r, id, k) && Answerable(t.stages[k]) && !Forgets(r, a, k)))
            && (k == |r.stages| && |t.stages| > |r.stages| ==>
                  Answerable(t.stages[k]) && (AcceptsFor(t, id, k) <==> t.stages[k].id == id))
  {
    hide StageInv;
  }

  lemma {:induction false} RunKeepsInv(r: Registry, actions: seq<Action>)
    requires Inv(r)
    ensures Inv(Run(r, actions))
    decreases |actions|
  {
    if actions != [] {
      StepKeepsInv(r, actions[0]);
      RunKeepsInv(Step(r, actions[0]), actions[1..]);
    }
  }

  lemma {:induction false} RunSnoc(r: Registry, actions: seq<Action>, a: Action)
    ensures Run(r, actions + [a]) == Step(Run(r, actions), a)
    decreases |actions|
  {
    hide Step;
    if actions == [] {
      assert [a][1..] == [] && [] + [a] == [a];
    } else {
      assert (actions + [a])[1..] == actions[1..] + [a];
      RunSnoc(Step(r, actions[0]), actions[1..], a);
    }
  }

  // ---- Whole runs --------------------------------------------------------------------------------

  /** Some step of the history forgot the stage on behalf of another one. */
  ghost predicate Forgotten(actions: seq<Action>, k: nat)
  {
    exists m :: 0 <= m < |actions| && k < |Run(EMPTY, actions[..m]).stages|
                && Forgets(Run(EMPTY, actions[..m]), actions[m], k)
  }

  lemma ForgottenSnoc(actions: seq<Action>, a: Action, k: nat)
    ensures Forgotten(actions + [a], k) <==>
            Forgotten(actions, k) || (k < |Run(EMPTY, actions).stages| && Forgets(Run(EMPTY, actions), a, k))
  {
    hide Run, Forgets;
    var all := actions + [a];
    assert all[..|actions|] == actions;
    forall m | 0 <= m < |actions| ensures all[..m] == actions[..m] && all[m] == actions[m] {}
    if m :| 0 <= m < |actions| && k < |Run(EMPTY, actions[..m]).stages| && Forgets(Run(EMPTY, actions[..m]), actions[m], k) {
      assert k < |Run(EMPTY, all[..m]).stages| && Forgets(Run(EMPTY, all[..m]), all[m], k);
    }
    if k < |Run(EMPTY, actions).stages| && Forgets(Run(EMPTY, actions), a, k) {
      assert all[|actions|] == a;
    }
  }

  lemma {:induction false} NotYetForgotten(actions: seq<Action>, k: nat)
    requires k >= |Run(EMPTY, actions).stages|
    ensures !Forgotten(actions, k)
    decreases |actions|
  {
    if actions != [] {
      var front, a := actions[..|actions| - 1], actions[|actions| - 1];
      assert actions == front + [a];
      RunSnoc(EMPTY, front, a);
      RunKeepsInv(EMPTY, front);
      AcceptanceStep(Run(EMPTY, front), a, "", k);
      NotYetForgotten(front, k);
      ForgottenSnoc(front, a, k);
      hide Run, Step, Forgotten, Forgets, StageInv;
    }
  }

  /** In every run a response is accepted exactly for a stage of its id that is neither
      answered nor expired nor finished, and was not forgotten on behalf of another. */
  lemma {:induction false} AcceptedExactly(actions: seq<Action>, id: string, k: nat)
    ensures var r := Run(EMPTY, actions);
            AcceptsFor(r, id, k) <==>
              k < |r.stages| && r.stages[k].id == id && Answerable(r.stages[k]) && !Forgotten(actions, k)
    decreases |actions|
  {
    if actions != [] {
      hide Run, Step, Forgotten, Forgets, StageInv;
      var front, a := actions[..|actions| - 1], actions[|actions| - 1];
      assert actions == front + [a];
      RunSnoc(EMPTY, front, a);
      RunKeepsInv(EMPTY, front);
      RunKeepsInv(EMPTY, actions);
      AcceptedExactly(front, id, k);
      ForgottenSnoc(front, a, k);
      AcceptanceStep(Run(EMPTY, front), a, id, k);
      if k >= |Run(EMPTY, front).stages| {
        NotYetForgotten(front, k);
      }
    }
  }

  /** No action of a history opens a stage under an id used before. */
  predicate FreshIds(actions: seq<Action>)
  {
    forall i, j :: 0 <= i < j < |actions| && actions[i].Open? && actions[j].Open? ==> actions[i].id != actions[j].id
  }

  ghost predicate IdsApart(r: Registry)
  {
    forall j, k :: 0 <= j < k < |r.stages| ==> r.stages[j].id != r.stages[k].id
  }

  /** Every stage was opened under its id. */
  lemma {:induction false} IdsWereOpened(actions: seq<Action>, k: nat)
    requires k < |Run(EMPTY, actions).stages|
    ensures exists o :: 0 <= o < |actions| && actions[o] == Open(Run(EMPTY, actions).stages[k].id)
    decreases |actions|
  {
    if actions != [] {
      var front, a := actions[..|actions| - 1], actions[|actions| - 1];
      assert actions == front + [a];
      RunSnoc(EMPTY, front, a);
      var r, t := Run(EMPTY, front), Run(EMPTY, actions);
      if k < |r.stages| {
        RunKeepsInv(EMPTY, front);
        AcceptanceStep(r, a, "", k);
        IdsWereOpened(front, k);
        var o :| 0 <= o < |front| && front[o] == Open(r.stages[k].id);
        assert actions[o] == Open(t.stages[k].id);
      } else {
        assert actions[|actions| - 1] == Open(t.stages[k].id);
      }
    }
  }

  lemma IdsStayApart(front: seq<Action>, a: Action)
    requires FreshIds(front + [a]) && IdsApart(Run(EMPTY, front))
    ensures IdsApart(Step(Run(EMPTY, front), a))
  {
    var r, all := Run(EMPTY, front), front + [a];
    forall j | 0 <= j < |r.stages| ensures a.Open? ==> r.stages[j].id != a.id {
      IdsWereOpened(front, j);
      var o :| 0 <= o < |front| && front[o] == Open(r.stages[j].id);
      assert all[o] == front[o] && all[|front|] == a;
    }
    hide Run;
  }

  /** With fresh ids no two stages share one, and so none is ever forgotten. */
  lemma {:induction false} FreshIdsAreNeverForgotten(actions: seq<Action>, k: nat)
    requires FreshIds(actions)
    ensures IdsApart(Run(EMPTY, actions)) && !Forgotten(actions, k)
    decreases |actions|
  {
    if actions != [] {
      var front, a := actions[..|actions| - 1], actions[|actions| - 1];
      assert actions == front + [a];
      RunSnoc(EMPTY, front, a);
      RunKeepsInv(EMPTY, front);
      FreshIdsAreNeverForgotten(front, k);
      ForgottenSnoc(front, a, k);
      IdsStayApart(front, a);
    }
  }

  lemma {:induction false} AnsweredStays(r: Registry, actions: seq<Action>, k: nat)
    requires k < |r.stages| && r.stages[k].answered
    ensures k < |Run(r, actions).stages| && Run(r, actions).stages[k].answered
    decreases |actions|
  {
    if actions != [] {
      AnsweredStays(Step(r, actions[0]), actions[1..], k);
    }
  }

  /** A stage is answered at most once: after one accepted response no response is ever
      accepted for it again. */
  lemma AcceptedAtMostOnce(actions: seq<Action>, later: seq<Action>, id: string, value: string, k: nat)
    requires AcceptsFor(Run(EMPTY, actions), id, k)
    ensures forall other :: !AcceptsFor(Run(Step(Run(EMPTY, actions), Respond(id, value)), later), other, k)
  {
    RunKeepsInv(EMPTY, actions);
    var t := Step(Run(EMPTY, actions), Respond(id, value));
    StepKeepsInv(Run(EMPTY, actions), Respond(id, value));
    RunKeepsInv(t, later);
    AnsweredStays(t, later, k);
  }

  /** What a settled stage will return never changes again. */
  lemma {:induction false} SettledForEver(r: Registry, actions: seq<Action>, k: nat)
    requires k < |r.stages| && !r.stages[k].promise.Unsettled?
    ensures k < |Run(r, actions).stages| && Run(r, actions).stages[k].promise == r.stages[k].promise
    decreases |actions|
  {
    if actions != [] {
      SettledForEver(Step(r, actions[0]), actions[1..], k);
    }
  }

  /** The login got this response: its event was delivered, and the promise it then
      awaited returned the value. */
  predicate Received(s: Stage, value: string)
  {
    s.finished && s.announcement.Announced? && s.promise == Response(value)
  }

  /** A login gets an accepted response exactly when no signal had withdrawn the stage
      before it came, and the stage's own event is delivered: otherwise the response is
      accepted and lost. */
  lemma AcceptedIsReceivedExactly(actions: seq<Action>, later: seq<Action>, id: string, value: string, k: nat)
    requires AcceptsFor(Run(EMPTY, actions), id, k)
    ensures var r := Run(EMPTY, actions); var t := Run(Step(r, Respond(id, value)), later);
            && k < |r.stages| && k < |t.stages|
            && (Received(t.stages[k], value) <==>
                t.stages[k].finished && !r.stages[k].aborted && t.stages[k].announcement.Announced?)
            && (r.stages[k].aborted ==> t.stages[k].promise == Withdrawn)
  {
    RunKeepsInv(EMPTY, actions);
    SettledForEver(Step(Run(EMPTY, actions), Respond(id, value)), later, k);
  }

  /** Every finished stage was refused its event or has its outcome and can no longer be
      answered; and once every stage is finished no id is left. */
  lemma NothingLeftBehind(actions: seq<Action>)
    ensures var r := Run(EMPTY, actions);
            && (forall k, id :: 0 <= k < |r.stages| && r.stages[k].finished ==>
                  !AcceptsFor(r, id, k) && (r.stages[k].announcement.Refused? || !r.stages[k].promise.Unsettled?))
            && ((forall k :: 0 <= k < |r.stages| ==> r.stages[k].finished) ==> r.pending == map[])
  {
    RunKeepsInv(EMPTY, actions);
    var r := Run(EMPTY, actions);
    assert forall id :: id in r.pending ==> !r.stages[r.pending[id]].finished;
    assert (forall k :: 0 <= k < |r.stages| ==> r.stages[k].finished) ==> r.pending.Keys == {};
  }

  /** A reused id can indeed cost the newer stage its entry. */
  lemma ReusedIdForgetsTheNewerStage(id: string, value: string)
    ensures var actions := [Open(id)] + [AnnounceSettles(0, true)] + [Respond(id, value)] + [Open(id)] + [Finish(0)];
            var r := Run(EMPTY, actions);
            |r.stages| == 2 && r.stages[1].id == id && Answerable(r.stages[1]) && id !in r.pending
  {
    var r1 := Step(EMPTY, Open(id));
    var r2 := Step(r1, AnnounceSettles(0, true));
    var r3 := Step(r2, Respond(id, value));
    var r4 := Step(r3, Open(id));
    assert |r3.stages| == 1 && r3.pending == map[] && r3.stages[0].answered && r3.stages[0].id == id;
    assert r4.pending == map[id := 1] && r4.stages[0] == r3.stages[0] && FinishDue(r4, 0);
    var r5 := Step(r4, Finish(0));
    assert |r5.stages| == 2 && r5.stages[1].id == id && Answerable(r5.stages[1]) && id !in r5.pending;
    hide Step;
    RunSnoc(EMPTY, [], Open(id));
    assert [] + [Open(id)] == [Open(id)];
    RunSnoc(EMPTY, [Open(id)], AnnounceSettles(0, true));
    RunSnoc(EMPTY, [Open(id)] + [AnnounceSettles(0, true)], Respond(id, value));
    RunSnoc(EMPTY, [Open(id)] + [AnnounceSettles(0, true)] + [Respond(id, value)], Open(id));
    RunSnoc(EMPTY, [Open(id)] + [AnnounceSettles(0, true)] + [Respond(id, value)] + [Open(id)], Finish(0));
  }

  // ---- What settles a stage ------------------------------------------------------------------------

  /** This action would settle the stage as x: the response accepted for it, a signal while
      its listeners are there, or its timer. */
  predicate SettlesAs(r: Registry, a: Action, k: nat, x: Promise)
  {
    && k < |r.stages| && !r.stages[k].finished
    && ((a.Respond? && AcceptsFor(r, a.id, k) && x == Response(a.value))
        || (a == Abort(k) && x == Withdrawn)
        || (a == TimerFires(k) && !r.stages[k].expired && x == Expired))
  }

  predicate SettledAs(r: Registry, k: nat, x: Promise)
  {
    k < |r.stages| && r.stages[k].promise == x
  }

  lemma SettledAsStep(r: Registry, a: Action, k: nat, x: Promise)
    requires Inv(r) && !x.Unsettled?
    ensures SettledAs(Step(r, a), k, x) <==> SettledAs(r, k, x) || (SettledAs(r, k, Unsettled) && SettlesAs(r, a, k, x))
  {
    hide StageInv;
  }

  /** In every run a stage's promise is settled as x exactly when the first action that
      settles it settles it so. */
  lemma {:induction false} SettledExactly(actions: seq<Action>, k: nat, x: Promise)
    requires !x.Unsettled?
    ensures SettledAs(Run(EMPTY, actions), k, x) <==>
            exists j :: 0 <= j < |actions| && SettledAs(Run(EMPTY, actions[..j]), k, Unsettled)
                        && SettlesAs(Run(EMPTY, actions[..j]), actions[j], k, x)
    decreases |actions|
  {
    if actions != [] {
      hide Step, SettledAs, SettlesAs;
      var n := |actions| - 1;
      var front, a := actions[..n], actions[n];
      assert actions == front + [a];
      RunSnoc(EMPTY, front, a);
      RunKeepsInv(EMPTY, front);
      SettledAsStep(Run(EMPTY, front), a, k, x);
      SettledExactly(front, k, x);
      forall j | 0 <= j < n ensures actions[..j] == front[..j] && actions[j] == front[j] {}
    }
  }

  /** The event that announces the stage has gone out, or was refused. */
  predicate AnnouncedAs(r: Registry, k: nat, x: Announcement)
  {
    k < |r.stages| && r.stages[k].announcement == x
  }

  lemma AnnouncedAsStep(r: Registry, a: Action, k: nat)
    ensures var t := Step(r, a);
            && (AnnouncedAs(t, k, Announced) <==> AnnouncedAs(r, k, Announced) || (AnnouncedAs(r, k, Announcing) && a == AnnounceSettles(k, true)))
            && (AnnouncedAs(t, k, Refused) <==> AnnouncedAs(r, k, Refused) || (AnnouncedAs(r, k, Announcing) && a == AnnounceSettles(k, false)))
  {}

  /** In every run a stage is announced exactly when its event was delivered, and refused
      exactly when it was refused, the first time its emission settled. */
  lemma {:induction false} AnnouncedExactly(actions: seq<Action>, k: nat, delivered: bool)
    ensures AnnouncedAs(Run(EMPTY, actions), k, if delivered then Announced else Refused) <==>
            exists j :: 0 <= j < |actions| && AnnouncedAs(Run(EMPTY, actions[..j]), k, Announcing)
                        && actions[j] == AnnounceSettles(k, delivered)
    decreases |actions|
  {
    if actions != [] {
      hide Step, AnnouncedAs;
      var n := |actions| - 1;
      var front, a := actions[..n], actions[n];
      assert actions == front + [a];
      RunSnoc(EMPTY, front, a);
      AnnouncedAsStep(Run(EMPTY, front), a, k);
      AnnouncedExactly(front, k, delivered);
      forall j | 0 <= j < n ensures actions[..j] == front[..j] && actions[j] == front[j] {}
    }
  }

  predicate HasFinished(r: Registry, k: nat)
  {
    k < |r.stages| && r.stages[k].finished
  }

  /** The `finally` block of a stage runs once its announcement was refused or its promise
      is settled, and it can then: no stage is left waiting for it. */
  lemma FinishExactly(r: Registry, k: nat)
    ensures HasFinished(Step(r, Finish(k)), k) <==>
            HasFinished(r, k) || AnnouncedAs(r, k, Refused) || (AnnouncedAs(r, k, Announced) && !SettledAs(r, k, Unsettled))
  {}

  // ---- The map of pending stages ---------------------------------------------------------------------

  class PendingResponses {
    var stages: seq<Stage>
    var pending: map<string, nat>

    ghost function View(): Registry
      reads this
    {
      Registry(stages, pending)
    }

    ghost predicate Valid()
      reads this
    {
      Inv(View())
    }

    constructor ()
      ensures Valid() && View() == EMPTY
    {
      stages, pending := [], map[];
    }

    /** Returns false where the original throws for a collision. */
    method OpenStage(id: string) returns (ok: bool)
      requires Valid()
      modifies this
      ensures Valid() && View() == Step(old(View()), Open(id))
      ensures ok <==> id !in old(pending)
    {
      StepKeepsInv(View(), Open(id));
      ok := id !in pending;
      if ok {
        pending := pending[id := |stages|];
        stages := stages + [Stage(id, Unsettled, Announcing, false, false, false, false)];
      }
    }

    /** `accountRespond`: false where the original throws that the request is no longer
        active. */
    method AccountRespond(id: string, value: string) returns (accepted: bool)
      requires Valid()
      modifies this
      ensures Valid() && View() == Step(old(View()), Respond(id, value))
      ensures accepted <==> exists k :: AcceptsFor(old(View()), id, k)
      ensures accepted ==> old(stages)[old(pending)[id]].id == id && Answerable(old(stages)[old(pending)[id]])
    {
      StepKeepsInv(View(), Respond(id, value));
      if id !in pending {
        return false;
      }
      var k := pending[id];
      assert AcceptsFor(View(), id, k) && Answerable(stages[k]);
      pending := pending - {id};
      stages := stages[k := stages[k].(promise := Settle(stages[k].promise, Response(value)), answered := true)];
      return true;
    }

    method ExpireStage(k: nat)
      requires Valid() && k < |stages| && !stages[k].finished && !stages[k].expired
      modifies this
      ensures Valid() && View() == Step(old(View()), TimerFires(k))
    {
      StepKeepsInv(View(), TimerFires(k));
      pending := pending - {stages[k].id};
      stages := stages[k := stages[k].(promise := Settle(stages[k].promise, Expired), expired := true)];
    }

    /** The `finally` block. */
    method FinishStage(k: nat)
      requires Valid() && FinishDue(View(), k)
      modifies this
      ensures Valid() && View() == Step(old(View()), Finish(k))
      ensures stages[k].id !in pending
    {
      StepKeepsInv(View(), Finish(k));
      pending := pending - {stages[k].id};
      stages := stages[k := stages[k].(finished := true)];
    }
  }
}
