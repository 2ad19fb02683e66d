/** Sharing of work in flight, one piece per runtime key: the selection ensurer
    (apps/cli/src/daemon/ensure.ts:81-130) and the lifecycle's starts
    (apps/cli/src/daemon/lifecycle.ts:640-651). */
module SingleFlight {

  /** One shared promise: `settled` when its work is over, `cleared` when the callback
      that forgets it has run. */
  datatype Flight = Flight(key: string, settled: bool, cleared: bool)

  /** A flight's number is its place in the history of flights; `answers` lists the
      flight each caller was given. */
  datatype Shared = Shared(inFlight: map<string, nat>, flights: seq<Flight>, answers: seq<nat>)

  datatype Action = Ask(key: string) | WorkSettles(flight: nat) | Clear(flight: nat)

  const INITIAL := Shared(map[], [], [])

  function AskStep(s: Shared, key: string): Shared
  {
    if key in s.inFlight then s.(answers := s.answers + [s.inFlight[key]])
    else Shared(s.inFlight[key := |s.flights|], s.flights + [Flight(key, false, false)], s.answers + [|s.flights|])
  }

  predicate ClearDue(s: Shared, f: nat)
  {
    f < |s.flights| && s.flights[f].settled && !s.flights[f].cleared
  }

  /** `settle`: forgets the flight if it is still the one filed under its key. */
  function ClearStep(s: Shared, f: nat): Shared
    requires ClearDue(s, f)
  {
    var key := s.flights[f].key;
    var t := s.(flights := s.flights[f := s.flights[f].(cleared := true)]);
    if key in s.inFlight && s.inFlight[key] == f then t.(inFlight := s.inFlight - {key}) else t
  }

  function Step(s: Shared, a: Action): Shared
  {
    match a
    case Ask(key) => AskStep(s, key)
    case WorkSettles(f) => if f < |s.flights| then s.(flights := s.flights[f := s.flights[f].(settled := true)]) else s
    case Clear(f) => if ClearDue(s, f) then ClearStep(s, f) else s
  }

  function Run(s: Shared, actions: seq<Action>): Shared
    decreases |actions|
  {
    if actions == [] then s else Run(Step(s, actions[0]), actions[1..])
  }

  /** Filed under a key is exactly the flight of that key not cleared yet. */
  ghost predicate Inv(s: Shared)
  {
    && (forall k :: k in s.inFlight ==> s.inFlight[k] < |s.flights| && s.flights[s.inFlight[k]].key == k
                                         && !s.flights[s.inFlight[k]].cleared)
    && (forall f :: 0 <= f < |s.flights| && !s.flights[f].cleared ==>
          s.flights[f].key in s.inFlight && s.inFlight[s.flights[f].key] == f)
    && (forall f, g :: 0 <= f < g < |s.flights| && s.flights[f].key == s.flights[g].key ==> s.flights[f].cleared)
    && (forall f :: 0 <= f < |s.flights| && s.flights[f].cleared ==> s.flights[f].settled)
  }

  lemma AskKeepsInv(s: Shared, key: string)
    requires Inv(s)
    ensures Inv(AskStep(s, key))
  {}

  lemma ClearKeepsInv(s: Shared, f: nat)
    requires Inv(s) && ClearDue(s, f)
    ensures Inv(ClearStep(s, f))
  {}

  lemma StepKeepsInv(s: Shared, a: Action)
    requires Inv(s)
    ensures Inv(Step(s, a))
  {
    match a
    case Ask(key) => AskKeepsInv(s, key);
    case WorkSettles(f) =>
    case Clear(f) =>
      if ClearDue(s, f) {
        ClearKeepsInv(s, f);
      }
  }

  lemma {:induction false} RunKeepsInv(s: Shared, actions: seq<Action>)
    requires Inv(s)
    ensures Inv(Run(s, actions))
    decreases |actions|
  {
    if actions != [] {
      StepKeepsInv(s, actions[0]);
      RunKeepsInv(Step(s, actions[0]), actions[1..]);
    }
  }

  /** In every run the work of a key never overlaps: when a later flight of a key
      exists, every earlier one is over and forgotten. */
  lemma FlightsNeverOverlap(actions: seq<Action>, f: nat, g: nat)
    requires var s := Run(INITIAL, actions); f < g < |s.flights| && s.flights[f].key == s.flights[g].key
    ensures var s := Run(INITIAL, actions); s.flights[f].settled && s.flights[f].cleared
  {
    RunKeepsInv(INITIAL, actions);
  }

  /** In every run a caller joins the flight of its key that is not forgotten, running
      or just settled, and starts one exactly when there is none. */
  lemma CallerJoinsExactly(actions: seq<Action>, key: string)
    ensures var s := Run(INITIAL, actions); var t := Step(s, Ask(key));
            && |t.answers| == |s.answers| + 1
            && var f := t.answers[|s.answers|];
               && f < |t.flights| && t.flights[f].key == key && !t.flights[f].cleared
               && (|t.flights| > |s.flights| <==>
                   forall g :: 0 <= g < |s.flights| && s.flights[g].key == key ==> s.flights[g].cleared)
               && (f < |s.flights| <==> |t.flights| == |s.flights|)
  {
    RunKeepsInv(INITIAL, actions);
    var s := Run(INITIAL, actions);
    if key in s.inFlight {
      assert s.flights[s.inFlight[key]].key == key;
    }
  }

  /** The identity check of the callback never fails, so a forgotten flight is always
      the one that was filed. */
  lemma IdentityCheckNeverFails(actions: seq<Action>, f: nat)
    requires ClearDue(Run(INITIAL, actions), f)
    ensures var s := Run(INITIAL, actions);
            s.flights[f].key in s.inFlight && s.inFlight[s.flights[f].key] == f
            && ClearStep(s, f).inFlight == s.inFlight - {s.flights[f].key}
  {
    RunKeepsInv(INITIAL, actions);
  }

  lemma {:induction false} RunSnoc(s: Shared, actions: seq<Action>, a: Action)
    ensures Run(s, actions + [a]) == Step(Run(s, actions), a)
    decreases |actions|
  {
    hide Step;
    if actions == [] {
      assert [a][1..] == [] && [] + [a] == [a];
    } else {
      assert (actions + [a])[1..] == actions[1..] + [a];
      RunSnoc(Step(s, actions[0]), actions[1..], a);
    }
  }

  /** After any run a flight is settled by the end of its work alone, and forgotten by the
      callback that follows, which frees its key for the next caller; asking adds at most
      the one flight. */
  lemma FlightExactly(actions: seq<Action>, a: Action, f: nat)
    requires f < |Run(INITIAL, actions).flights|
    ensures var s, t := Run(INITIAL, actions), Run(INITIAL, actions + [a]);
            && f < |t.flights| && t.flights[f].key == s.flights[f].key
            && (t.flights[f].settled <==> s.flights[f].settled || a == WorkSettles(f))
            && (t.flights[f].cleared <==> s.flights[f].cleared || (a == Clear(f) && s.flights[f].settled))
            && (a == Clear(f) && s.flights[f].settled && !s.flights[f].cleared ==> s.flights[f].key !in t.inFlight)
            && (a.Ask? || |t.flights| == |s.flights|)
  {
    RunSnoc(INITIAL, actions, a);
    RunKeepsInv(INITIAL, actions);
  }

  // ---- The closure ---------------------------------------------------------------------------

  class Ensurer {
    var inFlight: map<string, nat>
    var flights: seq<Flight>
    ghost var answers: seq<nat>

    ghost function View(): Shared
      reads this
    {
      Shared(inFlight, flights, answers)
    }

    ghost predicate Valid()
      reads this
    {
      Inv(View())
    }

    constructor ()
      ensures Valid() && View() == INITIAL
    {
      inFlight, flights, answers := map[], [], [];
    }

    /** The flight the caller waits for, and whether this call started it. */
    method AskFor(key: string) returns (pending: nat, started: bool)
      requires Valid()
      modifies this
      ensures Valid() && View() == Step(old(View()), Ask(key))
      ensures answers == old(answers) + [pending]
      ensures started <==> key !in old(inFlight)
    {
      StepKeepsInv(View(), Ask(key));
      started := key !in inFlight;
      if started {
        inFlight := inFlight[key := |flights|];
        flights := flights + [Flight(key, false, false)];
      }
      pending := inFlight[key];
      answers := answers + [pending];
    }

    method RunClear(flight: nat)
      requires Valid() && ClearDue(View(), flight)
      modifies this
      ensures Valid() && View() == Step(old(View()), Clear(flight))
    {
      StepKeepsInv(View(), Clear(flight));
      var key := flights[flight].key;
      flights := flights[flight := flights[flight].(cleared := true)];
      if key in inFlight && inFlight[key] == flight {
        inFlight := inFlight - {key};
      }
    }
  }
}
