/** Refreshing the catalog of agents: any number of callers, at most one of them
    discovering. Each step below is one the others may come between; a caller may
    be dropped wherever it awaits. */
module AgentRefresh {
  import opened Wrappers

  type Catalog = seq<string>

  // ----- One caller with the lock

  /** What the part under the lock leaves and returns. */
  function Refreshed(entries: Catalog, generation: nat, observed: nat, discovered: Catalog): (Catalog, nat, Catalog) {
    if generation != observed then (entries, generation, entries)
    else (discovered, generation + 1, discovered)
  }

  class AgentCatalog {
    var entries: Catalog
    var generation: nat

    constructor (initial: Catalog)
      ensures entries == initial && generation == 0
    {
      entries, generation := initial, 0;
    }

    method RefreshLocked(observed: nat, discovered: Catalog) returns (result: Catalog)
      modifies this
      ensures (entries, generation, result) == Refreshed(old(entries), old(generation), observed, discovered)
    {
      if generation != observed {
        return entries;
      }
      entries := discovered;
      generation := generation + 1;
      return discovered;
    }
  }

  // ----- All callers

  /** How far a call of `refresh` got. */
  datatype Call =
    | Waiting(observed: nat)
    | Locked(observed: nat)
    | Late(observed: nat)
    | Discovering(observed: nat)
    | Discovered(observed: nat, found: Catalog)
    | Written(observed: nat, found: Catalog)
    | Counted(observed: nat, found: Catalog)
    | Done(observed: nat, result: Catalog)
    | Dropped(observed: nat)

  /** An installation: what was installed, by a caller that had observed what. */
  datatype Install = Install(observed: nat, catalog: Catalog)

  /** The last three are history: the installations, and by the generation that
      was observed, the discoveries started and those abandoned, in order. */
  datatype State = State(
    entries: Catalog, generation: nat, lock: Option<nat>, calls: map<nat, Call>, initial: Catalog,
    log: seq<Install>, started: seq<nat>, abandoned: seq<nat>)

  function Initial(entries: Catalog): State {
    State(entries, 0, None, map[], entries, [], [], [])
  }

  datatype Action =
    | Enter(caller: nat)
    | Acquire(caller: nat)
    | Check(caller: nat)
    | Finish(caller: nat, found: Catalog)
    | Write(caller: nat)
    | Count(caller: nat)
    | Return(caller: nat)
    | Drop(caller: nat)

  predicate Enabled(s: State, a: Action) {
    match a
    case Enter(c) => c !in s.calls
    case Acquire(c) => c in s.calls && s.calls[c].Waiting? && s.lock == None
    case Check(c) => c in s.calls && s.calls[c].Locked?
    case Finish(c, _) => c in s.calls && s.calls[c].Discovering?
    case Write(c) => c in s.calls && s.calls[c].Discovered?
    case Count(c) => c in s.calls && s.calls[c].Written?
    case Return(c) => c in s.calls && (s.calls[c].Counted? || s.calls[c].Late?)
    case Drop(c) => c in s.calls && (s.calls[c].Waiting? || s.calls[c].Discovering?)
  }

  function Next(s: State, a: Action): State
    requires Enabled(s, a)
  {
    var c := a.caller;
    if a.Enter? then s.(calls := s.calls[c := Waiting(s.generation)])
    else
      var call := s.calls[c];
      match a
      case Acquire(_) => s.(lock := Some(c), calls := s.calls[c := Locked(call.observed)])
      case Check(_) =>
        if s.generation != call.observed then s.(calls := s.calls[c := Late(call.observed)])
        else s.(calls := s.calls[c := Discovering(call.observed)], started := s.started + [call.observed])
      case Finish(_, found) => s.(calls := s.calls[c := Discovered(call.observed, found)])
      case Write(_) => s.(entries := call.found, calls := s.calls[c := Written(call.observed, call.found)])
      case Count(_) =>
        s.(generation := s.generation + 1, calls := s.calls[c := Counted(call.observed, call.found)],
           log := s.log + [Install(call.observed, call.found)])
      case Return(_) =>
        s.(lock := None, calls := s.calls[c := Done(call.observed, if call.Late? then s.entries else call.found)])
      case Drop(_) =>
        s.(lock := if call.Discovering? then None else s.lock, calls := s.calls[c := Dropped(call.observed)],
           abandoned := if call.Discovering? then s.abandoned + [call.observed] else s.abandoned)
  }

  function Run(s: State, actions: seq<Action>): Option<State> {
    if actions == [] then Some(s)
    else
      var before := Run(s, actions[..|actions| - 1]);
      var last := actions[|actions| - 1];
      if before.None? || !Enabled(before.value, last) then None else Some(Next(before.value, last))
  }

  // ----- What every step keeps

  /** The call has the lock. */
  predicate Holds(call: Call) {
    call.Locked? || call.Late? || call.Discovering? || call.Discovered? || call.Written? || call.Counted?
  }

  /** The call may still lead to an installation of its own. */
  predicate Installing(call: Call) {
    call.Discovering? || call.Discovered? || call.Written?
  }

  function Latest(s: State): Catalog {
    if s.log == [] then s.initial else s.log[|s.log| - 1].catalog
  }

  /** A catalog whose installation raised the generation above the observed one. */
  predicate Fresh(log: seq<Install>, observed: nat, catalog: Catalog) {
    exists i | observed <= i < |log| :: log[i].catalog == catalog
  }

  predicate CallValid(s: State, call: Call) {
    && (call.Waiting? || call.Locked? ==> call.observed <= s.generation)
    && (call.Late? ==> call.observed < s.generation)
    && (Installing(call) ==> call.observed == s.generation)
    && (call.Written? ==> s.entries == call.found)
    && (call.Counted? ==> call.observed < s.generation && s.entries == call.found)
    && (Holds(call) && !call.Written? ==> s.entries == Latest(s))
    && (call.Done? ==> Fresh(s.log, call.observed, call.result))
  }

  predicate Valid(s: State) {
    && s.generation == |s.log|
    && (forall i | 0 <= i < |s.log| :: s.log[i].observed == i)
    && (if s.lock.None? then s.entries == Latest(s) else s.lock.value in s.calls)
    && (forall c | c in s.calls :: Holds(s.calls[c]) <==> s.lock == Some(c))
    && (forall c | c in s.calls :: CallValid(s, s.calls[c]))
  }

  lemma FreshGrows(log: seq<Install>, install: Install, observed: nat, catalog: Catalog)
    requires Fresh(log, observed, catalog)
    ensures Fresh(log + [install], observed, catalog)
  {
    var i :| observed <= i < |log| && log[i].catalog == catalog;
    assert (log + [install])[i] == log[i];
  }

  lemma NewestIsFresh(s: State, observed: nat)
    requires observed < |s.log|
    ensures Fresh(s.log, observed, Latest(s))
  {
    assert s.log[|s.log| - 1].catalog == Latest(s);
  }

  lemma NextKeeps(s: State, a: Action)
    requires Valid(s) && Enabled(s, a)
    ensures Valid(Next(s, a))
  {
    var t := Next(s, a);
    forall c | c in t.calls
      ensures CallValid(t, t.calls[c])
      ensures Holds(t.calls[c]) <==> t.lock == Some(c)
    {
      if !a.Enter? && c == a.caller {
        OwnCallKeeps(s, a);
      } else {
        OtherCallKeeps(s, a, c);
      }
    }
    hide CallValid, Holds, Fresh;
    if !a.Enter? {
      assert CallValid(s, s.calls[a.caller]);
      LatestKept(s, a);
    }
    hide Latest;
  }

  /** What is installed last is what is shown, but between the two writes. */
  lemma LatestKept(s: State, a: Action)
    requires Valid(s) && Enabled(s, a) && !a.Enter?
    ensures Next(s, a).lock.None? ==> Next(s, a).entries == Latest(Next(s, a))
    ensures Next(s, a).lock.Some? ==> Next(s, a).lock.value in Next(s, a).calls
  {
    hide Fresh;
    assert CallValid(s, s.calls[a.caller]);
  }

  lemma OwnCallKeeps(s: State, a: Action)
    requires Valid(s) && Enabled(s, a) && !a.Enter?
    ensures var t := Next(s, a);
            CallValid(t, t.calls[a.caller]) && (Holds(t.calls[a.caller]) <==> t.lock == Some(a.caller))
  {
    assert CallValid(s, s.calls[a.caller]);
    if a.Return? {
      NewestIsFresh(s, s.calls[a.caller].observed);
    }
    hide Fresh;
  }

  lemma OtherCallKeeps(s: State, a: Action, c: nat)
    requires Valid(s) && Enabled(s, a) && c in Next(s, a).calls && (a.Enter? || c != a.caller)
    ensures var t := Next(s, a); CallValid(t, t.calls[c]) && (Holds(t.calls[c]) <==> t.lock == Some(c))
  {
    if c in s.calls && s.calls[c].Done? && a.Count? {
      var install := Install(s.calls[a.caller].observed, s.calls[a.caller].found);
      FreshGrows(s.log, install, s.calls[c].observed, s.calls[c].result);
    }
    hide Fresh;
  }

  lemma {:induction false} RunKeeps(initial: Catalog, actions: seq<Action>)
    ensures Run(Initial(initial), actions).Some? ==> Valid(Run(Initial(initial), actions).value)
  {
    if actions != [] {
      var before := Run(Initial(initial), actions[..|actions| - 1]);
      var last := actions[|actions| - 1];
      RunKeeps(initial, actions[..|actions| - 1]);
      hide Valid, Next, Enabled;
      if before.Some? && Enabled(before.value, last) {
        NextKeeps(before.value, last);
      }
    }
  }

  // ----- Single flight

  /** Over all interleavings: at most one call is past the check at any time. */
  lemma OneDiscovers(initial: Catalog, actions: seq<Action>, c: nat, d: nat)
    requires Run(Initial(initial), actions).Some?
    requires var s := Run(Initial(initial), actions).value;
             c in s.calls && d in s.calls && Installing(s.calls[c]) && Installing(s.calls[d])
    ensures c == d
  {
    RunKeeps(initial, actions);
    var s := Run(Initial(initial), actions).value;
    hide Run, CallValid;
    assert s.lock == Some(c) && s.lock == Some(d);
  }

  /** Every call that returns, returns a catalog installed after it began. */
  lemma ReturnsFresh(initial: Catalog, actions: seq<Action>, c: nat)
    requires Run(Initial(initial), actions).Some?
    requires var s := Run(Initial(initial), actions).value; c in s.calls && s.calls[c].Done?
    ensures var s := Run(Initial(initial), actions).value; Fresh(s.log, s.calls[c].observed, s.calls[c].result)
  {
    RunKeeps(initial, actions);
    hide Run, Fresh;
  }

  function InstallsOf(log: seq<Install>, observed: nat): nat {
    if log == [] then 0
    else InstallsOf(log[..|log| - 1], observed) + if log[|log| - 1].observed == observed then 1 else 0
  }

  lemma {:induction false} InstallsAreCounted(log: seq<Install>, observed: nat)
    requires forall i | 0 <= i < |log| :: log[i].observed == i
    ensures InstallsOf(log, observed) == if observed < |log| then 1 else 0
  {
    if log != [] {
      InstallsAreCounted(log[..|log| - 1], observed);
    }
  }

  /** The calls that observed one generation cause one installation between them:
      never more, none is under way once there is one, and there is one as soon as
      any of them has returned. */
  lemma OneInstallPerGeneration(initial: Catalog, actions: seq<Action>, c: nat)
    requires Run(Initial(initial), actions).Some?
    requires c in Run(Initial(initial), actions).value.calls
    ensures var s := Run(Initial(initial), actions).value;
            var observed := s.calls[c].observed;
            && InstallsOf(s.log, observed) <= 1
            && (Installing(s.calls[c]) ==> InstallsOf(s.log, observed) == 0)
            && (s.calls[c].Done? ==> InstallsOf(s.log, observed) == 1)
  {
    RunKeeps(initial, actions);
    hide Run, InstallsOf;
    var s := Run(Initial(initial), actions).value;
    InstallsAreCounted(s.log, s.calls[c].observed);
  }

  function Times(observations: seq<nat>, observed: nat): nat {
    if observations == [] then 0
    else Times(observations[..|observations| - 1], observed)
         + if observations[|observations| - 1] == observed then 1 else 0
  }

  /** Whether a discovery for that generation is under way; there is only one caller
      it could be of. */
  function InFlight(s: State, observed: nat): nat {
    if s.lock.Some? && s.lock.value in s.calls && Installing(s.calls[s.lock.value])
       && s.calls[s.lock.value].observed == observed then 1 else 0
  }

  /** Every discovery started ended in an installation, was abandoned, or goes on. */
  predicate Balanced(s: State, observed: nat) {
    Times(s.started, observed)
    == InstallsOf(s.log, observed) + Times(s.abandoned, observed) + InFlight(s, observed)
  }

  lemma TimesSnoc(observations: seq<nat>, last: nat, observed: nat)
    ensures Times(observations + [last], observed) == Times(observations, observed) + if last == observed then 1 else 0
  {
    assert (observations + [last])[..|observations|] == observations;
  }

  lemma InstallsSnoc(log: seq<Install>, last: Install, observed: nat)
    ensures InstallsOf(log + [last], observed)
         == InstallsOf(log, observed) + if last.observed == observed then 1 else 0
  {
    assert (log + [last])[..|log|] == log;
  }

  /** Steps that start, install or abandon nothing leave what is under way. */
  lemma QuietStep(s: State, a: Action, observed: nat)
    requires Valid(s) && Enabled(s, a)
    requires var t := Next(s, a); t.log == s.log && t.started == s.started && t.abandoned == s.abandoned
    ensures InFlight(Next(s, a), observed) == InFlight(s, observed)
  {
    hide CallValid, Latest;
    assert forall c | c in s.calls :: Holds(s.calls[c]) <==> s.lock == Some(c);
  }

  /** The others are those of the caller that has the lock. */
  lemma LoudStep(s: State, a: Action, observed: nat)
    requires Valid(s) && Enabled(s, a) && (a.Check? || a.Count? || a.Drop?)
    requires a.Check? ==> s.generation == s.calls[a.caller].observed
    requires a.Drop? ==> s.calls[a.caller].Discovering?
    ensures var own := if s.calls[a.caller].observed == observed then 1 else 0;
            InFlight(s, observed) == (if a.Check? then 0 else own)
            && InFlight(Next(s, a), observed) == (if a.Check? then own else 0)
  {
    hide CallValid, Latest;
    assert s.lock == Some(a.caller);
  }

  lemma StartBalances(s: State, a: Action, observed: nat)
    requires Valid(s) && Enabled(s, a) && Balanced(s, observed)
    requires a.Check? && s.generation == s.calls[a.caller].observed
    ensures Balanced(Next(s, a), observed)
  {
    LoudStep(s, a, observed);
    TimesSnoc(s.started, s.calls[a.caller].observed, observed);
    hide Valid, InFlight, Times, InstallsOf, CallValid;
  }

  lemma InstallBalances(s: State, a: Action, observed: nat)
    requires Valid(s) && Enabled(s, a) && Balanced(s, observed) && a.Count?
    ensures Balanced(Next(s, a), observed)
  {
    var call := s.calls[a.caller];
    LoudStep(s, a, observed);
    InstallsSnoc(s.log, Install(call.observed, call.found), observed);
    hide Valid, InFlight, Times, InstallsOf, CallValid;
  }

  lemma AbandonBalances(s: State, a: Action, observed: nat)
    requires Valid(s) && Enabled(s, a) && Balanced(s, observed) && a.Drop? && s.calls[a.caller].Discovering?
    ensures Balanced(Next(s, a), observed)
  {
    LoudStep(s, a, observed);
    TimesSnoc(s.abandoned, s.calls[a.caller].observed, observed);
    hide Valid, InFlight, Times, InstallsOf, CallValid;
  }

  lemma NextBalances(s: State, a: Action, observed: nat)
    requires Valid(s) && Enabled(s, a) && Balanced(s, observed)
    ensures Balanced(Next(s, a), observed)
  {
    hide Valid, InFlight, Times, InstallsOf;
    if a.Check? && s.generation == s.calls[a.caller].observed {
      hide Next, Balanced;
      StartBalances(s, a, observed);
    } else if a.Count? {
      hide Next, Balanced;
      InstallBalances(s, a, observed);
    } else if a.Drop? && s.calls[a.caller].Discovering? {
      hide Next, Balanced;
      AbandonBalances(s, a, observed);
    } else {
      QuietStep(s, a, observed);
    }
  }

  lemma {:induction false} RunBalances(initial: Catalog, actions: seq<Action>, observed: nat)
    ensures Run(Initial(initial), actions).Some? ==> Balanced(Run(Initial(initial), actions).value, observed)
  {
    if actions != [] {
      var before := Run(Initial(initial), actions[..|actions| - 1]);
      var last := actions[|actions| - 1];
      RunBalances(initial, actions[..|actions| - 1], observed);
      RunKeeps(initial, actions[..|actions| - 1]);
      hide Valid, Next, Enabled, Balanced;
      if before.Some? && Enabled(before.value, last) {
        NextBalances(before.value, last, observed);
      }
    }
  }

  lemma {:induction false} NothingAbandoned(s: State, actions: seq<Action>)
    requires forall i | 0 <= i < |actions| :: !actions[i].Drop?
    ensures Run(s, actions).Some? ==> Run(s, actions).value.abandoned == s.abandoned
  {
    hide Enabled;
    if actions != [] {
      NothingAbandoned(s, actions[..|actions| - 1]);
    }
  }

  /** Over any run, the calls that observed one generation start at most one
      discovery that is not abandoned, and exactly one if any of them discovers or
      has returned. In a run without drops none is abandoned. */
  lemma OneDiscoveryPerGeneration(initial: Catalog, actions: seq<Action>, c: nat)
    requires Run(Initial(initial), actions).Some?
    requires c in Run(Initial(initial), actions).value.calls
    ensures var s := Run(Initial(initial), actions).value;
            var observed := s.calls[c].observed;
            var kept := Times(s.started, observed) - Times(s.abandoned, observed);
            && 0 <= kept <= 1
            && (s.calls[c].Done? || Installing(s.calls[c]) ==> kept == 1)
            && ((forall i | 0 <= i < |actions| :: !actions[i].Drop?) ==> kept == Times(s.started, observed))
  {
    var s := Run(Initial(initial), actions).value;
    var observed := s.calls[c].observed;
    RunBalances(initial, actions, observed);
    RunKeeps(initial, actions);
    if forall i | 0 <= i < |actions| :: !actions[i].Drop? {
      NothingAbandoned(Initial(initial), actions);
    }
    InFlightIsNew(s, c);
    hide Run, InstallsOf, InFlight, CallValid;
    InstallsAreCounted(s.log, observed);
  }

  lemma InFlightIsNew(s: State, c: nat)
    requires Valid(s) && c in s.calls
    ensures InFlight(s, s.calls[c].observed) == 1 ==> s.calls[c].observed == s.generation
    ensures Installing(s.calls[c]) ==> InFlight(s, s.calls[c].observed) == 1
    ensures s.calls[c].Done? ==> s.calls[c].observed < s.generation
  {
  }

  /** No call is stuck: while one has not ended, some call can take a step on its
      own way to the end. */
  lemma SomeoneMoves(initial: Catalog, actions: seq<Action>, c: nat) returns (a: Action)
    requires Run(Initial(initial), actions).Some?
    requires var s := Run(Initial(initial), actions).value;
             c in s.calls && !s.calls[c].Done? && !s.calls[c].Dropped?
    ensures Enabled(Run(Initial(initial), actions).value, a) && !a.Enter? && !a.Drop?
  {
    RunKeeps(initial, actions);
    hide Run, CallValid;
    var s := Run(Initial(initial), actions).value;
    if s.lock.None? {
      a := Acquire(c);
    } else {
      var holder := s.lock.value;
      match s.calls[holder] {
        case Locked(_) => a := Check(holder);
        case Discovering(_) => a := Finish(holder, []);
        case Discovered(_, _) => a := Write(holder);
        case Written(_, _) => a := Count(holder);
        case _ => a := Return(holder);
      }
    }
  }

  /** With nothing in between, the steps of a caller that has the lock are the
      method on the catalog. */
  lemma LockedStepsAreTheMethod(s: State, c: nat, found: Catalog)
    requires Valid(s) && c in s.calls && s.calls[c].Locked?
    ensures var observed := s.calls[c].observed;
            var steps := if s.generation != observed then [Check(c), Return(c)]
                         else [Check(c), Finish(c, found), Write(c), Count(c), Return(c)];
            var end := Run(s, steps);
            end.Some? && c in end.value.calls && end.value.calls[c].Done? && end.value.lock == None
            && (end.value.entries, end.value.generation, end.value.calls[c].result)
               == Refreshed(s.entries, s.generation, observed, found)
  {
    var checked := Next(s, Check(c));
    RunSnoc(s, [], Check(c), s);
    if s.generation != s.calls[c].observed {
      RunSnoc(s, [Check(c)], Return(c), checked);
      assert [Check(c)] + [Return(c)] == [Check(c), Return(c)];
      hide Run, Valid;
    } else {
      hide Run, Valid;
      assert Run(s, [Check(c)]) == Some(checked);
      DiscoverySteps(s, c, checked, found);
    }
  }

  lemma DiscoverySteps(s: State, c: nat, checked: State, found: Catalog)
    requires Run(s, [Check(c)]) == Some(checked) && c in checked.calls && checked.calls[c].Discovering?
    ensures var end := Run(s, [Check(c), Finish(c, found), Write(c), Count(c), Return(c)]);
            end.Some? && c in end.value.calls && end.value.calls[c] == Done(checked.calls[c].observed, found)
            && end.value.lock == None && end.value.entries == found
            && end.value.generation == checked.generation + 1
  {
    hide Run;
    var finished := Next(checked, Finish(c, found));
    var written := Next(finished, Write(c));
    var counted := Next(written, Count(c));
    var two, three := [Check(c), Finish(c, found)], [Check(c), Finish(c, found), Write(c)];
    var four := [Check(c), Finish(c, found), Write(c), Count(c)];
    RunSnoc(s, [Check(c)], Finish(c, found), checked);
    assert [Check(c)] + [Finish(c, found)] == two;
    RunSnoc(s, two, Write(c), finished);
    assert two + [Write(c)] == three;
    RunSnoc(s, three, Count(c), written);
    assert three + [Count(c)] == four;
    RunSnoc(s, four, Return(c), counted);
    assert four + [Return(c)] == [Check(c), Finish(c, found), Write(c), Count(c), Return(c)];
  }

  lemma RunSnoc(s: State, actions: seq<Action>, a: Action, t: State)
    requires Run(s, actions) == Some(t) && Enabled(t, a)
    ensures Run(s, actions + [a]) == Some(Next(t, a))
  {
    hide Enabled, Next;
    assert (actions + [a])[..|actions|] == actions;
  }
}
