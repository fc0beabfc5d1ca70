/**
 Whole connections by their steps alone: when they have succeeded, how many tries they have used up, and
 which step ends them.
 */
module AuthRuns {
  import opened Bytes
  import opened AuthLists
  import opened Auth

  // ---- What counts, by the steps ----

  /** An attempt that authenticated the user, and not root against its configuration. */
  predicate Grants(step: Step) { step.Done? && step.ev.authenticated && !step.ev.rootDenied }

  function GrantedBy(step: Step): seq<Result> { if Grants(step) then [step.ev.result] else [] }

  /** The results of the attempts that authenticated. */
  function Granted(steps: seq<Step>): seq<Result> {
    if steps == [] then [] else GrantedBy(steps[0]) + Granted(steps[1..])
  }

  /** An attempt that counts unless it succeeds: neither postponed, nor the server's fault, nor an initial "none". */
  predicate Counts(step: Step, attempt: nat) {
    step.Done? && !step.ev.postponed && !step.ev.serverFault && (attempt > 1 || step.ev.result.method_ != "none")
  }

  /** How many of these attempts count, the first of them being number `attempt`. */
  function Tries(steps: seq<Step>, attempt: nat): nat {
    if steps == [] then 0
    else
      (if Counts(steps[0], attempt) then 1 else 0)
      + Tries(steps[1..], if steps[0].Request? then attempt + 1 else attempt)
  }

  /** A run without its last step, if that brought success. */
  function Unsuccessful(steps: seq<Step>, success: bool): seq<Step> {
    if success && steps != [] then steps[..|steps| - 1] else steps
  }

  // ---- Success ----

  lemma FinishGrants(s: State, ev: Finish, cfg: Config)
    requires !s.success && UserauthFinish(s, ev, cfg).Some?
    ensures var t := UserauthFinish(s, ev, cfg).value;
      && t.history == s.history + Granted([Done(ev)]) && t.attempt == s.attempt
      && (t.success ==> Grants(Done(ev)) && t.failures == s.failures)
      && (cfg.lists == [] ==> (t.success <==> Grants(Done(ev))))
      && (!t.success ==> t.failures == s.failures + if Counts(Done(ev), s.attempt) then 1 else 0)
      && (t.failures == s.failures || t.failures < cfg.maxTries)
  {
    hide UpdateLists;
    assert [Done(ev)][1..] == [] && Granted([]) == [];
    assert [ev.result] + [] == [ev.result] && s.history + [] == s.history;
  }

  /** How the end of a run is accounted for by its steps. */
  ghost predicate Accounts(s: State, steps: seq<Step>, t: State, cfg: Config) {
    && t.history == s.history + Granted(steps)
    && (t.success ==> steps != [] && Grants(steps[|steps| - 1]))
    && (cfg.lists == [] ==> (t.success <==> exists step :: step in steps && Grants(step)))
    && t.failures == s.failures + Tries(Unsuccessful(steps, t.success), s.attempt)
    && (t.failures == s.failures || t.failures < cfg.maxTries)
  }

  lemma NothingAccounted(s: State, cfg: Config)
    requires !s.success
    ensures Accounts(s, [], s, cfg)
  {
    assert s.history + [] == s.history;
  }

  /** One step, which did not end the run or was its last. */
  lemma StepAccounted(s: State, step: Step, cfg: Config)
    requires !s.success && Take(s, step, cfg).Some?
    ensures var t := Take(s, step, cfg).value;
      && Accounts(s, [step], t, cfg) && t.attempt == (if step.Request? then s.attempt + 1 else s.attempt)
  {
    hide UserauthFinish, Grants, Counts;
    RequestGrantsNothing(step, s.attempt);
    GrantedOne(step);
    assert [step][1..] == [] && [step][..0] == [] && step in [step];
    assert forall other :: other in [step] ==> other == step;
    if step.Done? {
      FinishGrants(s, step.ev, cfg);
      assert Done(step.ev) == step;
    } else {
      assert GrantedBy(step) == [] && s.history + [] == s.history;
    }
    var t := Take(s, step, cfg).value;
    assert t.history == s.history + Granted([step]);
    assert t.failures == s.failures + Tries(Unsuccessful([step], t.success), s.attempt);
  }

  /** The first step and the rest of the run. */
  lemma RunAccounted(s: State, t: State, u: State, steps: seq<Step>, cfg: Config)
    requires steps != [] && Accounts(s, [steps[0]], t, cfg) && Accounts(t, steps[1..], u, cfg) && !t.success
    requires t.attempt == if steps[0].Request? then s.attempt + 1 else s.attempt
    ensures Accounts(s, steps, u, cfg)
  {
    hide Grants, Counts, Granted;
    Granting(s.history, steps);
    TriesFirst(steps, u.success, s.attempt);
    assert forall step :: step in steps <==> step == steps[0] || step in steps[1..];
    assert [steps[0]][0] in [steps[0]];
  }

  lemma TriesFirst(steps: seq<Step>, success: bool, attempt: nat)
    requires steps != [] && (success ==> steps[1..] != [])
    ensures Tries(Unsuccessful(steps, success), attempt)
            == Tries(Unsuccessful([steps[0]], false), attempt)
               + Tries(Unsuccessful(steps[1..], success), if steps[0].Request? then attempt + 1 else attempt)
  {
    hide Counts;
    assert [steps[0]][1..] == [];
    UnsuccessfulTail(steps);
  }

  lemma {:induction false} RunGrants(s: State, steps: seq<Step>, cfg: Config)
    requires !s.success && RunFrom(s, steps, cfg).Some?
    ensures Accounts(s, steps, RunFrom(s, steps, cfg).value, cfg)
    decreases |steps|
  {
    hide Take, Accounts;
    if steps == [] {
      NothingAccounted(s, cfg);
    } else {
      var t := Take(s, steps[0], cfg).value;
      StepAccounted(s, steps[0], cfg);
      if t.success {
        assert steps == [steps[0]];
      } else {
        RunGrants(t, steps[1..], cfg);
        RunAccounted(s, t, RunFrom(s, steps, cfg).value, steps, cfg);
      }
    }
  }

  lemma RequestGrantsNothing(step: Step, attempt: nat)
    ensures step.Request? ==> !Grants(step) && !Counts(step, attempt)
  {
  }

  lemma UnsuccessfulTail(steps: seq<Step>)
    requires steps != []
    ensures |steps| > 1 ==>
      steps[..|steps| - 1][0] == steps[0] && steps[..|steps| - 1][1..] == steps[1..][..|steps| - 2]
  {
  }

  lemma GrantedOne(step: Step)
    ensures Granted([step]) == GrantedBy(step)
  {
    hide GrantedBy;
    assert [step][1..] == [] && GrantedBy(step) + [] == GrantedBy(step);
  }

  lemma GrantedFirst(steps: seq<Step>)
    requires steps != []
    ensures Granted(steps) == Granted([steps[0]]) + Granted(steps[1..])
  {
    GrantedOne(steps[0]);
    hide GrantedBy;
  }

  lemma Granting(history: seq<Result>, steps: seq<Step>)
    requires steps != []
    ensures history + Granted(steps) == history + Granted([steps[0]]) + Granted(steps[1..])
  {
    hide Granted;
    GrantedFirst(steps);
  }

  /** The results a connection goes by are those of its steps that authenticated. */
  lemma HistoryIsGranted(cfg: Config, steps: seq<Step>)
    requires Connection(cfg, steps).Some?
    ensures Connection(cfg, steps).value.history == Granted(steps)
  {
    RunGrants(Setup(cfg).value, steps, cfg);
  }

  /** However a connection is configured, only a step that authenticated makes it succeed. */
  lemma SuccessIsGranted(cfg: Config, steps: seq<Step>)
    requires Connection(cfg, steps).Some? && Connection(cfg, steps).value.success
    ensures steps != [] && Grants(steps[|steps| - 1])
  {
    RunGrants(Setup(cfg).value, steps, cfg);
  }

  /** With no lists configured, a connection has succeeded exactly when some step authenticated. */
  lemma UnlistedSuccessExactly(cfg: Config, steps: seq<Step>)
    requires cfg.lists == [] && Connection(cfg, steps).Some?
    ensures Connection(cfg, steps).value.success
      <==> exists step :: step in steps && step.Done? && step.ev.authenticated && !step.ev.rootDenied
  {
    RunGrants(Setup(cfg).value, steps, cfg);
  }

  /** Some enabled list was completed, in order, by the results of these steps. */
  ghost predicate ListCompleted(cfg: Config, steps: seq<Step>) {
    exists c :: c in cfg.lists && MethodsValid(c, cfg.table, true) && CompletedInOrder(Pieces(c), Granted(steps))
  }

  /**
   With lists configured, a connection has succeeded exactly when the elements of one configured
   list, all of them enabled, were satisfied in order by the steps that authenticated.
   */
  lemma SuccessExactly(cfg: Config, steps: seq<Step>)
    requires ProperTable(cfg.table) && cfg.lists != []
    requires forall step :: step in steps ==> ProperStep(step)
    requires Connection(cfg, steps).Some?
    ensures Connection(cfg, steps).value.success <==> ListCompleted(cfg, steps)
  {
    hide EnabledLists, Connection, CompletedInOrder, MethodsValid, Remaining, Pieces;
    HistoryIsGranted(cfg, steps);
    ConnectionInvariant(cfg, steps);
    EnabledListsAreValid(cfg.lists, cfg.table);
    var s := Connection(cfg, steps).value;
    forall c: string ensures Completes(c, s.history) <==> CompletedInOrder(Pieces(c), s.history) {
      UsedUpMeansCompleted(Pieces(c), s.history);
    }
  }

  // ---- Tries ----

  /** The failures counted are those of the steps, and a connection that goes on is within the limit. */
  lemma TriesExactly(cfg: Config, steps: seq<Step>)
    requires Connection(cfg, steps).Some?
    ensures var s := Connection(cfg, steps).value;
      && s.failures == Tries(Unsuccessful(steps, s.success), 1)
      && (s.failures == 0 || s.failures < cfg.maxTries)
  {
    RunGrants(Setup(cfg).value, steps, cfg);
  }

  lemma {:induction false} RunAppend(s: State, steps: seq<Step>, step: Step, cfg: Config)
    requires RunFrom(s, steps, cfg).Some? && !RunFrom(s, steps, cfg).value.success
    ensures RunFrom(s, steps + [step], cfg) == Take(RunFrom(s, steps, cfg).value, step, cfg)
    decreases |steps|
  {
    hide Take;
    if steps == [] {
      assert [step][1..] == [];
    } else {
      assert (steps + [step])[1..] == steps[1..] + [step];
      RunAppend(Take(s, steps[0], cfg).value, steps[1..], step, cfg);
    }
  }

  lemma {:induction false} GrantedAppend(steps: seq<Step>, step: Step)
    ensures Granted(steps + [step]) == Granted(steps) + GrantedBy(step)
  {
    if steps == [] {
      assert [step][1..] == [];
    } else {
      assert (steps + [step])[1..] == steps[1..] + [step];
      GrantedAppend(steps[1..], step);
    }
  }

  /** The number of the attempt that follows these steps. */
  function AttemptAfter(steps: seq<Step>, attempt: nat): nat {
    if steps == [] then attempt
    else AttemptAfter(steps[1..], if steps[0].Request? then attempt + 1 else attempt)
  }

  lemma {:induction false} AttemptIsKept(s: State, steps: seq<Step>, cfg: Config)
    requires RunFrom(s, steps, cfg).Some?
    ensures RunFrom(s, steps, cfg).value.attempt == AttemptAfter(steps, s.attempt)
    decreases |steps|
  {
    hide UpdateLists;
    if steps != [] {
      AttemptIsKept(Take(s, steps[0], cfg).value, steps[1..], cfg);
    }
  }

  lemma {:induction false} TriesAppend(steps: seq<Step>, step: Step, attempt: nat)
    ensures Tries(steps + [step], attempt)
            == Tries(steps, attempt) + if Counts(step, AttemptAfter(steps, attempt)) then 1 else 0
  {
    hide Counts;
    if steps == [] {
      assert [step][1..] == [];
    } else {
      assert (steps + [step])[1..] == steps[1..] + [step];
      TriesAppend(steps[1..], step, if steps[0].Request? then attempt + 1 else attempt);
    }
  }

  /** What the next finish of an attempt does, by what it brings and how often the user has tried. */
  lemma FinishEnds(s: State, ev: Finish, cfg: Config)
    requires !s.success
    ensures var u := UpdateLists(s.lists, ev.result);
      var granted := Grants(Done(ev)) && (cfg.lists == [] || u.completed);
      UserauthFinish(s, ev, cfg).None? <==>
        || (ev.authenticated && (!ev.validUser || ev.postponed))
        || (Grants(Done(ev)) && cfg.lists != [] && !u.found)
        || (granted && ev.pamDenied)
        || (!granted && !ev.postponed
            && s.failures + (if Counts(Done(ev), s.attempt) then 1 else 0) >= cfg.maxTries)
  {
    CompletedIsFound(s.lists, ev.result);
    hide UpdateLists;
  }

  /** The step completes authentication, as far as its results go. */
  ghost predicate Suffices(cfg: Config, steps: seq<Step>, ev: Finish) {
    Grants(Done(ev)) && (cfg.lists == [] || ListCompleted(cfg, steps + [Done(ev)]))
  }

  /** Some list that was not completed by these steps has the result for its next element. */
  ghost predicate Expects(cfg: Config, steps: seq<Step>, r: Result) {
    exists c :: c in cfg.lists && MethodsValid(c, cfg.table, true) && Awaits(Pieces(c), Granted(steps), r)
  }

  predicate Awaits(elems: seq<string>, history: seq<Result>, r: Result) {
    Remaining(elems, history) != [] && Satisfies(r, Remaining(elems, history)[0])
  }

  /** What a stored list says about a result, on the elements of the configured list. */
  lemma StoredExpects(c: string, history: seq<Result>, r: Result)
    requires Elements(Pieces(c)) && ProperResult(r)
    ensures RemoveMethod(Stored(c, history), r).Some? <==> Awaits(Pieces(c), history, r)
  {
    hide RemoveMethod, Remaining, Pieces, Satisfies;
    RemainingIsSuffix(Pieces(c), history);
    RemoveAdvances(Remaining(Pieces(c), history), r);
  }

  lemma ElementsOf(cfg: Config)
    requires ProperTable(cfg.table)
    ensures forall c :: c in EnabledLists(cfg.lists, cfg.table) <==> c in cfg.lists && MethodsValid(c, cfg.table, true)
    ensures forall c :: c in EnabledLists(cfg.lists, cfg.table) ==> Elements(Pieces(c))
  {
    hide Pieces, MethodsValid, Elements;
    EnabledListsAreValid(cfg.lists, cfg.table);
    forall c | c in EnabledLists(cfg.lists, cfg.table) ensures Elements(Pieces(c)) {
      ValidListElements(c, cfg);
    }
  }

  /** A granted result is found exactly when some list awaits it, and completes exactly a list that it completes. */
  lemma GrantedUpdate(cfg: Config, history: seq<Result>, r: Result)
    requires ProperTable(cfg.table) && ProperResult(r)
    requires forall c :: c in EnabledLists(cfg.lists, cfg.table) ==> !Completes(c, history)
    ensures var u := UpdateLists(StoredLists(EnabledLists(cfg.lists, cfg.table), history), r);
      && (u.found <==> exists c :: c in cfg.lists && MethodsValid(c, cfg.table, true) && Awaits(Pieces(c), history, r))
      && (u.completed <==> SomeCompletes(EnabledLists(cfg.lists, cfg.table), history + [r]))
  {
    hide EnabledLists, Completes, UpdateLists, MethodsValid, Awaits, Pieces, Stored, RemoveMethod, Elements,
         SomeCompletes;
    var configured := EnabledLists(cfg.lists, cfg.table);
    ElementsOf(cfg);
    UpdateAdvances(configured, history, r);
    var stored := StoredLists(configured, history);
    FoundExactly(stored, r);
    forall c | c in configured ensures RemoveMethod(Stored(c, history), r).Some? <==> Awaits(Pieces(c), history, r) {
      StoredExpects(c, history, r);
    }
    forall l | l in stored ensures exists c :: c in configured && l == Stored(c, history) {
      var i :| 0 <= i < |stored| && stored[i] == l;
    }
    forall c | c in configured ensures Stored(c, history) in stored {
      var i :| 0 <= i < |configured| && configured[i] == c;
      assert stored[i] == Stored(c, history);
    }
  }

  lemma CompletedExactly(cfg: Config, steps: seq<Step>)
    requires ProperTable(cfg.table)
    ensures SomeCompletes(EnabledLists(cfg.lists, cfg.table), Granted(steps)) <==> ListCompleted(cfg, steps)
  {
    hide EnabledLists, CompletedInOrder, MethodsValid, Remaining, Pieces, Granted;
    ElementsOf(cfg);
    forall c: string ensures Completes(c, Granted(steps)) <==> CompletedInOrder(Pieces(c), Granted(steps)) {
      UsedUpMeansCompleted(Pieces(c), Granted(steps));
    }
  }

  /**
   Exactly which end of an attempt ends the connection: an impossible one, a result that no list awaits,
   an account that may not log in, or a try beyond the limit.
   */
  lemma EndsExactly(cfg: Config, steps: seq<Step>, ev: Finish)
    requires ProperTable(cfg.table) && ProperStep(Done(ev)) && forall step :: step in steps ==> ProperStep(step)
    requires Connection(cfg, steps).Some? && !Connection(cfg, steps).value.success
    ensures Connection(cfg, steps + [Done(ev)]).None? <==>
      || (ev.authenticated && (!ev.validUser || ev.postponed))
      || (Grants(Done(ev)) && cfg.lists != [] && !Expects(cfg, steps, ev.result))
      || (Suffices(cfg, steps, ev) && ev.pamDenied)
      || (!Suffices(cfg, steps, ev) && !ev.postponed && Tries(steps + [Done(ev)], 1) >= cfg.maxTries)
  {
    hide EnabledLists, UpdateLists, StoredLists, SomeCompletes, ListCompleted, Counts, MethodsValid, UserauthFinish;
    var s := Connection(cfg, steps).value;
    RunAppend(Setup(cfg).value, steps, Done(ev), cfg);
    TriesAppend(steps, Done(ev), 1);
    AttemptIsKept(Setup(cfg).value, steps, cfg);
    TriesExactly(cfg, steps);
    FinishEnds(s, ev, cfg);
    if Grants(Done(ev)) && cfg.lists != [] {
      ConnectionInvariant(cfg, steps);
      HistoryIsGranted(cfg, steps);
      GrantedAppend(steps, Done(ev));
      NoneCompletes(EnabledLists(cfg.lists, cfg.table), s.history);
      GrantedUpdate(cfg, s.history, ev.result);
      CompletedExactly(cfg, steps + [Done(ev)]);
    }
  }

  lemma NoneCompletes(configured: seq<string>, history: seq<Result>)
    requires !SomeCompletes(configured, history)
    ensures forall c :: c in configured ==> !Completes(c, history)
  {
  }
}
