/**
 Multi-method user authentication: which method lists a connection still has to complete, and the
 theorem that it succeeds exactly when one of the configured lists was completed in order.
 */
module Auth {
  import opened Bytes
  import opened AuthLists

  datatype AuthMethod = AuthMethod(name: string, enabled: bool)

  /** The configured lists, the table of methods, and the number of failures tolerated. */
  datatype Config = Config(lists: seq<string>, table: seq<AuthMethod>, maxTries: nat)

  ghost predicate ProperTable(table: seq<AuthMethod>) {
    forall m :: m in table ==> MethodName(m.name)
  }

  function Lookup(table: seq<AuthMethod>, name: string): Option<AuthMethod> {
    if table == [] then None
    else if table[0].name == name then Some(table[0])
    else Lookup(table[1..], name)
  }

  predicate Known(table: seq<AuthMethod>, name: string, needEnable: bool) {
    var m := Lookup(table, name);
    m.Some? && (needEnable ==> m.value.enabled)
  }

  function BeforeColon(s: string): string {
    if s == "" || s[0] == ':' then "" else [s[0]] + BeforeColon(s[1..])
  }

  /** `auth2_methods_valid`. */
  predicate MethodsValid(list: string, table: seq<AuthMethod>, needEnable: bool) {
    list != "" && AllKnown(Pieces(list), table, needEnable)
  }

  predicate AllKnown(pieces: seq<string>, table: seq<AuthMethod>, needEnable: bool) {
    forall p :: p in pieces ==> Known(table, BeforeColon(p), needEnable)
  }

  lemma NoneUnknown(table: seq<AuthMethod>, needEnable: bool)
    ensures AllKnown([], table, needEnable)
  {
  }

  lemma AllKnownFirst(p: string, rest: seq<string>, table: seq<AuthMethod>, needEnable: bool)
    ensures AllKnown([p] + rest, table, needEnable)
            <==> Known(table, BeforeColon(p), needEnable) && AllKnown(rest, table, needEnable)
  {
    assert forall q :: q in [p] + rest <==> q == p || q in rest;
    assert p in [p] + rest;
    hide Known;
  }

  predicate FirstNamed(table: seq<AuthMethod>, name: string, i: nat) {
    i < |table| && table[i].name == name && forall j :: 0 <= j < i ==> table[j].name != name
  }

  /** The table's first entry of this name may be used. */
  ghost predicate Usable(table: seq<AuthMethod>, name: string, needEnable: bool) {
    exists i: nat :: FirstNamed(table, name, i) && (needEnable ==> table[i].enabled)
  }

  lemma {:induction false} LookupFinds(table: seq<AuthMethod>, name: string, i: nat)
    requires FirstNamed(table, name, i)
    ensures Lookup(table, name) == Some(table[i])
  {
    if i > 0 {
      assert table[1..][i - 1] == table[i] && forall j :: 0 <= j < i - 1 ==> table[1..][j] == table[j + 1];
      LookupFinds(table[1..], name, i - 1);
    }
  }

  lemma {:induction false} LookupFound(table: seq<AuthMethod>, name: string) returns (i: nat)
    requires Lookup(table, name).Some?
    ensures FirstNamed(table, name, i)
  {
    if table[0].name == name {
      i := 0;
    } else {
      i := LookupFound(table[1..], name);
      assert forall j :: 0 < j <= i + 1 ==> table[j] == table[1..][j - 1];
      i := i + 1;
    }
  }

  lemma KnownMeaning(table: seq<AuthMethod>, name: string, needEnable: bool)
    ensures Known(table, name, needEnable) <==> Usable(table, name, needEnable)
  {
    hide FirstNamed, Lookup;
    forall i: nat | FirstNamed(table, name, i) ensures i < |table| && Lookup(table, name) == Some(table[i]) {
      IndexOfNamed(table, name, i);
      LookupFinds(table, name, i);
    }
    if Lookup(table, name).Some? {
      var i := LookupFound(table, name);
      IndexOfNamed(table, name, i);
      LookupFinds(table, name, i);
    }
  }

  lemma IndexOfNamed(table: seq<AuthMethod>, name: string, i: nat)
    requires FirstNamed(table, name, i)
    ensures i < |table|
  {
  }

  lemma {:induction false} BeforeColonMeaning(s: string, name: string)
    requires ':' !in name
    ensures BeforeColon(s) == name <==> s == name || name + ":" <= s
  {
    if s == "" {
    } else if s[0] == ':' {
      assert name != "" ==> name[0] in name;
    } else if name == "" {
    } else {
      BeforeColonMeaning(s[1..], name[1..]);
      assert s == [s[0]] + s[1..] && name == [name[0]] + name[1..];
      assert name + ":" == [name[0]] + (name[1..] + ":");
    }
  }

  lemma {:induction false} BeforeColonPlain(s: string)
    ensures ':' !in BeforeColon(s)
  {
    if s != "" && s[0] != ':' {
      BeforeColonPlain(s[1..]);
    }
  }

  /** The element is the name of a usable method, alone or with a device behind a colon. */
  ghost predicate NamesUsable(elem: string, table: seq<AuthMethod>, needEnable: bool) {
    exists name :: ':' !in name && (elem == name || name + ":" <= elem) && Usable(table, name, needEnable)
  }

  lemma ElementKnown(elem: string, table: seq<AuthMethod>, needEnable: bool)
    ensures Known(table, BeforeColon(elem), needEnable) <==> NamesUsable(elem, table, needEnable)
  {
    hide Known, Usable, BeforeColon;
    BeforeColonPlain(elem);
    BeforeColonMeaning(elem, BeforeColon(elem));
    KnownMeaning(table, BeforeColon(elem), needEnable);
    forall name | ':' !in name && (elem == name || name + ":" <= elem) ensures name == BeforeColon(elem) {
      BeforeColonMeaning(elem, name);
    }
  }

  /** A list is valid exactly when every element names a usable method. */
  lemma ValidExactly(list: string, table: seq<AuthMethod>, needEnable: bool)
    ensures MethodsValid(list, table, needEnable) <==>
      && list != ""
      && forall p :: p in Pieces(list) ==> NamesUsable(p, table, needEnable)
  {
    hide Pieces, Known, NamesUsable;
    forall p | p in Pieces(list)
      ensures Known(table, BeforeColon(p), needEnable) <==> NamesUsable(p, table, needEnable)
    {
      ElementKnown(p, table, needEnable);
    }
  }

  /** The lists a connection starts with: those whose methods are all enabled. */
  function EnabledLists(lists: seq<string>, table: seq<AuthMethod>): seq<string> {
    if lists == [] then []
    else (if MethodsValid(lists[0], table, true) then [lists[0]] else []) + EnabledLists(lists[1..], table)
  }

  /** `auth2_update_methods_lists`: stops at the first list that becomes empty. */
  datatype Update = Update(lists: seq<string>, found: bool, completed: bool)

  function UpdateLists(lists: seq<string>, r: Result): Update {
    if lists == [] then Update([], false, false)
    else
      match RemoveMethod(lists[0], r)
      case Some("") => Update([""] + lists[1..], true, true)
      case Some(rest) =>
        var u := UpdateLists(lists[1..], r);
        Update([rest] + u.lists, true, u.completed)
      case None =>
        var u := UpdateLists(lists[1..], r);
        Update([lists[0]] + u.lists, u.found, u.completed)
  }

  lemma {:induction false} CompletedIsFound(lists: seq<string>, r: Result)
    ensures UpdateLists(lists, r).completed ==> UpdateLists(lists, r).found
  {
    if lists != [] {
      CompletedIsFound(lists[1..], r);
    }
  }

  /** A result is accounted for exactly when some stored list starts with it; otherwise the source gives up. */
  lemma {:induction false} FoundExactly(lists: seq<string>, r: Result)
    ensures UpdateLists(lists, r).found <==> exists l :: l in lists && RemoveMethod(l, r).Some?
  {
    hide RemoveMethod;
    if lists == [] {
      UpdateNone(r);
    } else {
      UpdateFirst(lists, r);
      CompletedIsFound(lists[1..], r);
      FoundExactly(lists[1..], r);
      assert forall l :: l in lists <==> l == lists[0] || l in lists[1..];
    }
  }

  /** `auth2_method_allowed`: some stored list starts with the method, or with a submethod of it. */
  predicate MethodAllowed(lists: seq<string>, configured: bool, m: string, submethod: Option<string>) {
    !configured || exists l :: l in lists && ListStartsWith(l, m, submethod) != MatchNone
  }

  /** The element names this method: alone, or with this device; with any device if none is given. */
  predicate NamesMethod(elem: string, m: string, submethod: Option<string>) {
    elem == m || if submethod.None? then m + ":" <= elem else elem == m + ":" + submethod.value
  }

  /** A method is offered exactly when the next element of a stored list names it, or when no lists are configured. */
  lemma AllowedExactly(lists: seq<string>, configured: bool, m: string, submethod: Option<string>)
    requires ProperResult(Result(m, submethod)) && forall l :: l in lists ==> l != "" && Elements(Pieces(l))
    ensures MethodAllowed(lists, configured, m, submethod) <==>
      !configured || exists l :: l in lists && NamesMethod(Pieces(l)[0], m, submethod)
  {
    forall l | l in lists
      ensures ListStartsWith(l, m, submethod) != MatchNone <==> NamesMethod(Pieces(l)[0], m, submethod)
    {
      JoinPieces(l);
      JoinTail(Pieces(l));
      assert Element(Pieces(l)[0]);
      var t := if |Pieces(l)| == 1 then "" else "," + Join(Pieces(l)[1..]);
      StartsWithMeaning(Pieces(l)[0], t, Result(m, submethod));
      NoBoth(l, m, submethod);
    }
    hide ListStartsWith, Pieces;
  }

  lemma NoBoth(l: string, m: string, submethod: Option<string>)
    ensures ListStartsWith(l, m, submethod) == MatchBoth ==> submethod.Some?
    ensures ListStartsWith(l, m, submethod) == MatchPartial ==> submethod.None?
  {
  }

  /** The authentication state of a connection, with the results counted so far. */
  datatype State = State(lists: seq<string>, success: bool, failures: nat, attempt: nat, history: seq<Result>)

  /** The end of one authentication attempt, as `userauth_finish` gets to see it. */
  datatype Finish = Finish(
    result: Result,
    authenticated: bool,
    validUser: bool,
    postponed: bool,
    rootDenied: bool,
    pamDenied: bool,
    serverFault: bool)

  predicate Accepted(ev: Finish) { ev.authenticated && !ev.rootDenied }

  /** A failed attempt is counted unless the server caused it or it was the initial "none". */
  function Failures(s: State, ev: Finish): nat {
    if !ev.serverFault && (s.attempt > 1 || ev.result.method_ != "none") then s.failures + 1 else s.failures
  }

  /** `userauth_finish`; `None` when it ends the connection. */
  function UserauthFinish(s: State, ev: Finish, cfg: Config): Option<State> {
    if ev.authenticated && (!ev.validUser || ev.postponed) then None
    else
      var multi := Accepted(ev) && cfg.lists != [];
      var u := if multi then UpdateLists(s.lists, ev.result) else Update(s.lists, true, true);
      var s' := s.(lists := u.lists, history := if Accepted(ev) then s.history + [ev.result] else s.history);
      if !u.found then None
      else if ev.postponed then Some(s')
      else if Accepted(ev) && u.completed then
        if ev.pamDenied then None else Some(s'.(success := true))
      else
        var failures := Failures(s, ev);
        if failures >= cfg.maxTries then None else Some(s'.(failures := failures))
  }

  /** Steps of a connection: a request begins a new attempt, and attempts finish. */
  datatype Step = Request | Done(ev: Finish)

  /** A successful attempt is one of a method of the table, by a device with a plain name. */
  predicate ProperStep(step: Step) {
    step.Done? && step.ev.authenticated ==> ProperResult(step.ev.result)
  }

  function Setup(cfg: Config): Option<State> {
    var lists := EnabledLists(cfg.lists, cfg.table);
    if cfg.lists != [] && lists == [] then None
    else Some(State(lists, false, 0, 1, []))
  }

  function Take(s: State, step: Step, cfg: Config): Option<State> {
    match step
    case Request => Some(s.(attempt := s.attempt + 1))
    case Done(ev) => UserauthFinish(s, ev, cfg)
  }

  /** After success no further request is handled. */
  function RunFrom(s: State, steps: seq<Step>, cfg: Config): Option<State>
    decreases |steps|
  {
    if steps == [] then Some(s)
    else if s.success then None
    else
      match Take(s, steps[0], cfg)
      case None => None
      case Some(t) => RunFrom(t, steps[1..], cfg)
  }

  function Connection(cfg: Config, steps: seq<Step>): Option<State> {
    match Setup(cfg) case None => None case Some(s) => RunFrom(s, steps, cfg)
  }

  // ---- Lists as elements ----

  lemma {:induction false} PiecesHaveNoComma(s: string)
    ensures forall p :: p in Pieces(s) ==> NoComma(p)
    decreases |s|
  {
    var n := FirstComma(s);
    if n < |s| {
      PiecesHaveNoComma(s[n + 1..]);
    } else {
      assert s == s[..n];
    }
  }

  lemma {:induction false} LookupProper(table: seq<AuthMethod>, name: string)
    requires ProperTable(table) && Lookup(table, name).Some?
    ensures MethodName(name)
  {
    if table[0].name != name {
      LookupProper(table[1..], name);
    } else {
      assert table[0] in table;
    }
  }

  /** Every element of a valid list is one, so the list is determined by its elements. */
  lemma ValidListElements(list: string, cfg: Config)
    requires ProperTable(cfg.table) && MethodsValid(list, cfg.table, true)
    ensures Elements(Pieces(list)) && Join(Pieces(list)) == list && Pieces(list) != []
  {
    PiecesHaveNoComma(list);
    JoinPieces(list);
    forall p | p in Pieces(list) ensures Element(p) {
      LookupProper(cfg.table, BeforeColon(p));
    }
  }

  lemma {:induction false} EnabledListsAreValid(lists: seq<string>, table: seq<AuthMethod>)
    ensures forall c :: c in EnabledLists(lists, table) <==> c in lists && MethodsValid(c, table, true)
  {
    if lists != [] {
      EnabledListsAreValid(lists[1..], table);
    }
  }

  /** What the connection stores for the configured list `c` after `history`. */
  function Stored(c: string, history: seq<Result>): string { Join(Remaining(Pieces(c), history)) }

  function StoredLists(configured: seq<string>, history: seq<Result>): (r: seq<string>)
    ensures |r| == |configured|
    ensures forall i :: 0 <= i < |r| ==> r[i] == Stored(configured[i], history)
  {
    seq(|configured|, i requires 0 <= i < |configured| => Stored(configured[i], history))
  }

  predicate Completes(c: string, history: seq<Result>) { Remaining(Pieces(c), history) == [] }

  /** The effect of one result on one stored list. */
  lemma StoredAdvances(c: string, history: seq<Result>, r: Result)
    requires Elements(Pieces(c)) && ProperResult(r)
    ensures var removed := RemoveMethod(Stored(c, history), r);
      && Stored(c, history + [r]) == (if removed.Some? then removed.value else Stored(c, history))
      && (Completes(c, history + [r]) <==> Stored(c, history + [r]) == "")
      && (Completes(c, history) <==> Stored(c, history) == "")
  {
    var elems := Pieces(c);
    var before := Remaining(elems, history);
    RemainingIsSuffix(elems, history);
    RemainingIsSuffix(elems, history + [r]);
    RemoveAdvances(before, r);
    JoinEmpty(before);
    JoinEmpty(Remaining(elems, history + [r]));
    assert (history + [r])[..|history|] == history;
  }

  lemma UpdateNone(r: Result)
    ensures UpdateLists([], r) == Update([], false, false)
  {
  }

  lemma UpdateFirst(lists: seq<string>, r: Result)
    requires lists != []
    ensures var removed := RemoveMethod(lists[0], r);
      var u, v := UpdateLists(lists, r), UpdateLists(lists[1..], r);
      && (removed == Some("") ==> u == Update([""] + lists[1..], true, true))
      && (removed.Some? && removed.value != "" ==>
        u.found && u.completed == v.completed && u.lists == [removed.value] + v.lists)
      && (removed.None? ==> u.found == v.found && u.completed == v.completed && u.lists == [lists[0]] + v.lists)
  {
    hide RemoveMethod;
  }

  lemma StoredFirst(configured: seq<string>, history: seq<Result>)
    requires configured != []
    ensures StoredLists(configured, history)[0] == Stored(configured[0], history)
    ensures StoredLists(configured, history)[1..] == StoredLists(configured[1..], history)
    ensures StoredLists(configured, history) == [Stored(configured[0], history)] + StoredLists(configured[1..], history)
  {
    hide Stored;
  }

  ghost predicate SomeCompletes(configured: seq<string>, history: seq<Result>) {
    exists c :: c in configured && Completes(c, history)
  }

  lemma SomeCompletesFirst(configured: seq<string>, history: seq<Result>)
    requires configured != []
    ensures SomeCompletes(configured, history) <==>
            Completes(configured[0], history) || SomeCompletes(configured[1..], history)
  {
    hide Completes;
    assert forall d :: d in configured <==> d == configured[0] || d in configured[1..];
  }

  /** Updating the stored lists is advancing each configured list by one result. */
  lemma {:induction false} UpdateAdvances(configured: seq<string>, history: seq<Result>, r: Result)
    requires ProperResult(r) && forall c :: c in configured ==> Elements(Pieces(c)) && !Completes(c, history)
    ensures var u := UpdateLists(StoredLists(configured, history), r);
      && (u.completed <==> SomeCompletes(configured, history + [r]))
      && (!u.completed ==> u.lists == StoredLists(configured, history + [r]))
      && (!u.found ==> !u.completed && u.lists == StoredLists(configured, history))
    decreases |configured|
  {
    hide StoredLists, RemoveMethod, Stored, Completes, Pieces, Elements, SomeCompletes;
    if configured == [] {
      UpdateNothing(history, r);
    } else {
      hide UpdateLists;
      UpdateAdvances(configured[1..], history, r);
      StoredAdvances(configured[0], history, r);
      StoredFirst(configured, history);
      StoredFirst(configured, history + [r]);
      SomeCompletesFirst(configured, history + [r]);
      UpdateFirst(StoredLists(configured, history), r);
    }
  }

  lemma UpdateNothing(history: seq<Result>, r: Result)
    ensures UpdateLists(StoredLists([], history), r) == Update([], false, false)
    ensures StoredLists([], history) == [] && StoredLists([], history + [r]) == [] && !SomeCompletes([], history + [r])
  {
  }

  // ---- Whole connections ----

  /** In a configured connection, what is stored and whether it succeeded follow from the history. */
  ghost predicate Invariant(s: State, cfg: Config) {
    var configured := EnabledLists(cfg.lists, cfg.table);
    && (!s.success ==> s.lists == StoredLists(configured, s.history))
    && (s.success <==> SomeCompletes(configured, s.history))
  }

  lemma SetupInvariant(cfg: Config)
    requires ProperTable(cfg.table) && Setup(cfg).Some?
    ensures Invariant(Setup(cfg).value, cfg)
  {
    var configured := EnabledLists(cfg.lists, cfg.table);
    EnabledListsAreValid(cfg.lists, cfg.table);
    forall c | c in configured ensures Stored(c, []) == c && !Completes(c, []) {
      ValidListElements(c, cfg);
    }
    assert StoredLists(configured, []) == configured;
  }

  lemma FinishInvariant(s: State, ev: Finish, cfg: Config)
    requires ProperTable(cfg.table) && cfg.lists != []
    requires ev.authenticated ==> ProperResult(ev.result)
    requires Invariant(s, cfg) && !s.success && UserauthFinish(s, ev, cfg).Some?
    ensures Invariant(UserauthFinish(s, ev, cfg).value, cfg)
  {
    if Accepted(ev) {
      var configured := EnabledLists(cfg.lists, cfg.table);
      EnabledListsAreValid(cfg.lists, cfg.table);
      forall c | c in configured ensures Elements(Pieces(c)) {
        ValidListElements(c, cfg);
      }
      UpdateAdvances(configured, s.history, ev.result);
    }
    hide EnabledLists, StoredLists, Completes, UpdateLists;
  }

  lemma {:induction false} RunInvariant(s: State, steps: seq<Step>, cfg: Config)
    requires ProperTable(cfg.table) && cfg.lists != []
    requires forall step :: step in steps ==> ProperStep(step)
    requires Invariant(s, cfg) && RunFrom(s, steps, cfg).Some?
    ensures Invariant(RunFrom(s, steps, cfg).value, cfg)
    decreases |steps|
  {
    if steps != [] {
      assert steps[0] in steps;
      if steps[0].Done? {
        FinishInvariant(s, steps[0].ev, cfg);
      }
      RunInvariant(Take(s, steps[0], cfg).value, steps[1..], cfg);
    }
  }

  lemma ConnectionInvariant(cfg: Config, steps: seq<Step>)
    requires ProperTable(cfg.table) && cfg.lists != []
    requires forall step :: step in steps ==> ProperStep(step)
    requires Connection(cfg, steps).Some?
    ensures Invariant(Connection(cfg, steps).value, cfg)
  {
    hide Invariant;
    SetupInvariant(cfg);
    RunInvariant(Setup(cfg).value, steps, cfg);
  }

  /** Every list still stored is a configured one less some first elements, which earlier results satisfied in order. */
  lemma StoredAreRemainders(cfg: Config, steps: seq<Step>, i: nat)
    returns (c: string, k: nat, at: seq<nat>)
    requires ProperTable(cfg.table) && cfg.lists != []
    requires forall step :: step in steps ==> ProperStep(step)
    requires Connection(cfg, steps).Some? && !Connection(cfg, steps).value.success
    requires i < |Connection(cfg, steps).value.lists|
    ensures c in cfg.lists && MethodsValid(c, cfg.table, true) && k < |Pieces(c)|
    ensures Connection(cfg, steps).value.lists[i] == Join(Pieces(c)[k..])
    ensures Embeds(Pieces(c)[..k], Connection(cfg, steps).value.history, at)
  {
    hide EnabledLists, Connection, MethodsValid, Remaining, Pieces, Join, Embeds;
    ConnectionInvariant(cfg, steps);
    EnabledListsAreValid(cfg.lists, cfg.table);
    var s := Connection(cfg, steps).value;
    c := EnabledLists(cfg.lists, cfg.table)[i];
    assert !Completes(c, s.history);
    RemainingIsSuffix(Pieces(c), s.history);
    k := |Pieces(c)| - |Remaining(Pieces(c), s.history)|;
    at := RemovedWereSatisfied(Pieces(c), s.history);
  }
}
