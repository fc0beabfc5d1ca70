/** The authentication context of auth2.c and the functions that prune its method lists in place. */
module AuthContext {
  import opened Bytes
  import opened AuthLists
  import Auth

  class Authctxt {
    var authMethods: seq<string>
    var success: bool
    var failures: nat
    var attempt: nat
    ghost var history: seq<Result>

    ghost function Model(): Auth.State
      reads this
    {
      Auth.State(authMethods, success, failures, attempt, history)
    }

    constructor ()
      ensures Model() == Auth.State([], false, 0, 1, [])
    {
      authMethods, success, failures, attempt, history := [], false, 0, 1, [];
    }

    /** A table lookup by name, which stops at the first match. */
    static method FindMethod(table: seq<Auth.AuthMethod>, name: string, needEnable: bool) returns (valid: bool)
      ensures valid == Auth.Known(table, name, needEnable)
    {
      for i := 0 to |table|
        invariant Auth.Lookup(table, name) == Auth.Lookup(table[i..], name)
      {
        if table[i].name == name {
          return !needEnable || table[i].enabled;
        }
        assert table[i..][1..] == table[i + 1..];
      }
      return false;
    }

    static method MethodsValid(list: string, table: seq<Auth.AuthMethod>, needEnable: bool) returns (ret: int)
      ensures ret == if Auth.MethodsValid(list, table, needEnable) then 0 else -1
    {
      hide Pieces, Auth.Known, Auth.AllKnown;
      if list == "" {
        return -1;
      }
      var methods: Option<string> := Some(list);
      while methods.Some?
        invariant methods.Some? ==>
          (Auth.MethodsValid(list, table, needEnable) <==> Auth.AllKnown(Pieces(methods.value), table, needEnable))
        invariant methods.None? ==> Auth.MethodsValid(list, table, needEnable)
        decreases if methods.Some? then |methods.value| + 1 else 0
      {
        ghost var before := methods.value;
        var n := FirstComma(methods.value);
        var piece := methods.value[..n];
        methods := if n == |methods.value| then None else Some(methods.value[n + 1..]);
        Auth.AllKnownFirst(piece, if methods.Some? then Pieces(methods.value) else [], table, needEnable);
        PiecesFirst(before);
        Auth.NoneUnknown(table, needEnable);
        var found := FindMethod(table, Auth.BeforeColon(piece), needEnable);
        if !found {
          return -1;
        }
      }
      return 0;
    }

    /** Keeps the configured lists whose methods are all enabled. */
    method SetupMethodsLists(cfg: Auth.Config) returns (ret: int)
      modifies this`authMethods
      ensures cfg.lists != [] ==> authMethods == Auth.EnabledLists(cfg.lists, cfg.table)
      ensures ret == if cfg.lists != [] && Auth.EnabledLists(cfg.lists, cfg.table) == [] then -1 else 0
      ensures cfg.lists == [] ==> authMethods == old(authMethods)
    {
      if |cfg.lists| == 0 {
        return 0;
      }
      authMethods := [];
      for i := 0 to |cfg.lists|
        invariant authMethods + Auth.EnabledLists(cfg.lists[i..], cfg.table) == Auth.EnabledLists(cfg.lists, cfg.table)
      {
        assert cfg.lists[i..][1..] == cfg.lists[i + 1..];
        var valid := MethodsValid(cfg.lists[i], cfg.table, true);
        if valid != 0 {
          continue;
        }
        authMethods := authMethods + [cfg.lists[i]];
      }
      return if |authMethods| == 0 then -1 else 0;
    }

    /** Removes `r` from the front of list `i`, if that list starts with it. */
    method RemoveMethodAt(i: nat, r: Result) returns (removed: bool)
      requires i < |authMethods|
      modifies this`authMethods
      ensures removed == RemoveMethod(old(authMethods)[i], r).Some?
      ensures authMethods == if removed then old(authMethods)[i := RemoveMethod(old(authMethods)[i], r).value]
                             else old(authMethods)
    {
      var omethods := authMethods[i];
      var found := ListStartsWith(omethods, r.method_, r.submethod);
      if found != MatchMethod && found != MatchBoth {
        return false;
      }
      var p := |r.method_|;
      if r.submethod.Some? && found == MatchBoth {
        p := p + 1 + |r.submethod.value|;
      }
      assert omethods[|r.method_|..][p - |r.method_|..] == omethods[p..];
      if p < |omethods| && omethods[p] == ',' {
        assert omethods[p..][1..] == omethods[p + 1..];
        p := p + 1;
      }
      authMethods := authMethods[i := omethods[p..]];
      return true;
    }

    /** 1 when a list was completed, 0 when not, -1 when no list started with the method. */
    method UpdateMethodsLists(r: Result) returns (ret: int)
      modifies this`authMethods
      ensures authMethods == Auth.UpdateLists(old(authMethods), r).lists
      ensures var u := Auth.UpdateLists(old(authMethods), r);
        ret == if u.completed then 1 else if u.found then 0 else -1
    {
      hide Updating, RemoveMethod;
      var found := false;
      ghost var before := authMethods;
      Auth.UpdateNone(r);
      UpdatingEnds(before, r);
      for i := 0 to |authMethods|
        invariant |authMethods| == |before| && Updating(before, authMethods, i, found, r)
      {
        UpdatingStep(before, authMethods, i, found, r);
        var removed := RemoveMethodAt(i, r);
        if !removed {
          continue;
        }
        found := true;
        if authMethods[i] == "" {
          return 1;
        }
      }
      UpdatedAll(before, authMethods, found, r);
      return if found then 0 else -1;
    }

    /** Whether a method may be tried now. */
    method MethodAllowed(configured: bool, m: string, submethod: Option<string>) returns (allowed: bool)
      ensures allowed == Auth.MethodAllowed(authMethods, configured, m, submethod)
    {
      if !configured {
        return true;
      }
      for i := 0 to |authMethods|
        invariant forall k :: 0 <= k < i ==> ListStartsWith(authMethods[k], m, submethod) == MatchNone
      {
        if ListStartsWith(authMethods[i], m, submethod) != MatchNone {
          assert authMethods[i] in authMethods;
          return true;
        }
      }
      return false;
    }

    /** Ends an attempt; `dead` when the connection is given up. */
    method UserauthFinish(ev: Auth.Finish, cfg: Auth.Config) returns (dead: bool)
      modifies this
      ensures dead == Auth.UserauthFinish(old(Model()), ev, cfg).None?
      ensures !dead ==> Auth.UserauthFinish(old(Model()), ev, cfg) == Some(Model())
    {
      var authenticated := ev.authenticated;
      if (!ev.validUser && authenticated) || (authenticated && ev.postponed) {
        return true;
      }
      if authenticated && ev.rootDenied {
        authenticated := false;
      }
      if authenticated {
        history := history + [ev.result];
      }
      if authenticated && |cfg.lists| != 0 {
        Auth.CompletedIsFound(authMethods, ev.result);
        var completed := UpdateMethodsLists(ev.result);
        if completed == -1 {
          return true;
        }
        if completed == 0 {
          authenticated := false;
        }
      }
      if ev.postponed {
        return false;
      }
      if ev.pamDenied && authenticated {
        return true;
      }
      if authenticated {
        success := true;
      } else {
        if !ev.serverFault && (attempt > 1 || ev.result.method_ != "none") {
          failures := failures + 1;
        }
        if failures >= cfg.maxTries {
          return true;
        }
      }
      return false;
    }
  }

  /** The update of `before` has come to list `i`, and `now` is what is stored so far. */
  ghost predicate Updating(before: seq<string>, now: seq<string>, i: nat, found: bool, r: Result) {
    && i <= |now|
    && var u, v := Auth.UpdateLists(before, r), Auth.UpdateLists(now[i..], r);
      now[..i] + v.lists == u.lists && v.completed == u.completed && (found || v.found) == u.found
  }

  lemma UpdatingEnds(before: seq<string>, r: Result)
    ensures Updating(before, before, 0, false, r)
  {
    assert before[0..] == before;
    hide Auth.UpdateLists;
  }

  lemma UpdatedAll(before: seq<string>, now: seq<string>, found: bool, r: Result)
    requires Updating(before, now, |now|, found, r)
    ensures Auth.UpdateLists(before, r) == Auth.Update(now, found, false)
  {
    hide Auth.UpdateLists;
    Auth.UpdateNone(r);
    assert now[|now|..] == [] && now[..|now|] + [] == now;
  }

  lemma UpdatingStep(before: seq<string>, now: seq<string>, i: nat, found: bool, r: Result)
    requires Updating(before, now, i, found, r) && i < |now|
    ensures RemoveMethod(now[i], r).None? ==> Updating(before, now, i + 1, found, r)
    ensures RemoveMethod(now[i], r) == Some("") ==> Auth.UpdateLists(before, r) == Auth.Update(now[i := ""], true, true)
    ensures RemoveMethod(now[i], r).Some? && RemoveMethod(now[i], r).value != "" ==>
      Updating(before, now[i := RemoveMethod(now[i], r).value], i + 1, true, r)
  {
    hide Auth.UpdateLists, RemoveMethod;
    Auth.UpdateFirst(now[i..], r);
    var x := if RemoveMethod(now[i], r).Some? then RemoveMethod(now[i], r).value else now[i];
    assert now[i..][1..] == now[i + 1..] == now[i := x][i + 1..];
    assert now[..i] + ([x] + Auth.UpdateLists(now[i + 1..], r).lists)
        == now[i := x][..i + 1] + Auth.UpdateLists(now[i + 1..], r).lists;
    assert now[..i] + ([x] + now[i + 1..]) == now[i := x];
  }
}
