/**
 Comma-separated lists of authentication methods, as strings and as lists of their elements, and
 the results that complete them in order.
 */
module AuthLists {
  import opened Bytes

  datatype Match = MatchNone | MatchMethod | MatchBoth | MatchPartial

  /** A successful authentication: the method, and the device that performed it if there is one. */
  datatype Result = Result(method_: string, submethod: Option<string>)

  predicate MethodName(s: string) { s != "" && NoComma(s) && ':' !in s }

  predicate Element(s: string) { s != "" && NoComma(s) }

  /** Only table names and device names occur in results. */
  predicate ProperResult(r: Result) {
    MethodName(r.method_) && (r.submethod.Some? ==> NoComma(r.submethod.value))
  }

  // ---- Strings ----

  /** `list_starts_with`, on the characters. */
  function ListStartsWith(methods: string, m: string, submethod: Option<string>): Match {
    if !(m <= methods) then MatchNone
    else
      var p := methods[|m|..];
      if p != "" && p[0] == ':' then
        if submethod.None? then MatchPartial
        else if !(submethod.value <= p[1..]) then MatchNone
        else
          var q := p[1 + |submethod.value|..];
          if q != "" && q[0] != ',' then MatchNone else MatchBoth
      else if p != "" && p[0] != ',' then MatchNone
      else MatchMethod
  }

  /** `remove_method`: the list without its first method, if it starts with this one. */
  function RemoveMethod(methods: string, r: Result): Option<string> {
    var found := ListStartsWith(methods, r.method_, r.submethod);
    if found != MatchMethod && found != MatchBoth then None
    else
      var p := methods[|r.method_|..];
      var p := if found == MatchBoth then p[1 + |r.submethod.value|..] else p;
      Some(if p != "" && p[0] == ',' then p[1..] else p)
  }

  function Join(elems: seq<string>): string {
    if elems == [] then ""
    else elems[0] + if |elems| == 1 then "" else "," + Join(elems[1..])
  }

  lemma JoinFirst(e: string, rest: seq<string>)
    ensures Join([e] + rest) == if rest == [] then e else e + ("," + Join(rest))
  {
    assert ([e] + rest)[1..] == rest;
  }

  lemma SplitAt(s: string, n: nat)
    requires n < |s|
    ensures s == s[..n] + ([s[n]] + s[n + 1..])
  {
  }

  lemma {:induction false} JoinPieces(s: string)
    ensures Join(Pieces(s)) == s
    decreases |s|
  {
    hide Pieces, Join, FirstComma;
    var n := FirstComma(s);
    PiecesFirst(s);
    if n < |s| {
      JoinFirst(s[..n], Pieces(s[n + 1..]));
      JoinPieces(s[n + 1..]);
      SplitAt(s, n);
    } else {
      JoinFirst(s[..n], []);
    }
  }

  // ---- Meaning on elements ----

  /** Whether a result accounts for a list element, which names a method or `method:submethod`. */
  predicate Satisfies(r: Result, elem: string) {
    elem == r.method_ || (r.submethod.Some? && elem == r.method_ + ":" + r.submethod.value)
  }

  ghost predicate Elements(elems: seq<string>) {
    forall e :: e in elems ==> Element(e)
  }

  /** What is left of a list of elements after one more result. */
  function Advance(elems: seq<string>, r: Result): seq<string> {
    if elems != [] && Satisfies(r, elems[0]) then elems[1..] else elems
  }

  /** What is left of a list after a history of results. */
  function Remaining(elems: seq<string>, history: seq<Result>): seq<string> {
    if history == [] then elems
    else Advance(Remaining(elems, history[..|history| - 1]), history[|history| - 1])
  }

  /** Text without a comma is a prefix of a list only if it is one of the first element. */
  lemma PrefixCut(e: string, t: string, m: string)
    requires NoComma(m) && (t == "" || t[0] == ',')
    ensures m <= e + t <==> m <= e
    ensures m <= e ==> (e + t)[|m|..] == e[|m|..] + t
  {
    assert m <= e + t ==> forall i :: 0 <= i < |m| ==> m[i] == (e + t)[i];
    assert |m| > |e| && t != "" ==> (e + t)[|e|] == ',';
  }

  lemma SplitPrefix(e: string, t: string, m: string)
    requires m <= e && NoComma(e)
    ensures e == m + e[|m|..] && (e + t)[|m|..] == e[|m|..] + t && NoComma(e[|m|..])
  {
    assert forall c :: c in e[|m|..] ==> c in e;
  }

  lemma CancelPrefix(m: string, tail: string, x: string)
    ensures m + tail == m + x <==> tail == x
    ensures m + x <= m + tail <==> x <= tail
  {
    assert (m + tail)[|m|..] == tail && (m + x)[|m|..] == x;
    if m + x <= m + tail {
      assert tail[..|x|] == (m + tail)[|m|..|m| + |x|] == (m + x)[|m|..] == x;
    }
  }

  /** The string test, on a list whose first element is `e`. */
  lemma StartsWithMeaning(e: string, t: string, r: Result)
    requires NoComma(e) && (t == "" || t[0] == ',') && ProperResult(r)
    ensures var found := ListStartsWith(e + t, r.method_, r.submethod);
      && (found == MatchMethod <==> e == r.method_)
      && (found == MatchBoth <==> r.submethod.Some? && e == r.method_ + ":" + r.submethod.value)
      && (found == MatchPartial <==> r.submethod.None? && r.method_ + ":" <= e)
  {
    hide NoComma, ListStartsWith;
    var m := r.method_;
    PrefixCut(e, t, m);
    if m <= e {
      SplitPrefix(e, t, m);
      var tail := e[|m|..];
      AfterMethod(m, tail, t, r.submethod);
      WholeElement(m, tail, r.submethod);
      Associates(m, tail, t);
    } else {
      NoPrefix(e, e + t, r);
    }
  }

  lemma Associates(a: string, b: string, c: string)
    ensures a + b + c == a + (b + c)
  {
  }

  /** The tests on what follows the method, as tests on the whole element. */
  lemma WholeElement(m: string, tail: string, submethod: Option<string>)
    ensures m + tail == m <==> tail == ""
    ensures m + ":" <= m + tail <==> ":" <= tail
    ensures submethod.Some? ==> (m + tail == m + ":" + submethod.value <==> tail == ":" + submethod.value)
  {
    CancelPrefix(m, tail, ":");
    if submethod.Some? {
      Associates(m, ":", submethod.value);
      CancelPrefix(m, tail, ":" + submethod.value);
    }
  }

  lemma NoPrefix(e: string, s: string, r: Result)
    requires !(r.method_ <= s) && !(r.method_ <= e)
    ensures ListStartsWith(s, r.method_, r.submethod) == MatchNone && e != r.method_ && !(r.method_ + ":" <= e)
    ensures r.submethod.Some? ==> e != r.method_ + ":" + r.submethod.value
  {
  }

  lemma AfterMethod(m: string, tail: string, t: string, submethod: Option<string>)
    requires NoComma(tail) && (t == "" || t[0] == ',') && (submethod.Some? ==> NoComma(submethod.value))
    ensures var found := ListStartsWith(m + (tail + t), m, submethod);
      && (found == MatchMethod <==> tail == "")
      && (found == MatchBoth <==> submethod.Some? && tail == ":" + submethod.value)
      && (found == MatchPartial <==> submethod.None? && ":" <= tail)
  {
    hide NoComma;
    assert (m + (tail + t))[|m|..] == tail + t;
    TailMeaning(tail, t, submethod);
  }

  /** The part of the string test after the method name. */
  lemma TailMeaning(tail: string, t: string, submethod: Option<string>)
    requires NoComma(tail) && (t == "" || t[0] == ',') && (submethod.Some? ==> NoComma(submethod.value))
    ensures tail == "" ==> tail + t == "" || (tail + t)[0] == ','
    ensures tail != "" ==> (tail + t)[0] == tail[0] != ','
    ensures submethod.Some? && ":" <= tail ==>
      var s, p := submethod.value, tail + t;
      && (s <= p[1..] <==> s <= tail[1..])
      && (s <= p[1..] ==> var q := p[1 + |s|..]; (q == "" || q[0] == ',' <==> tail == ":" + s))
  {
    if submethod.Some? && ":" <= tail {
      var s, rest := submethod.value, tail[1..];
      assert (tail + t)[1..] == rest + t && tail == ":" + rest;
      PrefixCut(rest, t, s);
      if s <= rest {
        assert (tail + t)[1 + |s|..] == rest[|s|..] + t;
        assert rest == s + rest[|s|..];
        assert rest[|s|..] != "" ==> rest[|s|] in tail;
      }
    }
  }

  lemma JoinTail(elems: seq<string>)
    requires elems != []
    ensures var t := if |elems| == 1 then "" else "," + Join(elems[1..]);
      Join(elems) == elems[0] + t && (t == "" || t[0] == ',')
  {
  }

  /** Removing a method from a stored list is advancing the list of its elements. */
  lemma RemoveAdvances(elems: seq<string>, r: Result)
    requires Elements(elems) && ProperResult(r)
    ensures RemoveMethod(Join(elems), r)
            == if elems != [] && Satisfies(r, elems[0]) then Some(Join(elems[1..])) else None
  {
    if elems == [] {
      assert !(r.method_ <= "");
    } else {
      hide RemoveMethod, Join;
      JoinTail(elems);
      assert Element(elems[0]);
      RemoveFirst(elems[0], if |elems| == 1 then "" else "," + Join(elems[1..]), r);
      NoneJoined();
      assert |elems| == 1 ==> elems[1..] == [];
    }
  }

  lemma NoneJoined()
    ensures Join([]) == ""
  {
  }

  /** The same with the rest of the list as text, behind its comma. */
  lemma RemoveFirst(e: string, t: string, r: Result)
    requires NoComma(e) && (t == "" || t[0] == ',') && ProperResult(r)
    ensures RemoveMethod(e + t, r) == if Satisfies(r, e) then Some(if t == "" then t else t[1..]) else None
  {
    hide ListStartsWith;
    StartsWithMeaning(e, t, r);
    if Satisfies(r, e) {
      assert (e + t)[|e|..] == t;
      if e != r.method_ {
        assert (e + t)[|r.method_|..][1 + |r.submethod.value|..] == t;
      }
    }
  }

  /** A stored list is empty exactly when none of its elements is left. */
  lemma JoinEmpty(elems: seq<string>)
    requires Elements(elems)
    ensures Join(elems) == "" <==> elems == []
  {
    if elems != [] {
      assert Element(elems[0]);
    }
  }

  // ---- Completion in order ----

  /** `at` picks results of the history, in order, that account for the elements one by one. */
  ghost predicate Embeds(elems: seq<string>, history: seq<Result>, at: seq<nat>) {
    && |at| == |elems|
    && (forall j :: 0 <= j < |at| ==> at[j] < |history| && Satisfies(history[at[j]], elems[j]))
    && (forall j, k :: 0 <= j < k < |at| ==> at[j] < at[k])
  }

  ghost predicate CompletedInOrder(elems: seq<string>, history: seq<Result>) {
    exists at :: Embeds(elems, history, at)
  }

  lemma {:induction false} RemainingIsSuffix(elems: seq<string>, history: seq<Result>)
    ensures |Remaining(elems, history)| <= |elems|
    ensures Remaining(elems, history) == elems[|elems| - |Remaining(elems, history)|..]
  {
    if history != [] {
      RemainingIsSuffix(elems, history[..|history| - 1]);
    }
  }

  /** The elements removed so far were accounted for, in order, by results of the history. */
  lemma {:induction false} RemovedWereSatisfied(elems: seq<string>, history: seq<Result>) returns (at: seq<nat>)
    ensures |Remaining(elems, history)| <= |elems|
    ensures Embeds(elems[..|elems| - |Remaining(elems, history)|], history, at)
  {
    hide Embeds, Satisfies, RemoveMethod;
    RemainingIsSuffix(elems, history);
    if history == [] {
      EmbedsNothing();
      at := [];
    } else {
      var n := |history| - 1;
      var before := Remaining(elems, history[..n]);
      RemainingIsSuffix(elems, history[..n]);
      at := RemovedWereSatisfied(elems, history[..n]);
      var k := |elems| - |before|;
      EmbedsLater(elems[..k], history, at);
      if before != [] && Satisfies(history[n], before[0]) {
        EmbedsOneMore(elems[..k], history, at, elems[k]);
        assert elems[..k + 1] == elems[..k] + [elems[k]];
        at := at + [n];
      }
    }
  }

  lemma EmbedsNothing()
    ensures Embeds([], [], [])
  {
  }

  lemma EmbedsLater(elems: seq<string>, history: seq<Result>, at: seq<nat>)
    requires history != [] && Embeds(elems, history[..|history| - 1], at)
    ensures Embeds(elems, history, at)
  {
    hide Satisfies;
  }

  lemma EmbedsOneMore(elems: seq<string>, history: seq<Result>, at: seq<nat>, e: string)
    requires history != [] && Embeds(elems, history[..|history| - 1], at)
    requires Satisfies(history[|history| - 1], e)
    ensures Embeds(elems + [e], history, at + [|history| - 1])
  {
    hide Satisfies;
  }

  /** Removing greedily loses nothing: `k` elements accounted for before `n` are `k` elements removed. */
  lemma {:induction false} GreedyKeepsUp(elems: seq<string>, history: seq<Result>, at: seq<nat>, n: nat, k: nat)
    requires Embeds(elems, history, at)
    requires n <= |history| && k <= |elems| && (k > 0 ==> at[k - 1] < n)
    ensures |Remaining(elems, history[..n])| <= |elems| - k
    decreases n
  {
    RemainingIsSuffix(elems, history[..n]);
    if k > 0 {
      assert history[..n][..n - 1] == history[..n - 1];
      var j := if at[k - 1] == n - 1 then k - 1 else k;
      GreedyKeepsUp(elems, history, at, n - 1, j);
      RemainingIsSuffix(elems, history[..n - 1]);
    }
  }

  /** A list is used up exactly when its elements can be found, in order, among the results. */
  lemma UsedUpMeansCompleted(elems: seq<string>, history: seq<Result>)
    ensures Remaining(elems, history) == [] <==> CompletedInOrder(elems, history)
  {
    if Remaining(elems, history) == [] {
      var at := RemovedWereSatisfied(elems, history);
      assert elems[..|elems|] == elems;
      assert Embeds(elems, history, at);
    }
    if CompletedInOrder(elems, history) {
      var at :| Embeds(elems, history, at);
      assert history[..|history|] == history;
      GreedyKeepsUp(elems, history, at, |history|, |elems|);
    }
  }
}
