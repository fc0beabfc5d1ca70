/**
 Library search paths: what `canonicalize_path` makes of a colon-separated list of directories, and
 for which lists the result is canonical.
 */
module SearchPathSpec {
  import opened Bytes
  import opened ArgzSpec

  const COLON: Byte := 58
  const SLASH: Byte := 47

  /** The bytes copied from `p`; `started` tells whether something was copied before. */
  function Canon(p: Text, started: bool): (r: Text)
    ensures |r| <= |p|
  {
    if p == [] then []
    else
      var rest := p[1..];
      if p[0] == COLON && (!started || rest == [] || rest[0] == COLON) then Canon(rest, started)
      else if p[0] != SLASH then [p[0]] + Canon(rest, true)
      else if rest != [] && rest[0] != COLON && rest[0] != SLASH then [SLASH] + Canon(rest, true)
      else Canon(rest, started)
  }

  /** No colon at the end or before another one, no slash at the end of an element or before another one. */
  predicate Shape(s: Text) {
    s != [] ==>
      var rest := s[1..];
      && (s[0] == COLON ==> rest != [] && rest[0] != COLON)
      && (s[0] == SLASH ==> rest != [] && rest[0] != COLON && rest[0] != SLASH)
      && Shape(rest)
  }

  predicate Canonical(s: Text) { Shape(s) && (s == [] || s[0] != COLON) }

  /** Exactly the canonical paths are left as they are. */
  lemma {:induction false} CanonFixes(s: Text, started: bool)
    ensures Canon(s, started) == s <==> Shape(s) && (started || s == [] || s[0] != COLON)
  {
    if s != [] {
      CanonFixes(s[1..], true);
      assert s == [s[0]] + s[1..];
      assert |Canon(s[1..], started)| < |s|;
    }
  }

  // ---- Elements ----

  /** An element with runs of slashes folded and slashes at the end dropped. */
  function Clean(e: Text): Text {
    if e == [] then []
    else if e[0] != SLASH then [e[0]] + Clean(e[1..])
    else if |e| > 1 && e[1] != SLASH then [SLASH] + Clean(e[1..])
    else Clean(e[1..])
  }

  predicate SlashesOnly(e: Text) { e != [] && forall i :: 0 <= i < |e| ==> e[i] == SLASH }

  predicate Names(e: Text) { exists i :: 0 <= i < |e| && e[i] != SLASH }

  /** No element of slashes alone comes after an element that names something. */
  predicate Sound(elems: seq<Text>) {
    forall i, j :: 0 <= i < j < |elems| && Names(elems[i]) ==> !SlashesOnly(elems[j])
  }

  /** The cleaned elements that are not empty, each behind a colon except one at the very front. */
  function Listed(elems: seq<Text>, started: bool): Text {
    if elems == [] then []
    else
      var e := Clean(elems[0]);
      if e == [] then Listed(elems[1..], started)
      else (if started then [COLON] else []) + e + Listed(elems[1..], true)
  }

  predicate NoColon(s: Text) { COLON !in s }

  function JoinColon(elems: seq<Text>): Text
    requires elems != []
  {
    if |elems| == 1 then elems[0] else elems[0] + ([COLON] + JoinColon(elems[1..]))
  }

  lemma {:induction false} CleanNames(e: Text)
    ensures Clean(e) != [] <==> Names(e)
    ensures NoColon(e) ==> NoColon(Clean(e))
  {
    if e != [] {
      CleanNames(e[1..]);
      assert forall i :: 1 <= i < |e| ==> e[i] == e[1..][i - 1];
      if Names(e) {
        var i :| 0 <= i < |e| && e[i] != SLASH;
        assert i > 0 ==> e[1..][i - 1] != SLASH;
        assert e[0] == SLASH ==> i > 0;
      }
      if e[0] != SLASH {
        assert Names(e);
      } else if |e| > 1 && e[1] != SLASH {
        assert Names(e);
      }
    }
  }

  lemma ColonCanon(x: Text, started: bool)
    ensures Canon([COLON] + x, started)
            == if !started || x == [] || x[0] == COLON then Canon(x, started) else [COLON] + Canon(x, true)
  {
    assert ([COLON] + x)[1..] == x;
  }

  predicate Ends(t: Text) { t == [] || t[0] == COLON }

  lemma CanonFirst(c: Byte, rest: Text, started: bool)
    ensures c != COLON && c != SLASH ==> Canon([c] + rest, started) == [c] + Canon(rest, true)
    ensures c == SLASH ==>
      Canon([c] + rest, started)
      == if rest != [] && rest[0] != COLON && rest[0] != SLASH then [SLASH] + Canon(rest, true)
         else Canon(rest, started)
  {
    assert ([c] + rest)[1..] == rest;
  }

  lemma NoColonParts(e: Text)
    requires NoColon(e) && e != []
    ensures e[0] != COLON && NoColon(e[1..]) && (|e| > 1 ==> e[1] != COLON)
  {
    assert e[0] in e && forall c :: c in e[1..] ==> c in e;
  }

  lemma CleanEmpty()
    ensures Clean([]) == []
  {
  }

  lemma CleanFirst(e: Text)
    requires e != []
    ensures var keeps := e[0] != SLASH || (|e| > 1 && e[1] != SLASH);
      Clean(e) == (if keeps then [e[0]] else []) + Clean(e[1..])
  {
  }

  /** An element is cleaned, whatever follows it. */
  lemma {:induction false} ElemCanon(e: Text, t: Text, started: bool)
    requires NoColon(e) && Ends(t)
    ensures Canon(e + t, started) == Clean(e) + Canon(t, started || Clean(e) != [])
    decreases |e|
  {
    hide Canon, NoColon, Clean;
    if e == [] {
      CleanEmpty();
      assert e + t == t;
    } else {
      var rest := e[1..] + t;
      assert e + t == [e[0]] + rest && (|e| > 1 ==> rest[0] == e[1]);
      NoColonParts(e);
      CanonFirst(e[0], rest, started);
      CleanFirst(e);
      ElemCanon(e[1..], t, e[0] != SLASH || (|e| > 1 && e[1] != SLASH) || started);
    }
  }

  ghost predicate NoColons(elems: seq<Text>) { forall e :: e in elems ==> NoColon(e) }

  /** What follows the first element. */
  function Behind(elems: seq<Text>): Text
    requires elems != []
  {
    if |elems| == 1 then [] else [COLON] + JoinColon(elems[1..])
  }

  /** One step along the elements, with the colon in front of the first one. */
  lemma FirstElem(elems: seq<Text>, started: bool)
    requires elems != [] && NoColons(elems)
    ensures var e, t := elems[0], Behind(elems);
      Canon([COLON] + JoinColon(elems), started)
      == if e == [] then Canon(t, started)
         else if started then [COLON] + (Clean(e) + Canon(t, true))
         else Clean(e) + Canon(t, Clean(e) != [])
    ensures NoColons(elems[1..])
    ensures |elems| == 1 ==> forall s :: Canon(Behind(elems), s) == []
  {
    var e, t := elems[0], Behind(elems);
    assert JoinColon(elems) == e + t by {
      assert |elems| == 1 ==> e + [] == e;
    }
    hide Canon, Clean, JoinColon;
    CanonNone();
    ColonCanon(e + t, started);
    if e == [] {
      assert e + t == t;
    } else {
      assert e[0] in e && (e + t)[0] == e[0];
      ElemCanon(e, t, true);
      ElemCanon(e, t, false);
    }
  }

  lemma CanonNone()
    ensures forall s :: Canon([], s) == []
  {
  }

  ghost predicate NoSlashesOnly(elems: seq<Text>) { forall e :: e in elems ==> !SlashesOnly(e) }

  lemma SoundParts(elems: seq<Text>)
    requires elems != []
    ensures Sound(elems) <==> Sound(elems[1..]) && (Names(elems[0]) ==> NoSlashesOnly(elems[1..]))
    ensures NoSlashesOnly(elems) <==> !SlashesOnly(elems[0]) && NoSlashesOnly(elems[1..])
  {
    hide Names, SlashesOnly;
    var rest := elems[1..];
    assert forall i :: 1 <= i < |elems| ==> elems[i] == rest[i - 1];
    assert elems == [elems[0]] + rest;
    if Sound(rest) && (Names(elems[0]) ==> NoSlashesOnly(rest)) {
      forall i, j | 0 <= i < j < |elems| && Names(elems[i]) ensures !SlashesOnly(elems[j]) {
        assert elems[j] == rest[j - 1];
      }
    }
    if Sound(elems) {
      forall i, j | 0 <= i < j < |rest| && Names(rest[i]) ensures !SlashesOnly(rest[j]) {
        assert rest[i] == elems[i + 1] && rest[j] == elems[j + 1];
      }
    }
  }

  lemma EmptyOrNamed(e: Text)
    ensures e == [] || Names(e) || SlashesOnly(e)
    ensures !(Names(e) && SlashesOnly(e)) && (e == [] ==> !Names(e) && !SlashesOnly(e))
  {
  }

  lemma ListedFirst(elems: seq<Text>, started: bool)
    ensures elems == [] ==> Listed(elems, started) == []
    ensures elems != [] ==>
      var e, rest := Clean(elems[0]), elems[1..];
      Listed(elems, started) == if e == [] then Listed(rest, started)
                                else if started then [COLON] + (e + Listed(rest, true)) else e + Listed(rest, true)
  {
    hide Clean;
  }

  /** A sound list is cleaned element by element. */
  lemma {:induction false} CanonLists(elems: seq<Text>, started: bool)
    requires elems != [] && NoColons(elems) && Sound(elems) && (started ==> NoSlashesOnly(elems))
    ensures Canon([COLON] + JoinColon(elems), started) == Listed(elems, started)
    decreases |elems|
  {
    hide Canon, Clean, JoinColon, Listed, Sound, Names, SlashesOnly, NoSlashesOnly, NoColons, NoColon;
    FirstElem(elems, started);
    SoundParts(elems);
    CleanNames(elems[0]);
    EmptyOrNamed(elems[0]);
    ListedFirst(elems, started);
    ListedFirst([], started);
    ListedFirst([], true);
    if |elems| > 1 {
      CanonLists(elems[1..], if elems[0] == [] then started else started || Clean(elems[0]) != []);
    } else {
      assert elems[1..] == [];
    }
  }

  // ---- Where the list is not sound ----

  lemma {:induction false} ShapeOfSuffix(a: Text, b: Text)
    requires Shape(a + b)
    ensures Shape(b)
    decreases |a|
  {
    if a == [] {
      assert a + b == b;
    } else {
      assert (a + b)[1..] == a[1..] + b;
      ShapeOfSuffix(a[1..], b);
    }
  }

  lemma BadColon(t: Text)
    requires Ends(t)
    ensures !Shape([COLON] + t)
  {
    assert ([COLON] + t)[1..] == t;
  }

  lemma {:induction false} GoesOnWithColon(elems: seq<Text>)
    requires elems != [] && NoColons(elems)
    ensures Ends(Canon([COLON] + JoinColon(elems), true))
    decreases |elems|
  {
    hide Canon, Clean, JoinColon, NoColons;
    FirstElem(elems, true);
    if |elems| > 1 {
      GoesOnWithColon(elems[1..]);
    }
  }

  /** An element of slashes alone leaves a colon too many, once something was copied. */
  lemma {:induction false} LooseColon(elems: seq<Text>)
    requires elems != [] && NoColons(elems) && !NoSlashesOnly(elems)
    ensures !Shape(Canon([COLON] + JoinColon(elems), true))
    decreases |elems|
  {
    hide Canon, Clean, JoinColon, NoColons, Names, SlashesOnly, NoSlashesOnly, Shape;
    FirstElem(elems, true);
    SoundParts(elems);
    EmptyOrNamed(elems[0]);
    CleanNames(elems[0]);
    var t := Canon(Behind(elems), true);
    if |elems| > 1 {
      GoesOnWithColon(elems[1..]);
    }
    if SlashesOnly(elems[0]) {
      assert [] + t == t;
      BadColon(t);
    } else {
      NoneLeft(elems);
      LooseColon(elems[1..]);
      if elems[0] != [] && Shape([COLON] + (Clean(elems[0]) + t)) {
        ShapeOfSuffix([COLON], Clean(elems[0]) + t);
        ShapeOfSuffix(Clean(elems[0]), t);
      }
    }
  }

  lemma NoneLeft(elems: seq<Text>)
    requires elems != [] && (!NoSlashesOnly(elems[1..]) || !Sound(elems[1..]))
    ensures |elems| > 1
  {
  }

  lemma {:induction false} UnsoundIsLoose(elems: seq<Text>)
    requires elems != [] && NoColons(elems) && !Sound(elems)
    ensures !Shape(Canon([COLON] + JoinColon(elems), false))
    decreases |elems|
  {
    hide Canon, Clean, JoinColon, NoColons, Names, SlashesOnly, NoSlashesOnly, Shape, Sound;
    FirstElem(elems, false);
    SoundParts(elems);
    EmptyOrNamed(elems[0]);
    CleanNames(elems[0]);
    NoneLeft(elems);
    var t := Canon(Behind(elems), Clean(elems[0]) != []);
    if Names(elems[0]) {
      if NoSlashesOnly(elems[1..]) {
        SoundWithout(elems[1..]);
      }
      LooseColon(elems[1..]);
      if Shape(Clean(elems[0]) + t) {
        ShapeOfSuffix(Clean(elems[0]), t);
      }
    } else {
      UnsoundIsLoose(elems[1..]);
      assert [] + t == t;
    }
  }

  lemma SoundWithout(elems: seq<Text>)
    requires NoSlashesOnly(elems)
    ensures Sound(elems)
  {
    hide SlashesOnly, Names;
  }

  // ---- Where it is ----

  lemma {:induction false} CleanShape(e: Text, t: Text)
    requires NoColon(e) && Ends(t) && Shape(t)
    ensures Shape(Clean(e) + t)
    ensures Clean(e) != [] ==> (Clean(e) + t)[0] == Clean(e)[0] != COLON
    decreases |e|
  {
    if e == [] {
      assert [] + t == t;
    } else {
      assert e[0] in e && forall c :: c in e[1..] ==> c in e;
      CleanShape(e[1..], t);
      CleanNames(e[1..]);
      ConsShape(e, t);
    }
  }

  lemma {:induction false} ConsShape(e: Text, t: Text)
    requires e != [] && NoColon(e) && NoColon(e[1..]) && Shape(Clean(e[1..]) + t)
    requires Names(e[1..]) ==> Clean(e[1..]) != []
    requires Clean(e[1..]) != [] ==> Clean(e[1..])[0] != COLON
    ensures Shape(Clean(e) + t)
    ensures Clean(e) != [] ==> Clean(e)[0] != COLON
  {
    var c := Clean(e[1..]);
    assert e[0] in e;
    assert ([e[0]] + c + t)[1..] == c + t && ([SLASH] + c + t)[1..] == c + t;
    if e[0] == SLASH && |e| > 1 && e[1] != SLASH {
      assert e[1] in e && e[1..][0] == e[1];
      assert c[0] == e[1];
      assert (c + t)[0] == e[1];
    }
  }

  lemma {:induction false} ListedShape(elems: seq<Text>, started: bool)
    requires NoColons(elems)
    ensures Shape(Listed(elems, started))
    ensures if started then Ends(Listed(elems, started)) else Canonical(Listed(elems, started))
    decreases |elems|
  {
    hide Clean, Listed, NoColon;
    ListedFirst(elems, started);
    if elems != [] {
      var e, t := elems[0], Listed(elems[1..], true);
      ListedShape(elems[1..], true);
      ListedShape(elems[1..], started);
      CleanShape(e, t);
      assert ([COLON] + (Clean(e) + t))[1..] == Clean(e) + t;
    }
  }

  // ---- The whole path ----

  function Elements(p: Text): (r: seq<Text>)
    ensures r != []
  {
    Split(p, COLON)
  }

  lemma JoinFirst(e: Text, rest: seq<Text>)
    ensures JoinColon([e] + rest) == if rest == [] then e else e + ([COLON] + JoinColon(rest))
  {
    assert ([e] + rest)[1..] == rest;
  }

  lemma NoColonsFirst(e: Text, rest: seq<Text>)
    ensures NoColons([e] + rest) <==> NoColon(e) && NoColons(rest)
  {
    assert forall d :: d in [e] + rest <==> d == e || d in rest;
    assert e in [e] + rest;
    hide NoColon;
  }

  lemma NoColonCons(c: Byte, e: Text)
    requires c != COLON && NoColon(e)
    ensures NoColon([c] + e)
  {
  }

  lemma ElementsNone()
    ensures var none: Text := []; Elements([]) == [none] && JoinColon([none]) == [] && NoColons([none])
  {
  }

  lemma {:induction false} JoinOfElements(p: Text)
    ensures JoinColon(Elements(p)) == p && NoColons(Elements(p))
  {
    hide Split, JoinColon, NoColon, NoColons;
    ElementsNone();
    if p != [] {
      var ps, rest := Elements(p), Elements(p[1..]);
      SplitFirst(p, COLON);
      JoinOfElements(p[1..]);
      JoinFirst(ps[0], ps[1..]);
      JoinFirst(rest[0], rest[1..]);
      NoColonsFirst(ps[0], ps[1..]);
      NoColonsFirst(rest[0], rest[1..]);
      assert p == [p[0]] + p[1..];
      if p[0] != COLON {
        NoColonCons(p[0], rest[0]);
      } else {
        NoColonNone();
        assert [] + ([COLON] + JoinColon(rest)) == [COLON] + JoinColon(rest);
      }
    }
  }

  lemma NoColonNone()
    ensures NoColon([])
  {
  }

  /**
   The result is canonical, and canonicalizing it again leaves it as it is, exactly when no element
   of slashes alone comes after an element that names something.
   */
  lemma CanonicalExactly(p: Text)
    ensures var c, elems := Canon(p, false), Elements(p);
      && (Canonical(c) <==> Sound(elems))
      && (Canon(c, false) == c <==> Sound(elems))
      && (Sound(elems) ==> c == Listed(elems, false))
  {
    hide Canon, Shape, Sound, Listed, Elements, JoinColon, NoColons;
    var c, elems := Canon(p, false), Elements(p);
    JoinOfElements(p);
    ColonCanon(p, false);
    CanonFixes(c, false);
    if Sound(elems) {
      CanonLists(elems, false);
      ListedShape(elems, false);
    } else {
      UnsoundIsLoose(elems);
    }
  }

  /** The colon of "a:/:b" is copied twice. */
  lemma UnsoundExample()
    ensures Canon([97, COLON, SLASH, COLON, 98], false) == [97, COLON, COLON, 98]
    ensures Canon([97, COLON, COLON, 98], false) == [97, COLON, 98]
  {
    assert Canon([98], true) == [98];
    assert Canon([COLON, 98], true) == [COLON, 98];
    assert Canon([SLASH, COLON, 98], true) == [COLON, 98];
    assert Canon([COLON, SLASH, COLON, 98], true) == [COLON, COLON, 98];
    assert Canon([COLON, COLON, 98], true) == [COLON, 98];
  }

  // ---- The elements of a canonical path ----

  /** The directories that a path names: its cleaned elements, less the empty ones. */
  function Kept(elems: seq<Text>): seq<Text> {
    if elems == [] then []
    else (if Clean(elems[0]) == [] then [] else [Clean(elems[0])]) + Kept(elems[1..])
  }

  lemma {:induction false} KeptProper(elems: seq<Text>)
    requires NoColons(elems)
    ensures forall e :: e in Kept(elems) ==> e != [] && NoColon(e)
    ensures Kept(elems) != [] <==> exists i :: 0 <= i < |elems| && Names(elems[i])
  {
    hide Names, NoColon;
    if elems != [] {
      CleanNames(elems[0]);
      KeptProper(elems[1..]);
      assert elems[0] in elems;
      assert forall i :: 1 <= i < |elems| ==> elems[i] == elems[1..][i - 1];
      if i :| 0 <= i < |elems| && Names(elems[i]) {
        assert i > 0 ==> Names(elems[1..][i - 1]);
      }
    }
  }

  lemma {:induction false} ListedJoins(elems: seq<Text>)
    ensures Listed(elems, true) == if Kept(elems) == [] then [] else [COLON] + JoinColon(Kept(elems))
    ensures Listed(elems, false) == if Kept(elems) == [] then [] else JoinColon(Kept(elems))
  {
    hide Clean, JoinColon, Listed;
    ListedFirst(elems, true);
    ListedFirst(elems, false);
    if elems != [] {
      ListedJoins(elems[1..]);
      JoinFirst(Clean(elems[0]), Kept(elems[1..]));
      var e, ks := Clean(elems[0]), Kept(elems[1..]);
      assert e + [] == e && Kept(elems) == if e == [] then ks else [e] + ks;
    }
  }

  lemma {:induction false} SplitPrefix(e: Text, t: Text)
    requires NoColon(e)
    ensures Split(e, COLON) == [e]
    ensures Split(e + ([COLON] + t), COLON) == [e] + Split(t, COLON)
  {
    var s := e + ([COLON] + t);
    if e == [] {
      assert s[1..] == t;
    } else {
      hide Split;
      assert e[0] in e && forall c :: c in e[1..] ==> c in e;
      assert s[1..] == e[1..] + ([COLON] + t) && e == [e[0]] + e[1..];
      SplitFirst(s, COLON);
      SplitFirst(e, COLON);
      SplitPrefix(e[1..], t);
    }
  }

  lemma {:induction false} SplitOfJoin(elems: seq<Text>)
    requires elems != [] && NoColons(elems)
    ensures Elements(JoinColon(elems)) == elems
  {
    hide Split, JoinColon, NoColon;
    var e, rest := elems[0], elems[1..];
    assert elems == [e] + rest && e in elems;
    JoinFirst(e, rest);
    if rest == [] {
      SplitPrefix(e, []);
    } else {
      SplitPrefix(e, JoinColon(rest));
      SplitOfJoin(rest);
    }
  }

  lemma {:induction false} PlainOfShape(s: Text, mid: bool)
    requires Shape(s) && (mid || (s != [] && s[0] != COLON))
    ensures Plain(s, COLON, mid)
  {
    if s != [] {
      PlainOfShape(s[1..], s[0] != COLON);
    }
  }

  lemma {:induction false} CanonSubset(p: Text, started: bool)
    ensures forall c :: c in Canon(p, started) ==> c in p
  {
    if p != [] {
      CanonSubset(p[1..], started);
      CanonSubset(p[1..], true);
    }
  }

  // ---- The directories of any path ----

  ghost predicate AllEmpty(elems: seq<Text>) { forall e :: e in elems ==> e == [] }

  /** Some element is not empty, and the last of these names something. */
  ghost predicate LastNames(elems: seq<Text>) {
    exists i :: 0 <= i < |elems| && Names(elems[i]) && AllEmpty(elems[i + 1..])
  }

  lemma LastNamesFirst(elems: seq<Text>)
    requires elems != []
    ensures LastNames(elems) <==> if AllEmpty(elems[1..]) then Names(elems[0]) else LastNames(elems[1..])
    ensures AllEmpty(elems) <==> elems[0] == [] && AllEmpty(elems[1..])
    ensures AllEmpty(elems) ==> !LastNames(elems)
  {
    hide Names, AllEmpty;
    AllEmptyFirst(elems);
    var rest := elems[1..];
    if LastNames(elems) {
      var i :| 0 <= i < |elems| && Names(elems[i]) && AllEmpty(elems[i + 1..]);
      if i > 0 {
        assert elems[i] == rest[i - 1] && elems[i + 1..] == rest[i..];
        NamesRules(rest, i - 1);
      }
      NamesRules(elems, i);
    }
    if !AllEmpty(rest) && LastNames(rest) {
      var i :| 0 <= i < |rest| && Names(rest[i]) && AllEmpty(rest[i + 1..]);
      assert elems[i + 1] == rest[i] && elems[i + 2..] == rest[i + 1..];
    }
    if AllEmpty(rest) && Names(elems[0]) {
      assert elems[0 + 1..] == rest;
    }
  }

  lemma AllEmptyFirst(elems: seq<Text>)
    requires elems != []
    ensures AllEmpty(elems) <==> elems[0] == [] && AllEmpty(elems[1..])
  {
    assert elems[0] in elems && forall e :: e in elems[1..] ==> e in elems;
    assert forall e :: e in elems ==> e == elems[0] || e in elems[1..];
  }

  lemma NamesRules(elems: seq<Text>, i: nat)
    requires i < |elems| && Names(elems[i])
    ensures !AllEmpty(elems)
  {
    assert elems[i] in elems;
  }

  lemma SplitColon(x: Text)
    ensures NonEmpty(Split([COLON] + x, COLON)) == NonEmpty(Split(x, COLON))
  {
    SplitPrefix([], x);
    assert [] + ([COLON] + x) == [COLON] + x;
    var none, ps: seq<Text> := [[]], Split(x, COLON);
    assert (none + ps)[1..] == ps && [] + NonEmpty(ps) == NonEmpty(ps);
  }

  /** An element in front of the end or of a colon is a piece of its own. */
  lemma SplitElem(e: Text, u: Text)
    requires NoColon(e) && Ends(u)
    ensures NonEmpty(Split(e + u, COLON)) == (if e == [] then [] else [e]) + NonEmpty(Split(u, COLON))
  {
    hide Split, NoColon;
    NoColonNone();
    SplitPrefix(e, u);
    SplitPrefix([], u);
    NonEmptyFirst(e, []);
    NonEmptyFirst([], []);
    if u == [] {
      assert e + u == e;
    } else {
      var t := u[1..];
      assert u == [COLON] + t;
      SplitPrefix(e, t);
      SplitColon(t);
      NonEmptyFirst(e, Split(t, COLON));
    }
  }

  lemma NonEmptyFirst(e: Text, rest: seq<Text>)
    ensures NonEmpty([e] + rest) == (if e == [] then [] else [e]) + NonEmpty(rest)
    ensures NonEmpty([e]) == if e == [] then [] else [e]
  {
    assert ([e] + rest)[1..] == rest;
  }

  lemma KeptFirst(elems: seq<Text>)
    requires elems != []
    ensures Kept(elems) == (if Clean(elems[0]) == [] then [] else [Clean(elems[0])]) + Kept(elems[1..])
    ensures Kept([]) == []
  {
  }

  /** Splitting the canonical form gives the directories, however many colons are left between them. */
  lemma {:induction false} PiecesKept(elems: seq<Text>, started: bool)
    requires elems != [] && NoColons(elems)
    ensures NonEmpty(Split(Canon([COLON] + JoinColon(elems), started), COLON)) == Kept(elems)
    decreases |elems|
  {
    hide Canon, Clean, JoinColon, Split, Kept, NoColons, NoColon, NonEmpty;
    var e := Clean(elems[0]);
    var next := if elems[0] == [] then started else started || e != [];
    var u := Canon(Behind(elems), next);
    FirstElem(elems, started);
    CleanBasics(elems[0], elems);
    KeptFirst(elems);
    PiecesNone();
    if |elems| > 1 {
      PiecesKept(elems[1..], next);
      if next {
        GoesOnWithColon(elems[1..]);
      }
    } else {
      assert elems[1..] == [];
    }
    if e == [] {
      assert e + u == u;
    } else {
      SplitElem(e, u);
    }
    SplitColon(e + u);
    assert [] + Kept(elems[1..]) == Kept(elems[1..]);
  }

  lemma PiecesNone()
    ensures NonEmpty(Split([], COLON)) == []
  {
  }

  lemma CleanBasics(e: Text, elems: seq<Text>)
    requires e in elems && NoColons(elems)
    ensures NoColon(e) && NoColon(Clean(e))
    ensures e == [] ==> Clean(e) == []
    ensures Clean(e) != [] <==> Names(e)
    ensures Names(e) ==> e != [] && Clean(e)[|Clean(e)| - 1] != COLON
  {
    CleanNames(e);
    if Names(e) {
      assert Clean(e)[|Clean(e)| - 1] in Clean(e);
    }
  }

  predicate OpenEnd(s: Text) { s == [] || s[|s| - 1] == COLON }

  lemma EndOf(e: Text, u: Text)
    ensures OpenEnd(e + u) <==> if u == [] then OpenEnd(e) else OpenEnd(u)
    ensures OpenEnd([COLON] + e) <==> OpenEnd(e)
  {
    assert u == [] ==> e + u == e;
  }

  /** The canonical form is empty or ends with a colon exactly when the last element that is not empty names nothing. */
  lemma {:induction false} EndsOpen(elems: seq<Text>, started: bool)
    requires elems != [] && NoColons(elems)
    ensures var c := Canon([COLON] + JoinColon(elems), started);
      && (OpenEnd(c) <==> !LastNames(elems))
      && (started ==> (c == [] <==> AllEmpty(elems)))
    decreases |elems|
  {
    hide Canon, Clean, JoinColon, NoColons, NoColon, AllEmpty, LastNames, Names;
    var e := Clean(elems[0]);
    var next := if elems[0] == [] then started else started || e != [];
    var u := Canon(Behind(elems), next);
    FirstElem(elems, started);
    CleanBasics(elems[0], elems);
    LastNamesFirst(elems);
    NothingEmpty();
    if |elems| > 1 {
      EndsOpen(elems[1..], next);
    } else {
      assert elems[1..] == [];
    }
    EndOf(e, u);
    EndOf(e + u, []);
    if e == [] && |elems| > 1 {
      LastNamesFirst(elems[1..]);
    }
  }

  lemma NothingEmpty()
    ensures AllEmpty([]) && OpenEnd([])
  {
  }

  /** The entries that the walk over a path goes through. */
  ghost function Visited(p: Text): seq<Text> {
    Kept(Elements(p)) + if LastNames(Elements(p)) then [] else [[]]
  }

  /**
   For every path the vector holds just its directories, and behind them one empty name unless the
   last element that is not empty names something.
   */
  lemma DirectoriesOfPath(p: Text)
    requires NulFree(p)
    ensures Separated(Canon(p, false), COLON, false) == Encode(Visited(p))
    ensures NulFree(Canon(p, false)) && AllNulFree(Visited(p))
    ensures [] in Visited(p) <==> !LastNames(Elements(p))
    ensures forall d :: d in Kept(Elements(p)) ==> d != []
  {
    hide Canon, Elements, JoinColon, NoColon, NoColons, Split, Encode, Separated, Names, Kept, NonEmpty, LastNames,
         NulFree;
    var c, elems := Canon(p, false), Elements(p);
    JoinOfElements(p);
    ColonCanon(p, false);
    PiecesKept(elems, false);
    EndsOpen(elems, false);
    SeparatedMeaning(c, COLON);
    KeptProper(elems);
    CanonNulFree(p);
    SplitNulFree(c, COLON);
    PiecesNulFree(Split(c, COLON));
    NoColonNone();
  }

  lemma CanonNulFree(p: Text)
    requires NulFree(p)
    ensures NulFree(Canon(p, false)) && NulFree([])
  {
    CanonSubset(p, false);
  }

  lemma {:induction false} PiecesNulFree(pieces: seq<Text>)
    requires AllNulFree(pieces)
    ensures AllNulFree(NonEmpty(pieces))
  {
    hide NulFree;
    if pieces != [] {
      PiecesNulFree(pieces[1..]);
      assert pieces[0] in pieces;
    }
  }

  /** A sound path that names something: stringifying the vector of its directories gives the canonical form back. */
  lemma StringifiedPath(p: Text)
    requires NulFree(p) && Sound(Elements(p)) && exists e :: e in Elements(p) && Names(e)
    ensures var c := Canon(p, false);
      Stringified(Separated(c, COLON, false), COLON) == c + [0] && Elements(c) == Kept(Elements(p))
  {
    hide Canon, Shape, Sound, Listed, Elements, JoinColon, NoColon, Split, Encode, Separated, Names, Kept, NulFree;
    var c, dirs := Canon(p, false), Kept(Elements(p));
    CanonicalExactly(p);
    JoinOfElements(p);
    KeptProper(Elements(p));
    NamedElement(Elements(p));
    ListedJoins(Elements(p));
    SplitOfJoin(dirs);
    CanonNulFree(p);
    JoinNonempty(dirs);
    PlainOfShape(c, false);
    SplitAndStringify(c, COLON);
  }

  lemma NamedElement(elems: seq<Text>)
    requires exists e :: e in elems && Names(e)
    ensures exists i :: 0 <= i < |elems| && Names(elems[i])
  {
    hide Names;
  }

  lemma JoinNonempty(elems: seq<Text>)
    requires elems != [] && forall e :: e in elems ==> e != []
    ensures JoinColon(elems) != []
  {
    assert elems[0] in elems;
  }

  lemma {:induction false} SplitNulFree(s: Text, delim: Byte)
    requires NulFree(s)
    ensures AllNulFree(Split(s, delim))
  {
    if s != [] {
      var ps, rest := Split(s, delim), Split(s[1..], delim);
      assert s[0] in s && forall c :: c in s[1..] ==> c in s;
      SplitNulFree(s[1..], delim);
      SplitFirst(s, delim);
      hide Split;
      assert rest[0] in rest && forall e :: e in ps[1..] ==> e in rest;
      assert NulFree(rest[0]);
    }
  }
}
