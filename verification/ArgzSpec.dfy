/** argz vectors: byte arrays that hold a list of strings, each with its terminating NUL. */
module ArgzSpec {
  import opened Bytes

  type Text = seq<Byte>

  function Encode(entries: seq<Text>): seq<Byte> {
    if entries == [] then [] else entries[0] + [0] + Encode(entries[1..])
  }

  /** The strings found by going from NUL to NUL. */
  function Entries(s: seq<Byte>): seq<Text>
    decreases |s|
  {
    if s == [] then []
    else
      var n := StrLen(s, 0);
      [s[..n]] + if n < |s| then Entries(s[n + 1..]) else []
  }

  ghost predicate AllNulFree(entries: seq<Text>) { forall e :: e in entries ==> NulFree(e) }

  lemma EncodeFirst(e: Text, rest: seq<Text>)
    ensures Encode([e] + rest) == e + [0] + Encode(rest)
  {
    assert ([e] + rest)[1..] == rest;
  }

  lemma EntriesFirst(e: Text, s: seq<Byte>)
    requires NulFree(e)
    ensures Entries(e + [0] + s) == [e] + Entries(s)
  {
    var t := e + [0] + s;
    assert t[0..|e|] == e;
    StrLenOfText(t, 0, e);
    assert t[..|e|] == e && t[|e| + 1..] == s;
    hide StrLen, NulFree;
  }

  /** An argz vector determines its strings. */
  lemma {:induction false} EntriesOfEncode(entries: seq<Text>)
    requires AllNulFree(entries)
    ensures Entries(Encode(entries)) == entries
  {
    hide Entries, Encode, NulFree;
    if entries == [] {
      NoEntries();
    } else {
      var e, rest := entries[0], entries[1..];
      EncodeFirst(e, rest);
      assert [e] + rest == entries;
      EntriesFirst(e, Encode(rest));
      EntriesOfEncode(rest);
    }
  }

  lemma NoEntries()
    ensures Encode([]) == [] && Entries([]) == []
  {
  }

  lemma {:induction false} EncodeAppend(a: seq<Text>, b: seq<Text>)
    ensures Encode(a + b) == Encode(a) + Encode(b)
  {
    hide Encode;
    NoEntries();
    if a == [] {
      assert a + b == b;
    } else {
      assert a == [a[0]] + a[1..] && a + b == [a[0]] + (a[1..] + b);
      EncodeFirst(a[0], a[1..]);
      EncodeFirst(a[0], a[1..] + b);
      EncodeAppend(a[1..], b);
    }
  }

  /** Where entry `k` begins; the length of the vector for the one past the last. */
  function Offset(entries: seq<Text>, k: nat): nat
    requires k <= |entries|
  {
    |Encode(entries[..k])|
  }

  /** Entry `k` is found at its offset, and the next one begins behind its terminator. */
  lemma EntryAt(entries: seq<Text>, k: nat)
    requires AllNulFree(entries) && k < |entries|
    ensures var s, at := Encode(entries), Offset(entries, k);
      && at < |s| && at + StrLen(s, at) < |s| && s[at..at + StrLen(s, at)] == entries[k]
      && StrLen(s, at) == |entries[k]|
      && Offset(entries, k + 1) == at + |entries[k]| + 1 <= |s|
      && (Offset(entries, k + 1) == |s| <==> k + 1 == |entries|)
  {
    hide StrLen, Encode, NulFree;
    var s, at := Encode(entries), Offset(entries, k);
    EntrySplit(entries, k);
    TextInside(Encode(entries[..k]), entries[k], Encode(entries[k + 1..]));
    StrLenOfText(s, at, entries[k]);
    EncodeEmpty(entries[k + 1..]);
  }

  lemma EntrySplit(entries: seq<Text>, k: nat)
    requires k < |entries|
    ensures Encode(entries) == Encode(entries[..k]) + (entries[k] + [0] + Encode(entries[k + 1..]))
    ensures Encode(entries[..k + 1]) == Encode(entries[..k]) + (entries[k] + [0])
  {
    hide Encode;
    Around(entries, k);
    EncodeAppend(entries[..k], [entries[k]] + entries[k + 1..]);
    EncodeAppend(entries[..k], [entries[k]]);
    EncodeFirst(entries[k], entries[k + 1..]);
    EncodeOne(entries[k]);
  }

  lemma Around(entries: seq<Text>, k: nat)
    requires k < |entries|
    ensures entries == entries[..k] + ([entries[k]] + entries[k + 1..])
    ensures entries[..k + 1] == entries[..k] + [entries[k]]
  {
  }

  lemma EncodeOne(e: Text)
    ensures Encode([e]) == e + [0]
  {
    EncodeFirst(e, []);
    assert [e] + [] == [e];
  }

  lemma TextInside(a: seq<Byte>, e: Text, b: seq<Byte>)
    ensures var s := a + (e + [0] + b);
      |a| + |e| < |s| && s[|a|..|a| + |e|] == e && s[|a| + |e|] == 0
  {
  }

  lemma EncodeEmpty(entries: seq<Text>)
    ensures Encode(entries) == [] <==> entries == []
  {
  }

  // ---- Names in order ----

  /** `strcmp`, on unsigned bytes. */
  function Strcmp(a: Text, b: Text): int {
    if a == [] && b == [] then 0
    else if a == [] then -(b[0] as int)
    else if b == [] then a[0]
    else if a[0] != b[0] then a[0] - b[0]
    else Strcmp(a[1..], b[1..])
  }

  lemma {:induction false} StrcmpOrder(a: Text, b: Text)
    requires NulFree(a) && NulFree(b)
    ensures Strcmp(a, b) == 0 <==> a == b
    ensures Strcmp(a, b) == -Strcmp(b, a)
  {
    if a != [] && b != [] {
      StrcmpOrder(a[1..], b[1..]);
      assert a == [a[0]] + a[1..] && b == [b[0]] + b[1..];
    }
  }

  /** Alphabetic order on unsigned bytes: a shorter text first, or the smaller byte where two texts part. */
  ghost predicate Before(a: Text, b: Text) {
    a < b || exists i: nat :: PartAt(a, b, i)
  }

  lemma {:induction false} StrcmpMeaning(a: Text, b: Text)
    requires NulFree(b)
    ensures Strcmp(a, b) < 0 <==> Before(a, b)
  {
    if a == [] || b == [] {
      assert b != [] ==> b[0] in b;
    } else if a[0] != b[0] {
      PartAtOnce(a, b);
    } else {
      StrcmpMeaning(a[1..], b[1..]);
      BeforeTail(a, b);
    }
  }

  lemma PartAtOnce(a: Text, b: Text)
    requires a != [] && b != [] && a[0] != b[0]
    ensures Before(a, b) <==> a[0] < b[0]
  {
    assert PartAt(a, b, 0) <==> a[0] < b[0];
    forall i: nat | 0 < i <= |a| && i <= |b| ensures a[..i] != b[..i] {
      assert a[..i][0] == a[0] && b[..i][0] == b[0];
    }
  }

  /** The two texts part at `i`, and `a` goes on with the smaller byte. */
  predicate PartAt(a: Text, b: Text, i: nat) { i < |a| && i < |b| && a[..i] == b[..i] && a[i] < b[i] }

  lemma PartTail(a: Text, b: Text, i: nat)
    requires a != [] && b != [] && a[0] == b[0]
    ensures PartAt(a, b, i + 1) <==> PartAt(a[1..], b[1..], i)
  {
    if i < |a[1..]| && i < |b[1..]| {
      assert a[..i + 1] == [a[0]] + a[1..][..i] && b[..i + 1] == [b[0]] + b[1..][..i];
      assert a[..i + 1][1..] == a[1..][..i] && b[..i + 1][1..] == b[1..][..i];
    }
  }

  lemma PrefixTail(a: Text, b: Text)
    requires a != [] && b != [] && a[0] == b[0]
    ensures a < b <==> a[1..] < b[1..]
  {
    assert a == [a[0]] + a[1..] && b == [b[0]] + b[1..];
  }

  lemma BeforeTail(a: Text, b: Text)
    requires a != [] && b != [] && a[0] == b[0]
    ensures Before(a, b) <==> Before(a[1..], b[1..])
  {
    PrefixTail(a, b);
    if i: nat :| PartAt(a, b, i) {
      PartTail(a, b, i - 1);
    }
    if i: nat :| PartAt(a[1..], b[1..], i) {
      PartTail(a, b, i);
    }
  }

  lemma {:induction false} StrcmpTransitive(a: Text, b: Text, c: Text)
    requires NulFree(a) && NulFree(b) && NulFree(c) && Strcmp(a, b) < 0 && Strcmp(b, c) < 0
    ensures Strcmp(a, c) < 0
  {
    if a != [] && b != [] && c != [] && a[0] == b[0] == c[0] {
      StrcmpTransitive(a[1..], b[1..], c[1..]);
    }
  }

  ghost predicate Increasing(names: seq<Text>) {
    forall i, j :: 0 <= i < j < |names| ==> Strcmp(names[i], names[j]) < 0
  }

  /** What `lt_argz_insertinorder` makes of a list of names. */
  function Insert(names: seq<Text>, x: Text): seq<Text> {
    if names == [] then [x]
    else
      var cmp := Strcmp(x, names[0]);
      if cmp < 0 then [x] + names
      else if cmp == 0 then names
      else [names[0]] + Insert(names[1..], x)
  }

  lemma IncreasingCons(x: Text, names: seq<Text>)
    requires Increasing(names) && forall y :: y in names ==> Strcmp(x, y) < 0
    ensures Increasing([x] + names)
  {
    hide Strcmp;
  }

  lemma IncreasingTail(names: seq<Text>)
    requires Increasing(names) && names != []
    ensures Increasing(names[1..]) && forall y :: y in names[1..] ==> Strcmp(names[0], y) < 0
  {
    hide Strcmp;
  }

  lemma {:induction false} InsertKeepsOrder(names: seq<Text>, x: Text)
    requires AllNulFree(names) && NulFree(x) && Increasing(names)
    ensures Increasing(Insert(names, x)) && AllNulFree(Insert(names, x))
    ensures forall y :: y in Insert(names, x) <==> y in names || y == x
  {
    hide Strcmp, NulFree, Increasing;
    if names == [] {
      One(x);
    } else {
      var first, rest := names[0], names[1..];
      assert names == [first] + rest;
      IncreasingTail(names);
      StrcmpOrder(x, first);
      if Strcmp(x, first) < 0 {
        forall y | y in names ensures Strcmp(x, y) < 0 {
          if y != first {
            StrcmpTransitive(x, first, y);
          }
        }
        IncreasingCons(x, names);
      } else if Strcmp(x, first) > 0 {
        InsertKeepsOrder(rest, x);
        IncreasingCons(first, Insert(rest, x));
      }
    }
  }

  lemma One(x: Text)
    ensures Increasing([x]) && Increasing([])
  {
  }

  function InsertAll(xs: seq<Text>): seq<Text> {
    if xs == [] then [] else Insert(InsertAll(xs[..|xs| - 1]), xs[|xs| - 1])
  }

  /** Any series of insertions leaves exactly the distinct names, in strictly increasing order. */
  lemma {:induction false} InsertedInOrder(xs: seq<Text>)
    requires AllNulFree(xs)
    ensures Increasing(InsertAll(xs)) && AllNulFree(InsertAll(xs))
    ensures forall y :: y in InsertAll(xs) <==> y in xs
    ensures Entries(Encode(InsertAll(xs))) == InsertAll(xs)
    ensures forall i, j :: 0 <= i < j < |InsertAll(xs)| ==> Before(InsertAll(xs)[i], InsertAll(xs)[j])
  {
    hide Before, Strcmp, NulFree, Insert, Increasing, Entries, Encode;
    if xs == [] {
      One([]);
    } else {
      var front, x := xs[..|xs| - 1], xs[|xs| - 1];
      assert xs == front + [x];
      InsertedInOrder(front);
      InsertKeepsOrder(InsertAll(front), x);
    }
    EntriesOfEncode(InsertAll(xs));
    IncreasingIsBefore(InsertAll(xs));
  }

  lemma IncreasingIsBefore(names: seq<Text>)
    requires Increasing(names) && AllNulFree(names)
    ensures forall i, j :: 0 <= i < j < |names| ==> Before(names[i], names[j])
  {
    hide Strcmp, NulFree, Before;
    forall i, j | 0 <= i < j < |names| ensures Before(names[i], names[j]) {
      assert names[j] in names;
      StrcmpMeaning(names[i], names[j]);
    }
  }

  // ---- Splitting and joining ----

  /** The pieces between delimiters; there is always at least one, and pieces may be empty. */
  function Split(s: Text, delim: Byte): (r: seq<Text>)
    ensures r != []
  {
    if s == [] then [[]]
    else
      var rest := Split(s[1..], delim);
      if s[0] == delim then [[]] + rest else [[s[0]] + rest[0]] + rest[1..]
  }

  function NonEmpty(pieces: seq<Text>): seq<Text> {
    if pieces == [] then []
    else (if pieces[0] == [] then [] else [pieces[0]]) + NonEmpty(pieces[1..])
  }

  lemma NoPiece()
    ensures var none: Text := []; [none] + [] == [none] && Encode([none]) == [0]
  {
    var none: Text := [];
    assert [none] + [] == [none];
  }

  function Replaced(s: seq<Byte>, from: Byte, to: Byte): (r: seq<Byte>)
    ensures |r| == |s| && forall i :: 0 <= i < |s| ==> r[i] == if s[i] == from then to else s[i]
  {
    seq(|s|, i requires 0 <= i < |s| => if s[i] == from then to else s[i])
  }

  /** What `argz_create_sep` writes: `mid` tells whether the last byte written belongs to a piece. */
  function Separated(s: Text, delim: Byte, mid: bool): seq<Byte> {
    if s == [] then [0]
    else if s[0] == delim then (if mid then [0] else []) + Separated(s[1..], delim, false)
    else [s[0]] + Separated(s[1..], delim, true)
  }

  lemma SplitFirst(s: Text, delim: Byte)
    requires s != []
    ensures var ps, rest := Split(s, delim), Split(s[1..], delim);
      && ps == [ps[0]] + ps[1..] && rest == [rest[0]] + rest[1..]
      && if s[0] == delim then ps[0] == [] && ps[1..] == rest else ps[0] == [s[0]] + rest[0] && ps[1..] == rest[1..]
  {
  }

  /** The vector of the pieces that are not empty, perhaps with an empty string at its end. */
  function Vector(pieces: seq<Text>, ends: bool): seq<Byte> {
    Encode(NonEmpty(pieces) + if ends then [[]] else [])
  }

  lemma VectorFirst(p: Text, rest: seq<Text>, ends: bool)
    ensures Vector([p] + rest, ends) == (if p == [] then [] else p + [0]) + Vector(rest, ends)
  {
    hide Encode;
    assert ([p] + rest)[1..] == rest;
    var more: seq<Text> := if ends then [[]] else [];
    if p != [] {
      assert [p] + NonEmpty(rest) + more == [p] + (NonEmpty(rest) + more);
      EncodeFirst(p, NonEmpty(rest) + more);
    } else {
      assert [] + NonEmpty(rest) == NonEmpty(rest);
    }
  }

  lemma VectorNone()
    ensures Vector([], true) == [0] && Vector([], false) == []
  {
    NoPiece();
    var none: Text := [];
    assert [] + [none] == [none];
  }

  lemma SplitNone(delim: Byte)
    ensures Encode(Split([], delim)) == [0] && Replaced([], delim, 0) == []
    ensures Split([], delim)[0] == []
    ensures Vector(Split([], delim), true) == [0] && Vector(Split([], delim)[1..], false) == []
  {
    NoPiece();
    VectorNone();
    var none: Text := [];
    VectorFirst(none, [], true);
    assert [none] + [] == [none];
  }

  /**
   The vector holds the pieces that are not empty, and one empty string more if the text is empty or
   ends with a delimiter.
   */
  lemma {:induction false} SeparatedMeaning(s: Text, delim: Byte)
    ensures Separated(s, delim, false) == Vector(Split(s, delim), s == [] || s[|s| - 1] == delim)
    ensures Separated(s, delim, true)
            == Split(s, delim)[0] + [0] + Vector(Split(s, delim)[1..], s != [] && s[|s| - 1] == delim)
  {
    hide Vector, Split;
    if s == [] {
      SplitNone(delim);
    } else {
      SplitFirst(s, delim);
      SeparatedMeaning(s[1..], delim);
      var ps := Split(s, delim);
      VectorFirst(ps[0], ps[1..], s[|s| - 1] == delim);
    }
  }

  /** Text without empty pieces: no delimiter at either end, and no two in a row. */
  predicate Plain(s: Text, delim: Byte, mid: bool) {
    if s == [] then mid
    else if s[0] == delim then mid && Plain(s[1..], delim, false)
    else Plain(s[1..], delim, true)
  }

  lemma ReplacedFirst(s: seq<Byte>, from: Byte, to: Byte)
    requires s != []
    ensures Replaced(s, from, to) == [if s[0] == from then to else s[0]] + Replaced(s[1..], from, to)
  {
  }

  lemma {:induction false} PlainSeparated(s: Text, delim: Byte, mid: bool)
    requires Plain(s, delim, mid)
    ensures Separated(s, delim, mid) == Replaced(s, delim, 0) + [0]
  {
    if s != [] {
      ReplacedFirst(s, delim, 0);
      PlainSeparated(s[1..], delim, s[0] != delim);
    }
  }

  lemma {:induction false} EncodeSplit(s: Text, delim: Byte)
    ensures Encode(Split(s, delim)) == Replaced(s, delim, 0) + [0]
  {
    hide Encode, Split, Replaced;
    if s == [] {
      SplitNone(delim);
    } else {
      var ps, rest := Split(s, delim), Split(s[1..], delim);
      SplitFirst(s, delim);
      ReplacedFirst(s, delim, 0);
      EncodeSplit(s[1..], delim);
      EncodeFirst(ps[0], ps[1..]);
      EncodeFirst(rest[0], rest[1..]);
      assert [s[0]] + rest[0] + [0] + Encode(rest[1..]) == [s[0]] + (rest[0] + [0] + Encode(rest[1..]));
    }
  }

  /** `argz_stringify` puts separators for the NULs between the entries, but not for one at the very front. */
  function Stringified(s: seq<Byte>, sep: Byte): (r: seq<Byte>)
    ensures |r| == |s| && forall i :: 0 <= i < |s| ==> r[i] == if 0 < i < |s| - 1 && s[i] == 0 then sep else s[i]
  {
    seq(|s|, i requires 0 <= i < |s| => if 0 < i < |s| - 1 && s[i] == 0 then sep else s[i])
  }

  /** Splitting text without empty pieces gives the vector of its pieces, and stringifying that restores it. */
  lemma SplitAndStringify(s: Text, delim: Byte)
    requires NulFree(s) && s != [] && Plain(s, delim, false)
    ensures Separated(s, delim, false) == Encode(Split(s, delim))
    ensures Stringified(Separated(s, delim, false), delim) == s + [0]
  {
    hide Separated, Encode, Split;
    PlainSeparated(s, delim, false);
    EncodeSplit(s, delim);
    var t := Replaced(s, delim, 0) + [0];
    forall i | 0 <= i < |t| ensures Stringified(t, delim)[i] == (s + [0])[i] {
    }
  }
}
