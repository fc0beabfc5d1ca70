/**
 The BSON builder of bson.c: appends elements to a growing byte block, with a stack of the places
 where the lengths of the objects under construction have to be filled in.
 */
module BsonBuilding {
  import opened Bytes
  import opened Bson
  import opened BsonFormat

  const INITIAL_SIZE: nat := 128
  const MAX_DEPTH: nat := 32

  /** An object or array under construction, inside its predecessor; the outermost has no kind or key. */
  datatype Level = Level(kind: Byte, key: seq<Byte>, elems: seq<Elem>)

  function Wrap(kind: Byte, elems: seq<Elem>): Value { if kind == 4 then Array(elems) else Object(elems) }

  /** The bytes behind the outermost length: every open object begins with a length still to be filled in. */
  function EncLevels(levels: seq<Level>): seq<Byte>
    requires levels != []
  {
    var n := |levels| - 1;
    if n == 0 then EncElems(levels[0].elems)
    else EncLevels(levels[..n]) + EncHeader(levels[n].kind, levels[n].key) + [0, 0, 0, 0] + EncElems(levels[n].elems)
  }

  /** Where the length of the innermost object is, counted from the outermost one. */
  function LengthAt(levels: seq<Level>): nat
    requires |levels| > 1
  {
    var n := |levels| - 1;
    4 + |EncLevels(levels[..n])| + |EncHeader(levels[n].kind, levels[n].key)|
  }

  function WithElem(levels: seq<Level>, e: Elem): seq<Level>
    requires levels != []
  {
    var n := |levels| - 1;
    levels[n := levels[n].(elems := levels[n].elems + [e])]
  }

  /** Closing the innermost object makes it an element of the one around it. */
  function Closed(levels: seq<Level>): seq<Level>
    requires |levels| > 1
  {
    var l := levels[|levels| - 1];
    WithElem(levels[..|levels| - 1], Elem(l.key, Wrap(l.kind, l.elems)))
  }

  /** The bytes in front of the elements of the innermost level. */
  function Opening(front: seq<Level>, l: Level): seq<Byte> {
    if front == [] then [] else EncLevels(front) + EncHeader(l.kind, l.key) + [0, 0, 0, 0]
  }

  lemma EncInnermost(front: seq<Level>, l: Level)
    ensures EncLevels(front + [l]) == Opening(front, l) + EncElems(l.elems)
  {
    hide EncHeader, EncElems;
    assert (front + [l])[..|front|] == front;
    assert [] + EncElems(l.elems) == EncElems(l.elems);
  }

  lemma EncWithElem(levels: seq<Level>, e: Elem)
    requires levels != []
    ensures EncLevels(WithElem(levels, e)) == EncLevels(levels) + EncElem(e)
  {
    hide EncLevels, EncHeader, EncElems, EncElem;
    var n := |levels| - 1;
    var front, l := levels[..n], levels[n];
    var l' := l.(elems := l.elems + [e]);
    assert levels == front + [l] && WithElem(levels, e) == front + [l'];
    EncInnermost(front, l);
    EncInnermost(front, l');
    EncElemsAppend(l.elems, [e]);
    EncElemsOne(e);
    Regroup(Opening(front, l), EncElems(l.elems), EncElem(e));
  }

  lemma Regroup(a: seq<Byte>, b: seq<Byte>, c: seq<Byte>)
    ensures (a + b) + c == a + (b + c)
  {
  }

  lemma RegroupScope(before: seq<Byte>, h: seq<Byte>, size: seq<Byte>, length: seq<Byte>, code: seq<Byte>,
                     scope: seq<Byte>)
    ensures before + h + size + length + code + scope == before + (h + (size + (length + code) + scope))
  {
  }

  lemma EncOpened(levels: seq<Level>, kind: Byte, key: seq<Byte>)
    requires levels != []
    ensures var deeper := levels + [Level(kind, key, [])];
      && EncLevels(deeper) == EncLevels(levels) + (EncHeader(kind, key) + [0, 0, 0, 0])
      && LengthAt(deeper) == 4 + |EncLevels(levels)| + |EncHeader(kind, key)|
  {
    hide EncHeader, EncElems;
    var deeper := levels + [Level(kind, key, [])];
    assert deeper[..|levels|] == levels;
    NoElemBytes();
    Regroup(EncLevels(levels), EncHeader(kind, key), [0, 0, 0, 0]);
    assert EncLevels(deeper) == EncLevels(levels) + EncHeader(kind, key) + [0, 0, 0, 0] + [];
  }

  lemma NoElemBytes()
    ensures EncElems([]) == []
  {
  }

  /** Filling in the length and adding the terminator turns the open object into an element. */
  lemma EncClosed(levels: seq<Level>)
    requires |levels| > 1 && (levels[|levels| - 1].kind == 3 || levels[|levels| - 1].kind == 4)
    ensures var n := |levels| - 1;
      var before := EncLevels(levels[..n]) + EncHeader(levels[n].kind, levels[n].key);
      && |before| + 4 == LengthAt(levels)
      && EncLevels(levels) == before + [0, 0, 0, 0] + EncElems(levels[n].elems)
      && EncLevels(Closed(levels)) == before + EncDoc(levels[n].elems)
  {
    var n := |levels| - 1;
    var l := levels[n];
    var e := Elem(l.key, Wrap(l.kind, l.elems));
    EncWithElem(levels[..n], e);
    assert EncElem(e) == EncHeader(l.kind, l.key) + EncDoc(l.elems);
    Regroup(EncLevels(levels[..n]), EncHeader(l.kind, l.key), EncDoc(l.elems));
  }

  /** The stack holds the place of every length still to be filled in. */
  ghost predicate StackMatches(stack: seq<nat>, levels: seq<Level>) {
    && levels != [] && |stack| == |levels| - 1 <= MAX_DEPTH
    && (|levels| > 1 ==>
          var n := |levels| - 1;
          && (levels[n].kind == 3 || levels[n].kind == 4)
          && stack[n - 1] == LengthAt(levels)
          && StackMatches(stack[..n - 1], levels[..n]))
  }

  lemma WithElemKeepsStack(stack: seq<nat>, levels: seq<Level>, e: Elem)
    requires StackMatches(stack, levels)
    ensures StackMatches(stack, WithElem(levels, e))
  {
    assert WithElem(levels, e)[..|levels| - 1] == levels[..|levels| - 1];
    hide EncLevels, EncHeader;
  }

  lemma OpenKeepsStack(stack: seq<nat>, levels: seq<Level>, kind: Byte, name: seq<Byte>)
    requires StackMatches(stack, levels) && |stack| < MAX_DEPTH && (kind == 3 || kind == 4)
    ensures var deeper := levels + [Level(kind, name, [])]; StackMatches(stack + [LengthAt(deeper)], deeper)
  {
    hide LengthAt;
    var deeper := levels + [Level(kind, name, [])];
    assert deeper[..|levels|] == levels && (stack + [LengthAt(deeper)])[..|stack|] == stack;
  }

  lemma CloseKeepsStack(stack: seq<nat>, levels: seq<Level>)
    requires StackMatches(stack, levels) && |levels| > 1
    ensures StackMatches(stack[..|stack| - 1], Closed(levels))
    ensures stack[|stack| - 1] == LengthAt(levels)
    ensures var l := levels[|levels| - 1]; l.kind == 3 || l.kind == 4
  {
    hide LengthAt, WithElem;
    var l, front := levels[|levels| - 1], levels[..|levels| - 1];
    WithElemKeepsStack(stack[..|stack| - 1], front, Elem(l.key, Wrap(l.kind, l.elems)));
  }

  lemma OnlyLevel(levels: seq<Level>)
    requires |levels| == 1
    ensures EncLevels(levels) == EncElems(levels[0].elems)
  {
  }

  lemma StackDepth(stack: seq<nat>, levels: seq<Level>)
    requires StackMatches(stack, levels)
    ensures levels != [] && |stack| == |levels| - 1 <= MAX_DEPTH
  {
  }

  lemma DropHead(a: seq<Byte>, b: seq<Byte>)
    requires |a| >= 4
    ensures (a + b)[4..] == a[4..] + b
  {
  }

  /** Writing a length over four zeros, and a terminator behind. */
  lemma PatchFills(bytes: seq<Byte>, before: seq<Byte>, body: seq<Byte>, length: seq<Byte>)
    requires |bytes| >= 4 && bytes[4..] == before + [0, 0, 0, 0] + body && |length| == 4
    ensures var start, whole := |before| + 4, bytes + [0];
      && |bytes| == start + 4 + |body|
      && (whole[..start] + length + whole[start + 4..])[4..] == before + (length + body + [0])
  {
    var start, whole := |before| + 4, bytes + [0];
    assert whole[4..start] == bytes[4..][..|before|] == before;
    assert whole[start + 4..] == bytes[4..][|before| + 4..] + [0] == body + [0];
    assert (whole[..start] + length + whole[start + 4..])[4..] == whole[4..start] + length + whole[start + 4..];
  }

  /** The bytes with a terminator added and the length from `start` on filled in at `start`. */
  function Filled(bytes: seq<Byte>, start: nat): seq<Byte>
    requires start + 4 <= |bytes| < INT_MAX
  {
    var whole := bytes + [0];
    whole[..start] + Le32(|whole| - start) + whole[start + 4..]
  }

  /** A zero behind, the distance from `start` to the end in the four bytes there, and all others as before. */
  predicate Patched(s: seq<Byte>, before: seq<Byte>, start: nat) {
    && start + 4 <= |before| && |s| == |before| + 1 && s[|s| - 1] == 0
    && IntLaid(s, start, |s| - start)
    && s[..start] == before[..start] && s[start + 4..|before|] == before[start + 4..]
  }

  lemma FilledIsPatched(bytes: seq<Byte>, start: nat)
    requires start + 4 <= |bytes| < INT_MAX
    ensures Patched(Filled(bytes, start), bytes, start)
  {
    hide Le32, IntLaid;
    var s, length := Filled(bytes, start), Le32(|bytes| + 1 - start);
    FilledParts(bytes, start, length);
    LengthLaid(s, start, |bytes| + 1 - start);
  }

  lemma FilledParts(bytes: seq<Byte>, start: nat, length: seq<Byte>)
    requires start + 4 <= |bytes| && |length| == 4
    ensures var whole := bytes + [0];
      var s := whole[..start] + length + whole[start + 4..];
      && |s| == |bytes| + 1 && s[|bytes|] == 0 && s[..start] == bytes[..start]
      && s[start..start + 4] == length && s[start + 4..|bytes|] == bytes[start + 4..]
  {
    var whole := bytes + [0];
    var front, back := whole[..start], whole[start + 4..];
    assert front == bytes[..start] && back == bytes[start + 4..] + [0];
    Spliced(front, length, bytes[start + 4..], 0);
  }

  lemma Spliced(front: seq<Byte>, length: seq<Byte>, back: seq<Byte>, last: Byte)
    ensures var s := front + length + (back + [last]);
      var at := |front| + |length|;
      && |s| == at + |back| + 1 && s[at + |back|] == last && s[..|front|] == front
      && s[|front|..at] == length && s[at..at + |back|] == back
  {
  }

  /** Filling in the innermost length closes the innermost object. */
  lemma FilledCloses(bytes: seq<Byte>, levels: seq<Level>)
    requires |levels| > 1 && 4 <= |bytes| < INT_MAX && bytes[4..] == EncLevels(levels)
    requires levels[|levels| - 1].kind == 3 || levels[|levels| - 1].kind == 4
    ensures LengthAt(levels) + 4 <= |bytes|
    ensures Filled(bytes, LengthAt(levels))[4..] == EncLevels(Closed(levels))
  {
    hide EncLevels, EncHeader, EncElems, LengthAt, Closed, Le32;
    EncClosed(levels);
    var n := |levels| - 1;
    var before := EncLevels(levels[..n]) + EncHeader(levels[n].kind, levels[n].key);
    var body := EncElems(levels[n].elems);
    PatchFills(bytes, before, body, Le32(|body| + 5));
    DocOf(levels[n].elems);
  }

  lemma DocOf(elems: seq<Elem>)
    requires 4 + |EncElems(elems)| + 1 <= INT_MAX
    ensures EncDoc(elems) == Le32(4 + |EncElems(elems)| + 1) + EncElems(elems) + [0]
  {
    hide Le32, EncElems;
  }

  lemma TextElemSize(name: seq<Byte>, value: Value)
    requires value.Text? || value.Symbol? || value.Code?
    ensures |EncElem(Elem(name, value))| == |EncHeader(Kind(value), name)| + 4 + |value.text| + 1
  {
    hide Le32, EncHeader;
  }

  lemma BinaryElem(name: seq<Byte>, subtype: Byte, data: seq<Byte>)
    ensures |EncElem(Elem(name, Binary(subtype, data)))| == |EncHeader(5, name)| + 4 + 1 + |data|
    ensures |data| <= INT_MAX ==>
      EncElem(Elem(name, Binary(subtype, data))) == EncHeader(5, name) + (Le32(|data|) + [subtype] + data)
  {
    hide Le32, EncHeader;
  }

  lemma RegexElem(name: seq<Byte>, pattern: seq<Byte>, opts: seq<Byte>)
    ensures EncElem(Elem(name, Regex(pattern, opts))) == EncHeader(11, name) + ((pattern + [0]) + (opts + [0]))
  {
    hide Le32, EncHeader;
  }

  lemma DocElem(name: seq<Byte>, elems: seq<Elem>)
    ensures EncElem(Elem(name, Object(elems))) == EncHeader(3, name) + EncDoc(elems)
  {
    hide Le32, EncHeader, EncDoc;
  }

  lemma TextElem(name: seq<Byte>, value: Value)
    requires (value.Text? || value.Symbol? || value.Code?) && |value.text| + 1 <= INT_MAX
    ensures EncElem(Elem(name, value)) == EncHeader(Kind(value), name) + (Le32(|value.text| + 1) + (value.text + [0]))
  {
    hide Le32, EncHeader;
  }

  /** An element of code with the scope `scope`. */
  function ScopeBytes(name: seq<Byte>, code: seq<Byte>, scope: seq<Byte>): (r: seq<Byte>)
    ensures |r| == |EncHeader(15, name)| + 8 + |code| + 1 + |scope|
  {
    hide Le32, EncHeader;
    EncHeader(15, name) + (Length(8 + |code| + 1 + |scope|) + EncText(code) + scope)
  }

  lemma ScopeElem(name: seq<Byte>, code: seq<Byte>, scope: seq<Elem>)
    ensures EncElem(Elem(name, CodeWithScope(code, scope))) == ScopeBytes(name, code, EncDoc(scope))
  {
    hide Le32, EncHeader, EncDoc, EncText;
  }

  lemma ScopeParts(before: seq<Byte>, name: seq<Byte>, code: seq<Byte>, scope: seq<Byte>)
    requires 8 + |code| + 1 + |scope| <= INT_MAX
    ensures before + EncHeader(15, name) + Le32(8 + |code| + 1 + |scope|) + Le32(|code| + 1) + (code + [0]) + scope
            == before + ScopeBytes(name, code, scope)
  {
    hide Le32, EncHeader;
    RegroupScope(before, EncHeader(15, name), Le32(8 + |code| + 1 + |scope|), Le32(|code| + 1), code + [0], scope);
  }

  /** A size at which growing the block may exceed the range of `int`. */
  predicate TooBig(n: nat) { 3 * n > INT_MAX }

  /** The size that a document states, where its bytes are all there. */
  predicate Sized(doc: seq<Byte>) { |doc| >= 4 && 0 <= ReadLe32(doc, 0) <= |doc| }

  function SizeOf(doc: seq<Byte>): nat requires Sized(doc) { ReadLe32(doc, 0) }

  /** The stack has no more places than it can hold, and they lie within the first `cur` bytes. */
  predicate Placed(stack: seq<nat>, cur: nat) {
    |stack| <= MAX_DEPTH && forall i :: 0 <= i < |stack| ==> stack[i] + 4 <= cur
  }

  class BsonBuffer {
    var buf: array<Byte>
    var cur: nat
    var bufSize: nat
    var finished: bool
    var stack: seq<nat>
    ghost var levels: seq<Level>

    ghost predicate Allocated()
      reads this
    {
      buf.Length == bufSize && 4 <= cur <= bufSize <= INT_MAX
    }

    /** Until it is finished, what was appended encodes the open levels. */
    ghost predicate Valid()
      reads this, buf
    {
      && Allocated()
      && Placed(stack, cur)
      && (!finished ==> StackMatches(stack, levels) && buf[4..cur] == EncLevels(levels))
    }

    constructor ()
      ensures Valid() && fresh(buf)
      ensures levels == [Level(0, [], [])] && bufSize == INITIAL_SIZE && !finished && stack == []
    {
      buf := new Byte[INITIAL_SIZE];
      bufSize := INITIAL_SIZE;
      cur := 4;
      finished := false;
      stack := [];
      levels := [Level(0, [], [])];
    }

    /** How far the open levels reach. */
    lemma Extent()
      requires Valid() && !finished
      ensures levels != [] && cur == 4 + |EncLevels(levels)| && |stack| == |levels| - 1 <= MAX_DEPTH
    {
      hide EncLevels;
      StackDepth(stack, levels);
    }

    /**
     Makes room for `needed` bytes, by half more than is needed in all when the block has to grow.
     `overflow` tells that the new size is beyond `int`. On a finished buffer the source complains with a
     condition that is true while there is a block, so it goes on.
     */
    method EnsureSpace(needed: nat) returns (overflow: bool)
      requires Allocated()
      modifies this`buf, this`bufSize
      ensures Allocated() && (buf == old(buf) || fresh(buf))
      ensures buf[..cur] == old(buf[..cur])
      ensures !overflow ==> cur + needed <= bufSize
      ensures overflow <==> cur + needed > old(bufSize) && 3 * (old(bufSize) + needed) / 2 > INT_MAX
      ensures bufSize == if !overflow && cur + needed > old(bufSize) then 3 * (old(bufSize) + needed) / 2
                         else old(bufSize)
    {
      if cur + needed <= bufSize {
        return false;
      }
      var newSize := 3 * (bufSize + needed) / 2;
      if newSize > INT_MAX {
        return true;
      }
      var bigger := new Byte[newSize];
      forall i | 0 <= i < cur {
        bigger[i] := buf[i];
      }
      buf := bigger;
      bufSize := newSize;
      return false;
    }

    /** `memcpy` to the current position, which must lie within the block. */
    method Append(data: seq<Byte>)
      requires Allocated() && cur + |data| <= bufSize
      modifies this`cur, buf
      ensures Allocated() && cur == old(cur) + |data|
      ensures buf[..cur] == old(buf[..cur]) + data
    {
      forall i | 0 <= i < |data| {
        buf[cur + i] := data[i];
      }
      cur := cur + |data|;
    }

    /** Writes the type and the name of an element, with room left for a value of `size` bytes. */
    method AppendEstart(kind: Byte, name: seq<Byte>, size: nat) returns (overflow: bool)
      requires Allocated()
      modifies this`buf, this`bufSize, this`cur, buf
      ensures Allocated() && (buf == old(buf) || fresh(buf))
      ensures overflow ==> cur == old(cur) && buf[..cur] == old(buf[..cur])
      ensures !overflow ==> cur + size <= bufSize && buf[..cur] == old(buf[..cur]) + EncHeader(kind, name)
      ensures overflow ==> 3 * (cur + 2 * (|EncHeader(kind, name)| + size)) / 2 > INT_MAX
    {
      overflow := EnsureSpace(1 + |name| + 1 + size);
      if !overflow {
        Append([kind]);
        Append(name + [0]);
        assert EncHeader(kind, name) == [kind] + (name + [0]);
      }
    }

    /** The bytes of a whole element have been added behind `before`: account for the element. */
    ghost method ElemAppended(e: Elem, before: seq<Byte>)
      requires Allocated() && Placed(stack, |before|) && |before| >= 4 && buf[..cur] == before + EncElem(e)
      requires !finished ==> StackMatches(stack, levels) && before[4..] == EncLevels(levels)
      modifies this`levels
      ensures Valid()
      ensures if finished then levels == old(levels) else old(levels) != [] && levels == WithElem(old(levels), e)
      ensures Simple(e.value) && (e.value.Int? ==> FitsInt(e.value.i)) ==> ElemLaid(buf[..cur], |before|, cur, e)
    {
      hide EncLevels, WithElem, EncElem, StackMatches, Simple, ElemLaid;
      if Simple(e.value) && (e.value.Int? ==> FitsInt(e.value.i)) {
        SimpleElemIsLaid(before, e);
      }
      if !finished {
        StackDepth(stack, levels);
        EncWithElem(levels, e);
        WithElemKeepsStack(stack, levels, e);
        assert buf[4..cur] == buf[..cur][4..] == before[4..] + EncElem(e);
        levels := WithElem(levels, e);
      }
    }

    method AppendInt(name: seq<Byte>, i: int) returns (overflow: bool)
      requires Valid() && FitsInt(i)
      modifies this`buf, this`bufSize, this`cur, this`levels, buf
      ensures Valid() && (buf == old(buf) || fresh(buf)) && stack == old(stack)
      ensures if overflow || finished then levels == old(levels)
              else old(levels) != [] && levels == WithElem(old(levels), Elem(name, Int(i)))
      ensures buf[..cur] == if overflow then old(buf[..cur]) else old(buf[..cur]) + EncElem(Elem(name, Int(i)))
      ensures overflow ==> TooBig(cur + |EncElem(Elem(name, Int(i)))|)
      ensures !overflow ==> ElemLaid(buf[..cur], old(cur), cur, Elem(name, Int(i)))
    {
      hide ElemLaid, EncHeader, EncLevels, WithElem, StackMatches, Le32;
      overflow := AppendEstart(16, name, 4);
      if !overflow {
        Append(Le32(i));
        ElemAppended(Elem(name, Int(i)), old(buf[..cur]));
      }
    }

    method AppendLong(name: seq<Byte>, bits: seq<Byte>) returns (overflow: bool)
      requires Valid() && |bits| == 8
      modifies this`buf, this`bufSize, this`cur, this`levels, buf
      ensures Valid() && (buf == old(buf) || fresh(buf)) && stack == old(stack)
      ensures if overflow || finished then levels == old(levels)
              else old(levels) != [] && levels == WithElem(old(levels), Elem(name, Long(bits)))
      ensures buf[..cur] == if overflow then old(buf[..cur]) else old(buf[..cur]) + EncElem(Elem(name, Long(bits)))
      ensures overflow ==> TooBig(cur + |EncElem(Elem(name, Long(bits)))|)
      ensures !overflow ==> ElemLaid(buf[..cur], old(cur), cur, Elem(name, Long(bits)))
    {
      hide ElemLaid, EncHeader, EncLevels, WithElem, StackMatches, Le32;
      overflow := AppendEstart(18, name, 8);
      if !overflow {
        Append(bits);
        ElemAppended(Elem(name, Long(bits)), old(buf[..cur]));
      }
    }

    method AppendDouble(name: seq<Byte>, bits: seq<Byte>) returns (overflow: bool)
      requires Valid() && |bits| == 8
      modifies this`buf, this`bufSize, this`cur, this`levels, buf
      ensures Valid() && (buf == old(buf) || fresh(buf)) && stack == old(stack)
      ensures if overflow || finished then levels == old(levels)
              else old(levels) != [] && levels == WithElem(old(levels), Elem(name, Double(bits)))
      ensures buf[..cur] == if overflow then old(buf[..cur]) else old(buf[..cur]) + EncElem(Elem(name, Double(bits)))
      ensures overflow ==> TooBig(cur + |EncElem(Elem(name, Double(bits)))|)
      ensures !overflow ==> ElemLaid(buf[..cur], old(cur), cur, Elem(name, Double(bits)))
    {
      hide ElemLaid, EncHeader, EncLevels, WithElem, StackMatches, Le32;
      overflow := AppendEstart(1, name, 8);
      if !overflow {
        Append(bits);
        ElemAppended(Elem(name, Double(bits)), old(buf[..cur]));
      }
    }

    method AppendDate(name: seq<Byte>, bits: seq<Byte>) returns (overflow: bool)
      requires Valid() && |bits| == 8
      modifies this`buf, this`bufSize, this`cur, this`levels, buf
      ensures Valid() && (buf == old(buf) || fresh(buf)) && stack == old(stack)
      ensures if overflow || finished then levels == old(levels)
              else old(levels) != [] && levels == WithElem(old(levels), Elem(name, Date(bits)))
      ensures buf[..cur] == if overflow then old(buf[..cur]) else old(buf[..cur]) + EncElem(Elem(name, Date(bits)))
      ensures overflow ==> TooBig(cur + |EncElem(Elem(name, Date(bits)))|)
      ensures !overflow ==> ElemLaid(buf[..cur], old(cur), cur, Elem(name, Date(bits)))
    {
      hide ElemLaid, EncHeader, EncLevels, WithElem, StackMatches, Le32;
      overflow := AppendEstart(9, name, 8);
      if !overflow {
        Append(bits);
        ElemAppended(Elem(name, Date(bits)), old(buf[..cur]));
      }
    }

    method AppendBool(name: seq<Byte>, b: bool) returns (overflow: bool)
      requires Valid()
      modifies this`buf, this`bufSize, this`cur, this`levels, buf
      ensures Valid() && (buf == old(buf) || fresh(buf)) && stack == old(stack)
      ensures if overflow || finished then levels == old(levels)
              else old(levels) != [] && levels == WithElem(old(levels), Elem(name, Bool(b)))
      ensures buf[..cur] == if overflow then old(buf[..cur]) else old(buf[..cur]) + EncElem(Elem(name, Bool(b)))
      ensures overflow ==> TooBig(cur + |EncElem(Elem(name, Bool(b)))|)
      ensures !overflow ==> ElemLaid(buf[..cur], old(cur), cur, Elem(name, Bool(b)))
    {
      hide ElemLaid, EncHeader, EncLevels, WithElem, StackMatches, Le32;
      overflow := AppendEstart(8, name, 1);
      if !overflow {
        Append([if b then 1 else 0]);
        ElemAppended(Elem(name, Bool(b)), old(buf[..cur]));
      }
    }

    method AppendNull(name: seq<Byte>) returns (overflow: bool)
      requires Valid()
      modifies this`buf, this`bufSize, this`cur, this`levels, buf
      ensures Valid() && (buf == old(buf) || fresh(buf)) && stack == old(stack)
      ensures if overflow || finished then levels == old(levels)
              else old(levels) != [] && levels == WithElem(old(levels), Elem(name, Null))
      ensures buf[..cur] == if overflow then old(buf[..cur]) else old(buf[..cur]) + EncElem(Elem(name, Null))
      ensures overflow ==> TooBig(cur + |EncElem(Elem(name, Null))|)
      ensures !overflow ==> ElemLaid(buf[..cur], old(cur), cur, Elem(name, Null))
    {
      hide ElemLaid, EncLevels, WithElem, StackMatches;
      overflow := AppendEstart(10, name, 0);
      if !overflow {
        ElemAppended(Elem(name, Null), old(buf[..cur]));
      }
    }

    method AppendUndefined(name: seq<Byte>) returns (overflow: bool)
      requires Valid()
      modifies this`buf, this`bufSize, this`cur, this`levels, buf
      ensures Valid() && (buf == old(buf) || fresh(buf)) && stack == old(stack)
      ensures if overflow || finished then levels == old(levels)
              else old(levels) != [] && levels == WithElem(old(levels), Elem(name, Undefined))
      ensures buf[..cur] == if overflow then old(buf[..cur]) else old(buf[..cur]) + EncElem(Elem(name, Undefined))
      ensures overflow ==> TooBig(cur + |EncElem(Elem(name, Undefined))|)
      ensures !overflow ==> ElemLaid(buf[..cur], old(cur), cur, Elem(name, Undefined))
    {
      hide ElemLaid, EncLevels, WithElem, StackMatches;
      overflow := AppendEstart(6, name, 0);
      if !overflow {
        ElemAppended(Elem(name, Undefined), old(buf[..cur]));
      }
    }

    method AppendOid(name: seq<Byte>, id: seq<Byte>) returns (overflow: bool)
      requires Valid() && |id| == 12
      modifies this`buf, this`bufSize, this`cur, this`levels, buf
      ensures Valid() && (buf == old(buf) || fresh(buf)) && stack == old(stack)
      ensures if overflow || finished then levels == old(levels)
              else old(levels) != [] && levels == WithElem(old(levels), Elem(name, Oid(id)))
      ensures buf[..cur] == if overflow then old(buf[..cur]) else old(buf[..cur]) + EncElem(Elem(name, Oid(id)))
      ensures overflow ==> TooBig(cur + |EncElem(Elem(name, Oid(id)))|)
      ensures !overflow ==> ElemLaid(buf[..cur], old(cur), cur, Elem(name, Oid(id)))
    {
      hide ElemLaid, EncHeader, EncLevels, WithElem, StackMatches, Le32;
      overflow := AppendEstart(7, name, 12);
      if !overflow {
        Append(id);
        ElemAppended(Elem(name, Oid(id)), old(buf[..cur]));
      }
    }

    /** The value of a string: its length with its terminator, and its bytes. */
    method AppendText(text: seq<Byte>)
      requires Allocated() && cur + 4 + |text| + 1 <= bufSize
      modifies this`cur, buf
      ensures Allocated() && cur == old(cur) + 4 + |text| + 1
      ensures buf[..cur] == old(buf[..cur]) + (Le32(|text| + 1) + (text + [0]))
    {
      hide Le32;
      Append(Le32(|text| + 1));
      Append(text + [0]);
    }

    /** Strings, symbols and code share their layout. */
    method AppendStringBase(name: seq<Byte>, value: Value) returns (overflow: bool)
      requires Valid() && (value.Text? || value.Symbol? || value.Code?)
      modifies this`buf, this`bufSize, this`cur, this`levels, buf
      ensures Valid() && (buf == old(buf) || fresh(buf)) && stack == old(stack)
      ensures if overflow || finished then levels == old(levels)
              else old(levels) != [] && levels == WithElem(old(levels), Elem(name, value))
      ensures buf[..cur] == if overflow then old(buf[..cur]) else old(buf[..cur]) + EncElem(Elem(name, value))
      ensures overflow ==> TooBig(cur + |EncElem(Elem(name, value))|)
      ensures !overflow ==> ElemLaid(buf[..cur], old(cur), cur, Elem(name, value))
    {
      hide ElemLaid, EncElem, EncHeader, EncLevels, WithElem, StackMatches, Le32, Kind;
      var sl := |value.text| + 1;
      TextElemSize(name, value);
      overflow := AppendEstart(Kind(value), name, 4 + sl);
      if !overflow {
        AppendText(value.text);
        TextElem(name, value);
        ElemAppended(Elem(name, value), old(buf[..cur]));
      }
    }

    /** The value of binary data. */
    method AppendBlob(subtype: Byte, data: seq<Byte>)
      requires Allocated() && cur + 4 + 1 + |data| <= bufSize
      modifies this`cur, buf
      ensures Allocated() && cur == old(cur) + 4 + 1 + |data|
      ensures buf[..cur] == old(buf[..cur]) + (Le32(|data|) + [subtype] + data)
    {
      hide Le32;
      Append(Le32(|data|));
      Append([subtype]);
      Append(data);
    }

    method AppendBinary(name: seq<Byte>, subtype: Byte, data: seq<Byte>) returns (overflow: bool)
      requires Valid()
      modifies this`buf, this`bufSize, this`cur, this`levels, buf
      ensures Valid() && (buf == old(buf) || fresh(buf)) && stack == old(stack)
      ensures if overflow || finished then levels == old(levels)
              else old(levels) != [] && levels == WithElem(old(levels), Elem(name, Binary(subtype, data)))
      ensures buf[..cur] == if overflow then old(buf[..cur])
                            else old(buf[..cur]) + EncElem(Elem(name, Binary(subtype, data)))
      ensures overflow ==> TooBig(cur + |EncElem(Elem(name, Binary(subtype, data)))|)
      ensures !overflow ==> ElemLaid(buf[..cur], old(cur), cur, Elem(name, Binary(subtype, data)))
    {
      hide ElemLaid, EncElem, EncHeader, EncLevels, WithElem, StackMatches, Le32, Kind, EncDoc;
      BinaryElem(name, subtype, data);
      overflow := AppendEstart(5, name, 4 + 1 + |data|);
      if !overflow {
        AppendBlob(subtype, data);
        ElemAppended(Elem(name, Binary(subtype, data)), old(buf[..cur]));
      }
    }

    method AppendRegex(name: seq<Byte>, pattern: seq<Byte>, opts: seq<Byte>) returns (overflow: bool)
      requires Valid()
      modifies this`buf, this`bufSize, this`cur, this`levels, buf
      ensures Valid() && (buf == old(buf) || fresh(buf)) && stack == old(stack)
      ensures if overflow || finished then levels == old(levels)
              else old(levels) != [] && levels == WithElem(old(levels), Elem(name, Regex(pattern, opts)))
      ensures buf[..cur] == if overflow then old(buf[..cur])
                            else old(buf[..cur]) + EncElem(Elem(name, Regex(pattern, opts)))
      ensures overflow ==> TooBig(cur + |EncElem(Elem(name, Regex(pattern, opts)))|)
      ensures !overflow ==> ElemLaid(buf[..cur], old(cur), cur, Elem(name, Regex(pattern, opts)))
    {
      hide ElemLaid, EncElem, EncHeader, EncLevels, WithElem, StackMatches, Le32, Kind, EncDoc;
      RegexElem(name, pattern, opts);
      overflow := AppendEstart(11, name, |pattern| + 1 + |opts| + 1);
      if !overflow {
        Append(pattern + [0]);
        Append(opts + [0]);
        ElemAppended(Elem(name, Regex(pattern, opts)), old(buf[..cur]));
      }
    }

    /** The value of code with scope. */
    method AppendScope(size: nat, code: seq<Byte>, scope: seq<Byte>)
      requires Allocated() && size == 4 + 4 + |code| + 1 + |scope| && cur + size <= bufSize
      modifies this`cur, buf
      ensures Allocated() && cur == old(cur) + size
      ensures buf[..cur] == old(buf[..cur]) + Le32(size) + Le32(|code| + 1) + (code + [0]) + scope
    {
      hide Le32;
      Append(Le32(size));
      Append(Le32(|code| + 1));
      Append(code + [0]);
      Append(scope);
    }

    /**
     Code with its scope, a document that was built on its own; its size is what its first four bytes say.
     Where that many bytes are not there, the source reads on behind them: the model stops with `outside`.
     With the document of some elements the open level is extended; other bytes are copied as they are.
     */
    method AppendCodeWScope(name: seq<Byte>, code: seq<Byte>, scope: seq<Byte>, ghost elems: seq<Elem>)
      returns (overflow: bool, outside: bool)
      requires Valid()
      modifies this`buf, this`bufSize, this`cur, this`levels, buf
      ensures Allocated() && (buf == old(buf) || fresh(buf)) && stack == old(stack)
      ensures outside <==> !Sized(scope)
      ensures overflow ==> Sized(scope) && TooBig(cur + |EncHeader(15, name)| + 8 + |code| + 1 + SizeOf(scope))
      ensures overflow || outside ==> Valid() && levels == old(levels)
      ensures !overflow && !outside ==>
        buf[..cur] == old(buf[..cur]) + ScopeBytes(name, code, scope[..SizeOf(scope)])
      ensures !overflow && !outside && scope == EncDoc(elems) && SizeOf(scope) == |scope| ==>
        && Valid()
        && if finished then levels == old(levels)
           else old(levels) != [] && levels == WithElem(old(levels), Elem(name, CodeWithScope(code, elems)))
    {
      hide EncElem, EncHeader, EncLevels, WithElem, StackMatches, Le32, EncDoc, ReadLe32, ScopeBytes;
      if !Sized(scope) {
        return false, true;
      }
      outside := false;
      var size := 4 + 4 + (|code| + 1) + SizeOf(scope);
      overflow := AppendEstart(15, name, size);
      if !overflow {
        AppendScope(size, code, scope[..SizeOf(scope)]);
        ScopeParts(old(buf[..cur]), name, code, scope[..SizeOf(scope)]);
        if scope == EncDoc(elems) && SizeOf(scope) == |scope| {
          assert scope[..SizeOf(scope)] == scope;
          ScopeElem(name, code, elems);
          ElemAppended(Elem(name, CodeWithScope(code, elems)), old(buf[..cur]));
        }
      }
    }

    /** An embedded document, in the same way. */
    method AppendBson(name: seq<Byte>, doc: seq<Byte>, ghost elems: seq<Elem>) returns (overflow: bool, outside: bool)
      requires Valid()
      modifies this`buf, this`bufSize, this`cur, this`levels, buf
      ensures Allocated() && (buf == old(buf) || fresh(buf)) && stack == old(stack)
      ensures outside <==> !Sized(doc)
      ensures overflow ==> Sized(doc) && TooBig(cur + |EncHeader(3, name)| + SizeOf(doc))
      ensures overflow || outside ==> Valid() && levels == old(levels)
      ensures !overflow && !outside ==> buf[..cur] == old(buf[..cur]) + EncHeader(3, name) + doc[..SizeOf(doc)]
      ensures !overflow && !outside && doc == EncDoc(elems) && SizeOf(doc) == |doc| ==>
        && Valid()
        && if finished then levels == old(levels)
           else old(levels) != [] && levels == WithElem(old(levels), Elem(name, Object(elems)))
    {
      hide EncElem, EncHeader, EncLevels, WithElem, StackMatches, Le32, EncDoc, ReadLe32;
      if !Sized(doc) {
        return false, true;
      }
      outside := false;
      overflow := AppendEstart(3, name, SizeOf(doc));
      if !overflow {
        Append(doc[..SizeOf(doc)]);
        if doc == EncDoc(elems) && SizeOf(doc) == |doc| {
          DocElem(name, elems);
          Regroup(old(buf[..cur]), EncHeader(3, name), doc);
          ElemAppended(Elem(name, Object(elems)), old(buf[..cur]));
        }
      }
    }

    /**
     `bson_append_start_object` and, for kind 4, `bson_append_start_array`. The place of the 33rd open
     object is written behind the stack: the model stops there with `overrun`.
     */
    method AppendStart(kind: Byte, name: seq<Byte>) returns (overflow: bool, overrun: bool)
      requires Valid() && (kind == 3 || kind == 4)
      modifies this`buf, this`bufSize, this`cur, this`stack, this`levels, buf
      ensures overrun <==> !overflow && |old(stack)| == 32
      ensures buf == old(buf) || fresh(buf)
      ensures !overrun ==> Valid()
      ensures overflow ==>
        stack == old(stack) && buf[..cur] == old(buf[..cur]) && TooBig(cur + |EncHeader(kind, name)| + 5)
      ensures !overflow && !overrun ==>
        && cur >= 4 && stack == old(stack) + [cur - 4]
        && buf[..cur] == old(buf[..cur]) + EncHeader(kind, name) + [0, 0, 0, 0]
      ensures levels == if overflow || overrun || finished then old(levels) else old(levels) + [Level(kind, name, [])]
    {
      hide EncLevels, EncHeader, StackMatches, LengthAt;
      ghost var before := buf[..cur];
      overrun := false;
      overflow := AppendEstart(kind, name, 5);
      if overflow {
        return;
      }
      if |stack| == MAX_DEPTH {
        return false, true;
      }
      stack := stack + [cur];
      Append([0, 0, 0, 0]);
      LevelOpened(before, kind, name);
    }

    /** The header and four zeros have been added behind `before`: account for the open object. */
    ghost method LevelOpened(before: seq<Byte>, kind: Byte, name: seq<Byte>)
      requires Allocated() && 0 < |stack| && Placed(stack, cur) && (kind == 3 || kind == 4)
      requires !finished ==>
        StackMatches(stack[..|stack| - 1], levels) && |before| >= 4 && before[4..] == EncLevels(levels)
      requires buf[..cur] == before + EncHeader(kind, name) + [0, 0, 0, 0] && stack[|stack| - 1] == cur - 4
      modifies this`levels
      ensures Valid() && levels == if finished then old(levels) else old(levels) + [Level(kind, name, [])]
    {
      hide EncLevels, EncHeader, StackMatches, LengthAt;
      if !finished {
        StackDepth(stack[..|stack| - 1], levels);
        EncOpened(levels, kind, name);
        var start := LengthAt(levels + [Level(kind, name, [])]);
        OpenKeepsStack(stack[..|stack| - 1], levels, kind, name);
        assert stack == stack[..|stack| - 1] + [start];
        Regroup(before, EncHeader(kind, name), [0, 0, 0, 0]);
        DropHead(before, EncHeader(kind, name) + [0, 0, 0, 0]);
        assert buf[4..cur] == buf[..cur][4..];
        levels := levels + [Level(kind, name, [])];
      }
    }

    /**
     Ends the innermost object and fills in its length, wherever the block has moved since. With no object
     open, the source takes a place from in front of the stack: the model stops there with `underrun`.
     */
    method AppendFinishObject() returns (overflow: bool, underrun: bool)
      requires Valid()
      modifies this`buf, this`bufSize, this`cur, this`stack, this`levels, buf
      ensures Valid() && (buf == old(buf) || fresh(buf))
      ensures underrun <==> !overflow && old(stack) == []
      ensures overflow ==> TooBig(cur + 1)
      ensures overflow || underrun ==> levels == old(levels) && stack == old(stack) && buf[..cur] == old(buf[..cur])
      ensures !overflow && !underrun ==>
        var n := |old(stack)| - 1;
        && stack == old(stack)[..n] && old(stack)[n] + 4 <= old(cur) < INT_MAX
        && buf[..cur] == Filled(old(buf[..cur]), old(stack)[n])
        && Patched(buf[..cur], old(buf[..cur]), old(stack)[n])
        && if finished then levels == old(levels) else |old(levels)| > 1 && levels == Closed(old(levels))
    {
      hide EncLevels, EncHeader, StackMatches, LengthAt, Closed, Filled, Patched;
      overflow := EnsureSpace(1);
      if overflow {
        return true, false;
      }
      if |stack| == 0 {
        return false, true;
      }
      underrun := false;
      ghost var bytes := buf[..cur];
      if !finished {
        StackDepth(stack, levels);
        assert bytes[4..] == EncLevels(levels);
      }
      FilledIsPatched(bytes, stack[|stack| - 1]);
      FillLength(stack[|stack| - 1]);
      stack := stack[..|stack| - 1];
      LevelClosed(bytes, old(stack));
    }

    /** The innermost length was filled in: account for the closed object. */
    ghost method LevelClosed(bytes: seq<Byte>, before: seq<nat>)
      requires Allocated() && before != [] && stack == before[..|before| - 1] && Placed(stack, cur)
      requires before[|before| - 1] + 4 <= |bytes| < INT_MAX && 4 <= |bytes|
      requires buf[..cur] == Filled(bytes, before[|before| - 1])
      requires !finished ==> StackMatches(before, levels) && bytes[4..] == EncLevels(levels)
      modifies this`levels
      ensures Valid()
      ensures if finished then levels == old(levels) else |old(levels)| > 1 && levels == Closed(old(levels))
    {
      hide EncLevels, EncHeader, StackMatches, LengthAt, Closed, Filled;
      if !finished {
        StackDepth(before, levels);
        CloseKeepsStack(before, levels);
        FilledCloses(bytes, levels);
        assert buf[4..cur] == buf[..cur][4..];
        levels := Closed(levels);
      }
    }

    /** Appends the terminator and writes the distance from `start` over the four bytes there. */
    method FillLength(start: nat)
      requires Allocated() && cur + 1 <= bufSize && start + 4 <= cur
      modifies this`cur, buf
      ensures Allocated() && cur == old(cur) + 1 && buf[..cur] == Filled(old(buf[..cur]), start)
    {
      Append([0]);
      assert buf[..start] == buf[..cur][..start] && buf[start + 4..cur] == buf[..cur][start + 4..];
      Patch(start, cur - start);
    }

    /** Overwrites four bytes with a length. */
    method Patch(start: nat, n: int)
      requires Allocated() && start + 4 <= cur && FitsInt(n)
      modifies buf
      ensures buf[..cur] == old(buf[..cur])[..start] + Le32(n) + old(buf[..cur])[start + 4..]
    {
      var bytes := Le32(n);
      forall i | 0 <= i < 4 {
        buf[start + i] := bytes[i];
      }
    }

    /**
     Ends the document; its bytes are all that was appended, with the length in front. A buffer that is
     finished already is answered with its bytes as they are.
     */
    method Finish() returns (overflow: bool, data: seq<Byte>)
      requires Valid()
      modifies this`buf, this`bufSize, this`cur, this`finished, buf
      ensures Valid() && (buf == old(buf) || fresh(buf))
      ensures !overflow ==> finished && data == buf[..cur]
      ensures old(finished) ==> !overflow && cur == old(cur) && buf[..cur] == old(buf[..cur])
      ensures !old(finished) && !overflow ==> |data| <= INT_MAX && data == Le32(|data|) + EncLevels(levels) + [0]
      ensures !old(finished) && !overflow ==> IntLaid(data, 0, |data|) && data[|data| - 1] == 0
      ensures !old(finished) && !overflow && |levels| == 1 ==> data == EncDoc(levels[0].elems)
      ensures overflow ==> TooBig(old(cur) + 1)
    {
      hide EncLevels, StackMatches, Le32, EncDoc, IntLaid;
      if finished {
        return false, buf[..cur];
      }
      StackDepth(stack, levels);
      overflow := EnsureSpace(1);
      if overflow {
        return true, [];
      }
      ghost var bytes := buf[..cur];
      assert bytes[4..] == EncLevels(levels);
      Append([0]);
      Patch(0, cur);
      data := buf[..cur];
      finished := true;
      LengthInFront(bytes, data);
      DocFinished(levels, data);
    }
  }

  /** The terminator behind and the length over the first four bytes. */
  lemma LengthInFront(bytes: seq<Byte>, data: seq<Byte>)
    requires |bytes| >= 4 && |data| == |bytes| + 1 <= INT_MAX
    requires data == (bytes + [0])[..0] + Le32(|data|) + (bytes + [0])[4..]
    ensures data == Le32(|data|) + bytes[4..] + [0]
    ensures IntLaid(data, 0, |data|) && data[|data| - 1] == 0
  {
    hide Le32, IntLaid;
    assert data[0..4] == Le32(|data|);
    LengthLaid(data, 0, |data|);
    assert (bytes + [0])[4..] == bytes[4..] + [0];
  }

  lemma DocFinished(levels: seq<Level>, data: seq<Byte>)
    requires levels != [] && |data| <= INT_MAX && data == Le32(|data|) + EncLevels(levels) + [0]
    ensures |levels| == 1 ==> data == EncDoc(levels[0].elems)
  {
    hide Le32, EncLevels, EncDoc;
    if |levels| == 1 {
      OnlyLevel(levels);
      DocOf(levels[0].elems);
    }
  }
}
