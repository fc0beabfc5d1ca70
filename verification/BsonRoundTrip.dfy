/**
 Whole documents: a tree of elements appended call by call is encoded, and the iterator yields it
 again, element by element.
 */
module BsonRoundTrip {
  import opened Bytes
  import opened Bson
  import opened BsonFormat
  import opened BsonReading
  import opened BsonBuilding

  /** The builder's stack has room for the objects nested in `v`; a scope is built on its own. */
  ghost predicate Nests(v: Value, room: nat)
    decreases v
  {
    match v
    case Object(elems) => room > 0 && NestElems(elems, room - 1)
    case Array(elems) => room > 0 && NestElems(elems, room - 1)
    case CodeWithScope(_, scope) => NestElems(scope, MAX_DEPTH)
    case _ => true
  }

  ghost predicate NestElems(elems: seq<Elem>, room: nat)
    decreases elems
  {
    elems != [] ==> Nests(elems[0].value, room) && NestElems(elems[1..], room)
  }

  function WithElems(levels: seq<Level>, elems: seq<Elem>): seq<Level>
    requires levels != []
  {
    var n := |levels| - 1;
    levels[n := levels[n].(elems := levels[n].elems + elems)]
  }

  /** The size of everything appended so far, and the bound on growing beyond it. */
  ghost predicate Overflows(levels: seq<Level>, more: nat)
    requires levels != []
  {
    TooBig(4 + |EncLevels(levels)| + more + 5)
  }

  lemma WithElemsStep(levels: seq<Level>, e: Elem, rest: seq<Elem>)
    requires levels != []
    ensures WithElems(WithElem(levels, e), rest) == WithElems(levels, [e] + rest)
    ensures |EncLevels(WithElem(levels, e))| == |EncLevels(levels)| + |EncElem(e)|
  {
    EncWithElem(levels, e);
    var n := |levels| - 1;
    assert levels[n].elems + [e] + rest == levels[n].elems + ([e] + rest);
  }

  lemma SizeOfElems(e: Elem, rest: seq<Elem>)
    ensures |EncElems([e] + rest)| == |EncElem(e)| + |EncElems(rest)|
  {
    assert ([e] + rest)[1..] == rest;
  }

  lemma EncLast(levels: seq<Level>, l: Level)
    requires levels != []
    ensures EncLevels(levels + [l])
            == EncLevels(levels) + EncHeader(l.kind, l.key) + [0, 0, 0, 0] + EncElems(l.elems)
  {
    assert (levels + [l])[..|levels|] == levels;
    hide EncHeader, EncElems;
  }

  lemma ObjectShape(levels: seq<Level>, kind: Byte, key: seq<Byte>, elems: seq<Elem>)
    requires levels != []
    ensures WithElems(levels + [Level(kind, key, [])], elems) == levels + [Level(kind, key, elems)]
    ensures Closed(levels + [Level(kind, key, elems)]) == WithElem(levels, Elem(key, Wrap(kind, elems)))
  {
    hide WithElem;
    assert [] + elems == elems;
    assert (levels + [Level(kind, key, elems)])[..|levels|] == levels;
  }

  lemma ObjectSize(kind: Byte, key: seq<Byte>, elems: seq<Elem>)
    requires kind == 3 || kind == 4
    ensures |EncElem(Elem(key, Wrap(kind, elems)))| == |EncHeader(kind, key)| + |EncElems(elems)| + 5
  {
    hide EncHeader, EncElems, Le32;
    assert Kind(Wrap(kind, elems)) == kind && EncValue(Wrap(kind, elems)) == EncDoc(elems);
  }

  /** An object built in place: opened, filled and closed. */
  lemma ObjectBuilt(levels: seq<Level>, kind: Byte, key: seq<Byte>, elems: seq<Elem>)
    requires levels != [] && (kind == 3 || kind == 4)
    ensures var deeper := WithElems(levels + [Level(kind, key, [])], elems);
      && |deeper| == |levels| + 1 && Closed(deeper) == WithElem(levels, Elem(key, Wrap(kind, elems)))
      && |EncLevels(deeper)| == |EncLevels(levels)| + |EncHeader(kind, key)| + 4 + |EncElems(elems)|
    ensures |EncLevels(levels + [Level(kind, key, [])])| == |EncLevels(levels)| + |EncHeader(kind, key)| + 4
    ensures |EncElem(Elem(key, Wrap(kind, elems)))| == |EncHeader(kind, key)| + |EncElems(elems)| + 5
  {
    hide EncLevels, EncHeader, EncElems, EncElem, WithElems, WithElem, Closed;
    ObjectShape(levels, kind, key, elems);
    ObjectSize(kind, key, elems);
    EncLast(levels, Level(kind, key, elems));
    EncLast(levels, Level(kind, key, []));
    EncNone();
  }

  lemma EncNone()
    ensures EncElems([]) == []
  {
  }

  lemma WithNothing(levels: seq<Level>)
    requires levels != []
    ensures WithElems(levels, []) == levels
  {
    assert levels[|levels| - 1].elems + [] == levels[|levels| - 1].elems;
  }

  lemma WholeDocument(elems: seq<Elem>)
    ensures var levels := WithElems([Level(0, [], [])], elems);
      && |levels| == 1 && levels[0].elems == elems
      && |EncLevels(levels)| == |EncElems(elems)| && |EncLevels([Level(0, [], [])])| == 0
      && |EncDoc(elems)| == |EncElems(elems)| + 5
  {
    assert [] + elems == elems;
  }

  lemma ElemsParts(elems: seq<Elem>)
    requires WellFormedElems(elems)
    ensures elems != [] ==>
      [elems[0]] + elems[1..] == elems && WellFormed(elems[0].value) && WellFormedElems(elems[1..])
  {
  }

  /** How building ended: done, at a size beyond `int`, or with more open objects than the stack can hold. */
  datatype Status = Built | TooLong | TooDeep

  function FromOverflow(overflow: bool): Status { if overflow then TooLong else Built }

  /** Appends one element with the builder's typed functions. */
  method AppendElem(b: BsonBuffer, e: Elem) returns (status: Status)
    requires b.Valid() && !b.finished && WellFormed(e.value)
    modifies b, b.buf
    ensures !b.finished && (status != TooDeep ==> b.Valid()) && (b.buf == old(b.buf) || fresh(b.buf))
    ensures status.Built? ==> b.levels == WithElem(old(b.levels), e) && |b.stack| == |old(b.stack)|
    ensures status.Built? ==> Nests(e.value, MAX_DEPTH - |old(b.stack)|)
    ensures status.TooDeep? ==> !Nests(e.value, MAX_DEPTH - |old(b.stack)|)
    ensures status.TooLong? ==> Overflows(old(b.levels), |EncElem(e)|)
    decreases e.value, 1
  {
    hide EncLevels, EncElem, WithElem, BsonBuffer.Valid;
    b.Extent();
    match e.value {
      case Object(elems) => status := AppendNested(b, e, elems);
      case Array(elems) => status := AppendNested(b, e, elems);
      case CodeWithScope(code, scope) => status := AppendScoped(b, e, code, scope);
      case _ =>
        var overflow := AppendSimple(b, e);
        status := FromOverflow(overflow);
    }
  }

  /** The types that hold no elements of their own. */
  method AppendSimple(b: BsonBuffer, e: Elem) returns (overflow: bool)
    requires b.Valid() && !b.finished && WellFormed(e.value) && Simple(e.value)
    modifies b, b.buf
    ensures !b.finished && b.Valid() && (b.buf == old(b.buf) || fresh(b.buf))
    ensures !overflow ==> b.levels == WithElem(old(b.levels), e) && |b.stack| == |old(b.stack)|
    ensures overflow ==> Overflows(old(b.levels), |EncElem(e)|)
  {
    hide ElemLaid, EncLevels, EncElem, WithElem, BsonBuffer.Valid;
    b.Extent();
    var name := e.key;
    match e.value {
      case Double(bits) => overflow := b.AppendDouble(name, bits);
      case Text(_) => overflow := b.AppendStringBase(name, e.value);
      case Symbol(_) => overflow := b.AppendStringBase(name, e.value);
      case Code(_) => overflow := b.AppendStringBase(name, e.value);
      case Binary(subtype, data) => overflow := b.AppendBinary(name, subtype, data);
      case Undefined => overflow := b.AppendUndefined(name);
      case Oid(id) => overflow := b.AppendOid(name, id);
      case Bool(x) => overflow := b.AppendBool(name, x);
      case Date(bits) => overflow := b.AppendDate(name, bits);
      case Null => overflow := b.AppendNull(name);
      case Regex(pattern, opts) => overflow := b.AppendRegex(name, pattern, opts);
      case Int(i) => overflow := b.AppendInt(name, i);
      case Long(bits) => overflow := b.AppendLong(name, bits);
    }
    b.Extent();
  }

  method AppendNested(b: BsonBuffer, e: Elem, elems: seq<Elem>) returns (status: Status)
    requires b.Valid() && !b.finished && WellFormed(e.value) && (e.value == Object(elems) || e.value == Array(elems))
    modifies b, b.buf
    ensures !b.finished && (status != TooDeep ==> b.Valid()) && (b.buf == old(b.buf) || fresh(b.buf))
    ensures status.Built? ==> b.levels == WithElem(old(b.levels), e) && |b.stack| == |old(b.stack)|
    ensures status.Built? ==> Nests(e.value, MAX_DEPTH - |old(b.stack)|)
    ensures status.TooDeep? ==> !Nests(e.value, MAX_DEPTH - |old(b.stack)|)
    ensures status.TooLong? ==> Overflows(old(b.levels), |EncElem(e)|)
    decreases e.value, 0
  {
    hide EncLevels, EncElems, EncElem, EncHeader, WithElems, WithElem, Closed, NestElems, BsonBuffer.Valid, Filled;
    b.Extent();
    ObjectBuilt(b.levels, Kind(e.value), e.key, elems);
    assert e == Elem(e.key, Wrap(Kind(e.value), elems));
    var overflow, overrun := b.AppendStart(Kind(e.value), e.key);
    if overrun {
      return TooDeep;
    }
    b.Extent();
    if overflow {
      return TooLong;
    }
    status := AppendElems(b, elems);
    if status.Built? {
      var underrun;
      overflow, underrun := b.AppendFinishObject();
      b.Extent();
      status := FromOverflow(overflow);
    }
  }

  method AppendElems(b: BsonBuffer, elems: seq<Elem>) returns (status: Status)
    requires b.Valid() && !b.finished && WellFormedElems(elems)
    modifies b, b.buf
    ensures !b.finished && (status != TooDeep ==> b.Valid()) && (b.buf == old(b.buf) || fresh(b.buf))
    ensures status.Built? ==> b.levels == WithElems(old(b.levels), elems) && |b.stack| == |old(b.stack)|
    ensures status.Built? ==> NestElems(elems, MAX_DEPTH - |old(b.stack)|)
    ensures status.TooDeep? ==> !NestElems(elems, MAX_DEPTH - |old(b.stack)|)
    ensures status.TooLong? ==> Overflows(old(b.levels), |EncElems(elems)|)
    decreases elems, 0
  {
    hide EncLevels, EncElems, EncElem, WithElems, WithElem, BsonBuffer.Valid, Nests;
    b.Extent();
    WithNothing(b.levels);
    ElemsParts(elems);
    if elems == [] {
      return Built;
    }
    var e, rest := elems[0], elems[1..];
    WithElemsStep(b.levels, e, rest);
    SizeOfElems(e, rest);
    status := AppendElem(b, e);
    if status.Built? {
      status := AppendElems(b, rest);
    }
  }

  /** A scope is a document of its own, built in its own buffer. */
  method AppendScoped(b: BsonBuffer, e: Elem, code: seq<Byte>, scope: seq<Elem>) returns (status: Status)
    requires b.Valid() && !b.finished && WellFormed(e.value) && e.value == CodeWithScope(code, scope)
    modifies b, b.buf
    ensures !b.finished && b.Valid() && (b.buf == old(b.buf) || fresh(b.buf))
    ensures status.Built? ==> b.levels == WithElem(old(b.levels), e) && |b.stack| == |old(b.stack)|
    ensures status.Built? ==> NestElems(scope, MAX_DEPTH)
    ensures status.TooDeep? ==> !NestElems(scope, MAX_DEPTH)
    ensures status.TooLong? ==> Overflows(old(b.levels), |EncElem(e)|)
    decreases e.value, 0
  {
    hide EncLevels, EncElem, WithElem, NestElems, Sized, SizeOf, ReadLe32, EncHeader, Le32, EncDoc, ScopeBytes,
         BsonBuffer.Valid;
    b.Extent();
    var data;
    status, data := BuildDocument(scope);
    ScopeElem(e.key, code, scope);
    if status.Built? {
      var overflow, outside := b.AppendCodeWScope(e.key, code, data, scope);
      b.Extent();
      status := FromOverflow(overflow);
    }
  }

  /**
   Builds a whole document. Reading it back with the iterator gives the same tree. The builder fails on
   exactly the trees with more than 32 open objects, unless it fails before on a document of more than
   some 700 MB.
   */
  method BuildDocument(elems: seq<Elem>) returns (status: Status, data: seq<Byte>)
    requires WellFormedElems(elems)
    ensures status.Built? ==> NestElems(elems, 32) && data == EncDoc(elems) && ReadDoc(data, 0) == Some(elems)
    ensures status.Built? ==> DocLaid(data, 0, |data|, elems)
    ensures status.Built? ==> Sized(data) && SizeOf(data) == |data|
    ensures status.TooDeep? ==> !NestElems(elems, 32)
    ensures status.TooLong? ==> TooBig(|EncDoc(elems)| + 5)
    decreases elems, 1
  {
    hide DocLaid, EncLevels, EncElems, EncDoc, WithElems, StackMatches, NestElems;
    WholeDocument(elems);
    var b := new BsonBuffer();
    b.Extent();
    data := [];
    status := AppendElems(b, elems);
    if status.Built? {
      var overflow;
      overflow, data := b.Finish();
      status := FromOverflow(overflow);
    }
    if status.Built? {
      ReadsBack(elems);
      DocIsLaid(data, 0, elems);
    }
  }

  /** What is appended to a buffer that was finished lies behind the document, and is never read. */
  lemma BehindTheEnd(elems: seq<Elem>, more: seq<Byte>)
    requires WellFormedElems(elems) && |EncDoc(elems)| <= INT_MAX
    ensures ReadDoc(EncDoc(elems) + more, 0) == Some(elems)
  {
    hide EncDoc, ReadDoc, WellFormedElems;
    assert At(EncDoc(elems) + more, 0, EncDoc(elems));
    DocReads(EncDoc(elems) + more, 0, elems);
  }
}
