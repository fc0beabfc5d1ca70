/**
 Reading BSON: the iterator of bson.c over raw bytes, a full traversal with it, and the theorem that
 it reads back exactly the elements of an encoded document.
 */
module BsonReading {
  import opened Bytes
  import opened Bson

  // ---- The accessors, at the position `cur` of an element ----

  function KeyLen(s: seq<Byte>, cur: nat): nat
    requires cur < |s|
  {
    StrLen(s, cur + 1)
  }

  /** Where the value starts: past the type, the key and its terminator. */
  function ValueAt(s: seq<Byte>, cur: nat): nat
    requires cur < |s|
  {
    cur + 1 + KeyLen(s, cur) + 1
  }

  /** Where a C string that starts at `pos` ends, terminator included. */
  function AfterString(s: seq<Byte>, pos: nat): nat
    requires pos <= |s|
  {
    pos + StrLen(s, pos) + 1
  }

  /** What a value takes besides the length in front of it; the length of a document counts everything. */
  function SizeBesides(kind: Byte): nat {
    match kind
    case 12 => 16
    case 5 => 5
    case 2 | 13 | 14 => 4
    case _ => 0
  }

  /** The size of a value from its type, or None where the iterator gives up. Reads past the end are None too. */
  function ValueSize(s: seq<Byte>, cur: nat): Option<int>
    requires cur < |s|
  {
    var v := ValueAt(s, cur);
    match s[cur]
    case 6 => Some(0)
    case 10 => Some(0)
    case 8 => Some(1)
    case 16 => Some(4)
    case 18 => Some(8)
    case 1 => Some(8)
    case 17 => Some(8)
    case 9 => Some(8)
    case 7 => Some(12)
    case 11 =>
      if v <= |s| && AfterString(s, v) <= |s| then Some(AfterString(s, AfterString(s, v)) - v) else None
    case 2 | 3 | 4 | 5 | 12 | 13 | 14 | 15 =>
      if v + 4 <= |s| then Some(ReadLe32(s, v) + SizeBesides(s[cur])) else None
    case _ => None
  }

  /** The position `bson_iterator_next` moves to; at the end of a document it stays. */
  function Advance(s: seq<Byte>, cur: nat): Option<int>
    requires cur < |s|
  {
    if s[cur] == 0 then Some(cur)
    else match ValueSize(s, cur) case None => None case Some(ds) => Some(ValueAt(s, cur) + ds)
  }

  /** The document within a value of type 15, behind its code. */
  function ScopeAt(s: seq<Byte>, v: nat): Option<int> {
    if v + 8 <= |s| then Some(v + 8 + ReadLe32(s, v + 4)) else None
  }

  // ---- A traversal ----

  /** The value at `v`, whose element ends at `end`. */
  function ReadValue(s: seq<Byte>, kind: Byte, v: nat, end: nat): Option<Value>
    requires v <= end <= |s|
    decreases |s| - v, 2
  {
    match kind
    case 1 => Some(Double(s[v..end]))
    case 2 => if v + 4 <= |s| then Some(Text(CStringAt(s, v + 4))) else None
    case 3 => (match ReadDoc(s, v) case None => None case Some(d) => Some(Object(d)))
    case 4 => (match ReadDoc(s, v) case None => None case Some(d) => Some(Array(d)))
    case 5 => if v + 5 <= end then Some(Binary(s[v + 4], s[v + 5..end])) else None
    case 6 => Some(Undefined)
    case 7 => Some(Oid(s[v..end]))
    case 8 => if v < |s| then Some(Bool(s[v] != 0)) else None
    case 9 => Some(Date(s[v..end]))
    case 10 => Some(Null)
    case 11 =>
      if AfterString(s, v) <= |s| then Some(Regex(CStringAt(s, v), CStringAt(s, AfterString(s, v)))) else None
    case 13 => if v + 4 <= |s| then Some(Code(CStringAt(s, v + 4))) else None
    case 14 => if v + 4 <= |s| then Some(Symbol(CStringAt(s, v + 4))) else None
    case 15 =>
      var scope := ScopeAt(s, v);
      if scope.None? || scope.value <= v || v + 8 > |s| then None
      else (match ReadDoc(s, scope.value) case None => None case Some(d) => Some(CodeWithScope(CStringAt(s, v + 8), d)))
    case 16 => if v + 4 <= |s| then Some(Int(ReadLe32(s, v))) else None
    case 18 => Some(Long(s[v..end]))
    case _ => None
  }

  function CStringAt(s: seq<Byte>, pos: nat): seq<Byte>
    requires pos <= |s|
  {
    s[pos..pos + StrLen(s, pos)]
  }

  /** All elements from `cur` on, until the terminating zero. */
  function ReadElems(s: seq<Byte>, cur: nat): Option<seq<Elem>>
    decreases |s| - cur, 0
  {
    if cur >= |s| then None
    else if s[cur] == 0 then Some([])
    else
      var end := Advance(s, cur);
      var v := ValueAt(s, cur);
      if end.None? || !(v <= end.value <= |s|) then None
      else
        match ReadValue(s, s[cur], v, end.value)
        case None => None
        case Some(value) =>
          match ReadElems(s, end.value)
          case None => None
          case Some(rest) => Some([Elem(CStringAt(s, cur + 1), value)] + rest)
  }

  /** The document at `pos`; its elements start behind its length. */
  function ReadDoc(s: seq<Byte>, pos: nat): Option<seq<Elem>>
    decreases |s| - pos, 1
  {
    if pos + 4 > |s| then None else ReadElems(s, pos + 4)
  }

  // ---- Reading back what was encoded ----

  lemma IntAt(s: seq<Byte>, p: nat, n: int)
    requires FitsInt(n) && At(s, p, Le32(n))
    ensures p + 4 <= |s| && ReadLe32(s, p) == n
  {
    Le32RoundTrip(s, p, n);
  }

  lemma CStringReads(s: seq<Byte>, p: nat, t: seq<Byte>)
    requires NulFree(t) && At(s, p, EncCString(t))
    ensures p + |t| < |s| && StrLen(s, p) == |t| && CStringAt(s, p) == t && AfterString(s, p) == p + |EncCString(t)|
  {
    AtSplit(s, p, t, [0]);
    ByteAt(s, p + |t|, 0);
    StrLenOfText(s, p, t);
  }

  lemma HeaderReads(s: seq<Byte>, cur: nat, kind: Byte, key: seq<Byte>)
    requires NulFree(key) && At(s, cur, EncHeader(kind, key))
    ensures cur < |s| && s[cur] == kind && CStringAt(s, cur + 1) == key
    ensures ValueAt(s, cur) == cur + |EncHeader(kind, key)|
  {
    AtSplit(s, cur, [kind], EncCString(key));
    ByteAt(s, cur, kind);
    CStringReads(s, cur + 1, key);
  }

  lemma TextReads(s: seq<Byte>, p: nat, t: seq<Byte>)
    requires NulFree(t) && At(s, p, EncText(t)) && |EncText(t)| <= INT_MAX
    ensures p + 4 <= |s| && 4 + ReadLe32(s, p) == |EncText(t)| && CStringAt(s, p + 4) == t
  {
    AtSplit(s, p, Length(|t| + 1), EncCString(t));
    IntAt(s, p, |t| + 1);
    CStringReads(s, p + 4, t);
  }

  /** A value is given its exact size and read back. */
  lemma {:induction false} ValueReads(s: seq<Byte>, cur: nat, p: nat, v: Value)
    requires WellFormed(v) && At(s, p, EncValue(v)) && |EncValue(v)| <= INT_MAX
    requires cur < |s| && s[cur] == Kind(v) && ValueAt(s, cur) == p
    ensures ValueSize(s, cur) == Some(|EncValue(v)|)
    ensures ReadValue(s, Kind(v), p, p + |EncValue(v)|) == Some(v)
    decreases v
  {
    hide *;
    if v.Object? || v.Array? {
      NestedForm(v);
      DocReads(s, p, v.elems);
      NestedAt(s, cur, p, v);
    } else if v.CodeWithScope? {
      ScopeReads(s, cur, p, v);
    } else {
      SimpleValueReads(s, cur, p, v);
    }
  }

  lemma NestedForm(v: Value)
    requires v.Object? || v.Array?
    ensures EncValue(v) == EncDoc(v.elems) && (WellFormed(v) ==> WellFormedElems(v.elems))
  {
    hide EncDoc, WellFormedElems;
  }

  lemma NestedAt(s: seq<Byte>, cur: nat, p: nat, v: Value)
    requires (v.Object? || v.Array?) && cur < |s| && s[cur] == Kind(v) && ValueAt(s, cur) == p
    requires p + 4 <= |s| && ReadLe32(s, p) == |EncDoc(v.elems)| && ReadDoc(s, p) == Some(v.elems)
    requires At(s, p, EncDoc(v.elems))
    ensures ValueSize(s, cur) == Some(|EncDoc(v.elems)|)
    ensures ReadValue(s, Kind(v), p, p + |EncDoc(v.elems)|) == Some(v)
  {
    hide ValueAt, ReadDoc, ReadElems, StrLen, ScopeAt, ReadLe32, EncDoc;
  }

  lemma ScopeReads(s: seq<Byte>, cur: nat, p: nat, v: Value)
    requires v.CodeWithScope? && WellFormed(v) && At(s, p, EncValue(v)) && |EncValue(v)| <= INT_MAX
    requires cur < |s| && s[cur] == Kind(v) && ValueAt(s, cur) == p
    ensures ValueSize(s, cur) == Some(|EncValue(v)|)
    ensures ReadValue(s, Kind(v), p, p + |EncValue(v)|) == Some(v)
    decreases v, 0
  {
    hide *;
    ScopeForm(v);
    var size := 8 + |v.code| + 1 + |EncDoc(v.scope)|;
    ScopeParts(s, p, v.code, EncDoc(v.scope));
    var at := p + size - |EncDoc(v.scope)|;
    DocReads(s, at, v.scope);
    ScopeValueAt(s, cur, p, size, at);
  }

  lemma ScopeForm(v: Value)
    requires v.CodeWithScope? && WellFormed(v) && |EncValue(v)| <= INT_MAX
    ensures var size := 8 + |v.code| + 1 + |EncDoc(v.scope)|;
      && EncValue(v) == Length(size) + EncText(v.code) + EncDoc(v.scope)
      && |EncValue(v)| == size && |EncDoc(v.scope)| <= INT_MAX
    ensures WellFormedElems(v.scope) && NulFree(v.code) && Kind(v) == 15
  {
  }

  lemma ScopeValueAt(s: seq<Byte>, cur: nat, p: nat, size: nat, at: nat)
    requires cur < |s| && s[cur] == 15 && ValueAt(s, cur) == p
    requires p + 8 <= |s| && ReadLe32(s, p) == size && p + size <= |s|
    requires ScopeAt(s, p) == Some(at) && at > p && ReadDoc(s, at).Some?
    ensures ValueSize(s, cur) == Some(size)
    ensures ReadValue(s, 15, p, p + size) == Some(CodeWithScope(CStringAt(s, p + 8), ReadDoc(s, at).value))
  {
    hide ValueAt, ReadDoc, ReadElems, StrLen, ScopeAt, ReadLe32;
  }

  lemma ScopeParts(s: seq<Byte>, p: nat, code: seq<Byte>, scope: seq<Byte>)
    requires var size := 8 + |code| + 1 + |scope|; size <= INT_MAX && At(s, p, Length(size) + EncText(code) + scope)
    requires NulFree(code)
    ensures var size := 8 + |code| + 1 + |scope|;
      && p + 8 <= |s| && ReadLe32(s, p) == size && CStringAt(s, p + 8) == code
      && ScopeAt(s, p) == Some(p + size - |scope|) && At(s, p + size - |scope|, scope)
      && |Length(size) + EncText(code) + scope| == size && p + size <= |s|
  {
    hide Le32, ReadLe32, StrLen, CStringAt, NulFree, IntLaid, At;
    var size := 8 + |code| + 1 + |scope|;
    AtSplit(s, p, Length(size) + EncText(code), scope);
    AtSplit(s, p, Length(size), EncText(code));
    IntAt(s, p, size);
    TextReads(s, p + 4, code);
  }

  lemma SimpleValueReads(s: seq<Byte>, cur: nat, p: nat, v: Value)
    requires !v.Object? && !v.Array? && !v.CodeWithScope?
    requires WellFormed(v) && At(s, p, EncValue(v)) && |EncValue(v)| <= INT_MAX
    requires cur < |s| && s[cur] == Kind(v) && ValueAt(s, cur) == p
    ensures ValueSize(s, cur) == Some(|EncValue(v)|)
    ensures ReadValue(s, Kind(v), p, p + |EncValue(v)|) == Some(v)
  {
    hide ValueAt, IntLaid;
    if v.Text? || v.Code? || v.Symbol? {
      var t := v.text;
      TextReads(s, p, t);
      hide At, ReadLe32, StrLen, CStringAt, EncText, Le32;
    } else if v.Binary? {
      BinaryReads(s, cur, p, v);
    } else if v.Regex? {
      RegexReads(s, cur, p, v);
    } else if v.Int? {
      IntAt(s, p, v.i);
      hide At, ReadLe32, Le32;
    } else {
      if v.Bool? {
        ByteAt(s, p, if v.b then 1 else 0);
      }
      hide ReadLe32, Le32, StrLen;
    }
  }

  lemma BinaryReads(s: seq<Byte>, cur: nat, p: nat, v: Value)
    requires v.Binary? && At(s, p, EncValue(v)) && |EncValue(v)| <= INT_MAX
    requires cur < |s| && s[cur] == Kind(v) && ValueAt(s, cur) == p
    ensures ValueSize(s, cur) == Some(|EncValue(v)|)
    ensures ReadValue(s, Kind(v), p, p + |EncValue(v)|) == Some(v)
  {
    hide ValueAt;
    AtSplit(s, p, Length(|v.data|) + [v.subtype], v.data);
    AtSplit(s, p, Length(|v.data|), [v.subtype]);
    IntAt(s, p, |v.data|);
    ByteAt(s, p + 4, v.subtype);
    assert s[p + 5..p + |EncValue(v)|] == v.data;
    hide At, ReadLe32, Le32;
  }

  lemma RegexForm(v: Value)
    requires v.Regex? && WellFormed(v)
    ensures EncValue(v) == EncCString(v.pattern) + EncCString(v.opts)
    ensures NulFree(v.pattern) && NulFree(v.opts) && Kind(v) == 11
  {
  }

  lemma RegexReads(s: seq<Byte>, cur: nat, p: nat, v: Value)
    requires v.Regex? && WellFormed(v) && At(s, p, EncValue(v)) && |EncValue(v)| <= INT_MAX
    requires cur < |s| && s[cur] == Kind(v) && ValueAt(s, cur) == p
    ensures ValueSize(s, cur) == Some(|EncValue(v)|)
    ensures ReadValue(s, Kind(v), p, p + |EncValue(v)|) == Some(v)
  {
    hide *;
    RegexForm(v);
    AtSplit(s, p, EncCString(v.pattern), EncCString(v.opts));
    CStringReads(s, p, v.pattern);
    CStringReads(s, p + |EncCString(v.pattern)|, v.opts);
    RegexAt(s, cur, p, |EncCString(v.pattern)|, |EncCString(v.opts)|);
  }

  /** A regular expression is two strings, one behind the other. */
  lemma RegexAt(s: seq<Byte>, cur: nat, p: nat, a: nat, b: nat)
    requires cur < |s| && s[cur] == 11 && ValueAt(s, cur) == p
    requires p + a + b <= |s| && AfterString(s, p) == p + a && AfterString(s, p + a) == p + a + b
    ensures ValueSize(s, cur) == Some(a + b)
    ensures ReadValue(s, 11, p, p + a + b) == Some(Regex(CStringAt(s, p), CStringAt(s, p + a)))
  {
    hide ValueAt, ReadDoc, ReadElems, StrLen;
  }

  lemma DocForm(elems: seq<Elem>)
    ensures EncDoc(elems) == Length(4 + |EncElems(elems)| + 1) + EncElems(elems) + [0]
    ensures |EncDoc(elems)| == 4 + |EncElems(elems)| + 1 && |Length(4 + |EncElems(elems)| + 1)| == 4
    ensures |EncDoc(elems)| <= INT_MAX ==> FitsInt(|EncDoc(elems)|) && Length(|EncDoc(elems)|) == Le32(|EncDoc(elems)|)
  {
    hide Le32, EncElems;
  }

  lemma ReadDocForm(s: seq<Byte>, p: nat)
    requires p + 4 <= |s|
    ensures ReadDoc(s, p) == ReadElems(s, p + 4)
  {
    hide ReadElems;
  }

  lemma {:induction false} DocReads(s: seq<Byte>, p: nat, elems: seq<Elem>)
    requires WellFormedElems(elems) && At(s, p, EncDoc(elems)) && |EncDoc(elems)| <= INT_MAX
    ensures p + 4 <= |s| && ReadLe32(s, p) == |EncDoc(elems)|
    ensures ReadDoc(s, p) == Some(elems)
    decreases elems, 1
  {
    hide *;
    DocForm(elems);
    var n := 4 + |EncElems(elems)| + 1;
    AtSplit(s, p, Length(n) + EncElems(elems), [0]);
    AtSplit(s, p, Length(n), EncElems(elems));
    IntAt(s, p, n);
    ByteAt(s, p + 4 + |EncElems(elems)|, 0);
    ElemsRead(s, p + 4, elems);
    ReadDocForm(s, p);
  }

  lemma {:induction false} ElemsRead(s: seq<Byte>, cur: nat, elems: seq<Elem>)
    requires WellFormedElems(elems) && At(s, cur, EncElems(elems)) && |EncElems(elems)| <= INT_MAX
    requires cur + |EncElems(elems)| < |s| && s[cur + |EncElems(elems)|] == 0
    ensures ReadElems(s, cur) == Some(elems)
    decreases elems, 0
  {
    hide *;
    if elems == [] {
      NoElems(s, cur);
    } else {
      var e, rest := elems[0], elems[1..];
      var header, value := EncHeader(Kind(e.value), e.key), EncValue(e.value);
      ElemsForm(elems);
      AtSplit(s, cur, header + value, EncElems(rest));
      AtSplit(s, cur, header, value);
      HeaderReads(s, cur, Kind(e.value), e.key);
      ValueReads(s, cur, cur + |header|, e.value);
      ElemsRead(s, cur + |header| + |value|, rest);
      ElemAt(s, cur, cur + |header|, |value|, e, rest);
      assert [e] + rest == elems;
    }
  }

  lemma NoElems(s: seq<Byte>, cur: nat)
    requires cur + |EncElems([])| < |s| && s[cur + |EncElems([])|] == 0
    ensures ReadElems(s, cur) == Some([])
  {
  }

  lemma ElemsForm(elems: seq<Elem>)
    requires WellFormedElems(elems) && elems != []
    ensures var e := elems[0];
      && EncElems(elems) == EncHeader(Kind(e.value), e.key) + EncValue(e.value) + EncElems(elems[1..])
      && Kind(e.value) != 0 && NulFree(e.key) && WellFormed(e.value) && WellFormedElems(elems[1..])
  {
  }

  lemma ElemAt(s: seq<Byte>, cur: nat, p: nat, size: nat, e: Elem, rest: seq<Elem>)
    requires cur < |s| && s[cur] != 0 && ValueAt(s, cur) == p && p + size <= |s|
    requires CStringAt(s, cur + 1) == e.key && ValueSize(s, cur) == Some(size)
    requires ReadValue(s, s[cur], p, p + size) == Some(e.value) && ReadElems(s, p + size) == Some(rest)
    ensures ReadElems(s, cur) == Some([e] + rest)
  {
    hide ValueAt, ValueSize, ReadValue, StrLen, CStringAt;
  }

  /** The iterator, recursively, yields exactly the elements of an encoded document, then its end. */
  lemma ReadsBack(elems: seq<Elem>)
    requires WellFormedElems(elems) && |EncDoc(elems)| <= INT_MAX
    ensures ReadDoc(EncDoc(elems), 0) == Some(elems)
    ensures ReadLe32(EncDoc(elems), 0) == |EncDoc(elems)|
  {
    DocReads(EncDoc(elems), 0, elems);
  }

  // ---- The iterator object ----

  /** The types that `bson_iterator_next` can step over. */
  predicate Known(kind: Byte) { kind <= 18 && kind != 0 }

  /** What a step comes to: the type of an element and its place, a type that is fatal, or bytes outside the data. */
  datatype Step = Type(at: nat, kind: Byte) | UnknownType | Outside

  function TypeAt(s: seq<Byte>, at: int): Step { if 0 <= at < |s| then Type(at, s[at]) else Outside }

  function StepFrom(s: seq<Byte>, cur: nat, first: bool): Step {
    if cur >= |s| || first then TypeAt(s, cur)
    else if s[cur] != 0 && !Known(s[cur]) then UnknownType
    else match Advance(s, cur) case None => Outside case Some(at) => TypeAt(s, at)
  }

  /** The types that the builder never writes: how far the iterator goes, and where it gives up. */
  lemma OtherTypes(s: seq<Byte>, cur: nat, key: seq<Byte>, n: int)
    requires NulFree(key) && cur < |s| && At(s, cur + 1, key + [0])
    ensures var v := cur + 1 + |key| + 1;
      && (s[cur] == 0 ==> StepFrom(s, cur, false) == Type(cur, 0))
      && (s[cur] == 17 ==> StepFrom(s, cur, false) == if v + 8 < |s| then Type(v + 8, s[v + 8]) else Outside)
      && (s[cur] == 12 && IntLaid(s, v, n) ==>
            StepFrom(s, cur, false) == if 0 <= v + 4 + 12 + n < |s| then Type(v + 16 + n, s[v + 16 + n]) else Outside)
      && (s[cur] > 18 ==> StepFrom(s, cur, false) == UnknownType)
  {
    hide StrLen, IntLaid;
    assert EncCString(key) == key + [0];
    CStringReads(s, cur + 1, key);
    var v := cur + 1 + |key| + 1;
    if IntLaid(s, v, n) {
      IntIsRead(s, v, n);
    }
  }

  lemma IntIsRead(s: seq<Byte>, p: nat, n: int)
    requires IntLaid(s, p, n)
    ensures p + 4 <= |s| && ReadLe32(s, p) == n
  {
  }

  class Iterator {
    const data: seq<Byte>
    var cur: nat
    var first: bool

    /** Starts in front of the first element of the document at `pos`. */
    constructor (data: seq<Byte>, pos: nat)
      ensures this.data == data && cur == pos + 4 && first
    {
      this.data := data;
      cur := pos + 4;
      first := true;
    }

    /**
     Moves to the next element, the first time to the first one, and returns its type. Where that takes a
     look at bytes outside the data, the model stops.
     */
    method Next() returns (step: Step)
      modifies this
      ensures !first && step == StepFrom(data, old(cur), old(first))
      ensures cur == if step.Type? then step.at else old(cur)
    {
      hide StrLen, ReadLe32;
      var start := first;
      first := false;
      if cur >= |data| {
        return Outside;
      }
      if start {
        return Type(cur, data[cur]);
      }
      var v := ValueAt(data, cur);
      var ds: int;
      match data[cur] {
        case 0 => return Type(cur, 0);
        case 6 => ds := 0;
        case 10 => ds := 0;
        case 8 => ds := 1;
        case 16 => ds := 4;
        case 18 => ds := 8;
        case 1 => ds := 8;
        case 17 => ds := 8;
        case 9 => ds := 8;
        case 7 => ds := 12;
        case 11 =>
          if v > |data| || AfterString(data, v) > |data| {
            return Outside;
          }
          var p := AfterString(data, v);
          p := AfterString(data, p);
          ds := p - v;
        case 2 | 3 | 4 | 5 | 12 | 13 | 14 | 15 =>
          if v + 4 > |data| {
            return Outside;
          }
          ds := ReadLe32(data, v) + SizeBesides(data[cur]);
        case _ => return UnknownType;
      }
      if !(0 <= v + ds < |data|) {
        return Outside;
      }
      cur := v + ds;
      return Type(cur, data[cur]);
    }
  }

  /** An element found by the iterator: its type, its key, and where its value lies. */
  datatype Item = Item(kind: Byte, key: seq<Byte>, at: nat, end: nat)

  predicate Describes(s: seq<Byte>, item: Item, e: Elem) {
    && item.kind == Kind(e.value) && item.key == e.key
    && item.at <= item.end <= |s| && ReadValue(s, item.kind, item.at, item.end) == Some(e.value)
  }

  /** The elements `rest` lie at `p`, followed by the end of the document. */
  ghost predicate Follows(s: seq<Byte>, p: nat, rest: seq<Elem>) {
    && WellFormedElems(rest) && |EncElems(rest)| <= INT_MAX
    && At(s, p, EncElems(rest))
    && p + |EncElems(rest)| < |s| && s[p + |EncElems(rest)|] == 0
  }

  lemma HeadDescribed(s: seq<Byte>, p: nat, rest: seq<Elem>)
    requires Follows(s, p, rest)
    ensures p < |s|
    ensures rest == [] ==> s[p] == 0
    ensures rest != [] ==>
      var e := rest[0];
      && s[p] == Kind(e.value) != 0 && CStringAt(s, p + 1) == e.key
      && Advance(s, p).Some? && p < Advance(s, p).value < |s|
      && Describes(s, Item(s[p], e.key, ValueAt(s, p), Advance(s, p).value), e)
      && Follows(s, Advance(s, p).value, rest[1..])
  {
    hide EncElems, EncHeader, EncValue, ReadValue, StrLen, CStringAt, ValueAt, ValueSize, WellFormed, WellFormedElems,
         Kind, NulFree;
    if rest == [] {
      NoElems(s, p);
      NoBytes();
    } else {
      var e, tail := rest[0], rest[1..];
      var header, value := EncHeader(Kind(e.value), e.key), EncValue(e.value);
      ElemsForm(rest);
      AtSplit(s, p, header + value, EncElems(tail));
      AtSplit(s, p, header, value);
      HeaderReads(s, p, Kind(e.value), e.key);
      ValueReads(s, p, p + |header|, e.value);
      HeaderNonEmpty(Kind(e.value), e.key);
    }
  }

  lemma NoBytes()
    ensures EncElems([]) == []
  {
  }

  lemma HeaderNonEmpty(kind: Byte, key: seq<Byte>)
    ensures |EncHeader(kind, key)| > 0
  {
  }

  /** The usual loop over a document: it visits exactly the encoded elements, in order. */
  method Elements(s: seq<Byte>, pos: nat, ghost elems: seq<Elem>) returns (items: seq<Item>)
    requires WellFormedElems(elems) && At(s, pos, EncDoc(elems)) && |EncDoc(elems)| <= INT_MAX
    ensures |items| == |elems|
    ensures forall i :: 0 <= i < |items| ==> Describes(s, items[i], elems[i])
  {
    hide EncElems, EncDoc, ReadValue, StrLen, CStringAt, ValueAt, ValueSize, WellFormedElems, At;
    items := [];
    DocFollows(s, pos, elems);
    var it := new Iterator(s, pos);
    ghost var p := pos + 4;
    assert elems[0..] == elems;
    HeadDescribed(s, p, elems);
    var step := it.Next();
    var kind := step.kind;
    while kind != 0
      invariant it.data == s && !it.first && it.cur == p < |s| && kind == s[p]
      invariant |items| <= |elems| && Follows(s, p, elems[|items|..])
      invariant forall i :: 0 <= i < |items| ==> Describes(s, items[i], elems[i])
      invariant kind == 0 <==> |items| == |elems|
      decreases |elems| - |items|
    {
      var at := ValueAt(s, it.cur);
      var key := CStringAt(s, it.cur + 1);
      HeadDescribed(s, p, elems[|items|..]);
      p := Advance(s, p).value;
      assert elems[|items|..][1..] == elems[|items| + 1..];
      HeadDescribed(s, p, elems[|items| + 1..]);
      var found := kind;
      step := it.Next();
      kind := step.kind;
      items := items + [Item(found, key, at, it.cur)];
    }
  }

  lemma DocFollows(s: seq<Byte>, pos: nat, elems: seq<Elem>)
    requires WellFormedElems(elems) && At(s, pos, EncDoc(elems)) && |EncDoc(elems)| <= INT_MAX
    ensures Follows(s, pos + 4, elems)
  {
    hide EncElems, Le32, WellFormedElems;
    var n := 4 + |EncElems(elems)| + 1;
    AtSplit(s, pos, Length(n) + EncElems(elems), [0]);
    AtSplit(s, pos, Length(n), EncElems(elems));
    ByteAt(s, pos + 4 + |EncElems(elems)|, 0);
  }
}
