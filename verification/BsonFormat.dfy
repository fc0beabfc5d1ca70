/**
 The layout of BSON documents, byte by byte: which type codes, lengths and terminators stand where. What the
 encoding of a document is made of is proved to be laid out so.
 */
module BsonFormat {
  import opened Bytes
  import opened Bson

  predicate BytesLaid(s: seq<Byte>, p: nat, end: nat, bytes: seq<Byte>) {
    p <= end <= |s| && s[p..end] == bytes
  }

  predicate CStringLaid(s: seq<Byte>, p: nat, end: nat, text: seq<Byte>) {
    end == p + |text| + 1 <= |s| && s[p..end - 1] == text && s[end - 1] == 0
  }

  /** A string with its length in front, which counts the terminator. */
  predicate TextLaid(s: seq<Byte>, p: nat, end: nat, text: seq<Byte>) {
    IntLaid(s, p, |text| + 1) && CStringLaid(s, p + 4, end, text)
  }

  /** A value of type code `kind` from `p` to `end`. */
  ghost predicate ValueLaid(s: seq<Byte>, kind: Byte, p: nat, end: nat, v: Value)
    decreases v
  {
    match v
    case Double(bits) => kind == 1 && BytesLaid(s, p, end, bits)
    case Text(t) => kind == 2 && TextLaid(s, p, end, t)
    case Object(elems) => kind == 3 && DocLaid(s, p, end, elems)
    case Array(elems) => kind == 4 && DocLaid(s, p, end, elems)
    case Binary(subtype, data) =>
      kind == 5 && IntLaid(s, p, |data|) && p + 5 <= end <= |s| && s[p + 4] == subtype && s[p + 5..end] == data
    case Undefined => kind == 6 && end == p
    case Oid(id) => kind == 7 && BytesLaid(s, p, end, id)
    case Bool(b) => kind == 8 && BytesLaid(s, p, end, [if b then 1 else 0])
    case Date(bits) => kind == 9 && BytesLaid(s, p, end, bits)
    case Null => kind == 10 && end == p
    case Regex(pattern, opts) =>
      kind == 11 && CStringLaid(s, p, p + |pattern| + 1, pattern) && CStringLaid(s, p + |pattern| + 1, end, opts)
    case Code(t) => kind == 13 && TextLaid(s, p, end, t)
    case Symbol(t) => kind == 14 && TextLaid(s, p, end, t)
    case CodeWithScope(code, scope) =>
      var q := p + 4 + 4 + |code| + 1;
      kind == 15 && IntLaid(s, p, end - p) && TextLaid(s, p + 4, q, code) && DocLaid(s, q, end, scope)
    case Int(i) => kind == 16 && IntLaid(s, p, i) && end == p + 4
    case Long(bits) => kind == 18 && BytesLaid(s, p, end, bits)
  }

  /** An element: the type code, the key with its terminator, the value. */
  ghost predicate ElemLaid(s: seq<Byte>, p: nat, end: nat, e: Elem)
    decreases e
  {
    p < |s| && CStringLaid(s, p + 1, p + 1 + |e.key| + 1, e.key)
    && ValueLaid(s, s[p], p + 1 + |e.key| + 1, end, e.value)
  }

  ghost predicate ElemsLaid(s: seq<Byte>, p: nat, end: nat, elems: seq<Elem>)
    decreases elems, 0
  {
    if elems == [] then end == p
    else exists mid :: p < mid <= end && ElemLaid(s, p, mid, elems[0]) && ElemsLaid(s, mid, end, elems[1..])
  }

  /** A document: its length, which counts everything, its elements, and a zero. */
  ghost predicate DocLaid(s: seq<Byte>, p: nat, end: nat, elems: seq<Elem>)
    decreases elems, 1
  {
    p + 5 <= end <= |s| && IntLaid(s, p, end - p) && ElemsLaid(s, p + 4, end - 1, elems) && s[end - 1] == 0
  }

  // ---- The encoding is laid out so ----

  lemma LengthLaid(s: seq<Byte>, p: nat, n: int)
    requires FitsInt(n) && At(s, p, Le32(n))
    ensures IntLaid(s, p, n)
  {
    var b := Le32(n);
    hide Le32;
    assert s[p] == s[p..p + 4][0] == b[0] && s[p + 1] == s[p..p + 4][1] == b[1];
    assert s[p + 2] == s[p..p + 4][2] == b[2] && s[p + 3] == s[p..p + 4][3] == b[3];
  }

  lemma CStringIsLaid(s: seq<Byte>, p: nat, text: seq<Byte>)
    requires At(s, p, EncCString(text))
    ensures CStringLaid(s, p, p + |text| + 1, text)
  {
    AtSplit(s, p, text, [0]);
    ByteAt(s, p + |text|, 0);
  }

  lemma TextIsLaid(s: seq<Byte>, p: nat, text: seq<Byte>)
    requires At(s, p, EncText(text)) && |EncText(text)| <= INT_MAX
    ensures TextLaid(s, p, p + |EncText(text)|, text)
  {
    hide Le32, IntLaid;
    AtSplit(s, p, Length(|text| + 1), EncCString(text));
    LengthLaid(s, p, |text| + 1);
    CStringIsLaid(s, p + 4, text);
  }

  predicate Simple(v: Value) { !v.Object? && !v.Array? && !v.CodeWithScope? }

  /** The values that hold no elements. */
  lemma SimpleIsLaid(s: seq<Byte>, p: nat, v: Value)
    requires Simple(v) && (v.Int? ==> FitsInt(v.i)) && At(s, p, EncValue(v)) && |EncValue(v)| <= INT_MAX
    ensures ValueLaid(s, Kind(v), p, p + |EncValue(v)|, v)
  {
    hide IntLaid, Le32, EncText, TextLaid, CStringLaid, At;
    match v {
      case Text(t) => TextIsLaid(s, p, t);
      case Code(t) => TextIsLaid(s, p, t);
      case Symbol(t) => TextIsLaid(s, p, t);
      case Binary(_, _) => BinaryIsLaid(s, p, v);
      case Regex(_, _) => RegexIsLaid(s, p, v);
      case Int(i) => LengthLaid(s, p, i);
      case _ => BytesAreLaid(s, p, EncValue(v));
    }
  }

  lemma BytesAreLaid(s: seq<Byte>, p: nat, bytes: seq<Byte>)
    requires At(s, p, bytes)
    ensures BytesLaid(s, p, p + |bytes|, bytes)
  {
  }

  lemma BinaryIsLaid(s: seq<Byte>, p: nat, v: Value)
    requires v.Binary? && At(s, p, EncValue(v)) && |EncValue(v)| <= INT_MAX
    ensures ValueLaid(s, 5, p, p + |EncValue(v)|, v)
  {
    hide IntLaid, Le32;
    AtSplit(s, p, Length(|v.data|) + [v.subtype], v.data);
    AtSplit(s, p, Length(|v.data|), [v.subtype]);
    LengthLaid(s, p, |v.data|);
    ByteAt(s, p + 4, v.subtype);
  }

  lemma RegexIsLaid(s: seq<Byte>, p: nat, v: Value)
    requires v.Regex? && At(s, p, EncValue(v))
    ensures ValueLaid(s, 11, p, p + |EncValue(v)|, v)
  {
    hide CStringLaid, At;
    AtSplit(s, p, EncCString(v.pattern), EncCString(v.opts));
    CStringIsLaid(s, p, v.pattern);
    CStringIsLaid(s, p + |v.pattern| + 1, v.opts);
  }

  lemma HeaderIsLaid(s: seq<Byte>, p: nat, kind: Byte, key: seq<Byte>)
    requires At(s, p, EncHeader(kind, key))
    ensures p < |s| && s[p] == kind && CStringLaid(s, p + 1, p + 1 + |key| + 1, key)
    ensures |EncHeader(kind, key)| == 1 + |key| + 1
  {
    AtSplit(s, p, [kind], EncCString(key));
    ByteAt(s, p, kind);
    CStringIsLaid(s, p + 1, key);
  }

  lemma AtEnd(before: seq<Byte>, bytes: seq<Byte>)
    ensures At(before + bytes, |before|, bytes)
  {
  }

  /** One appended element of these is laid out behind what was there. */
  lemma SimpleElemIsLaid(before: seq<Byte>, e: Elem)
    requires Simple(e.value) && (e.value.Int? ==> FitsInt(e.value.i)) && |EncElem(e)| <= INT_MAX
    ensures ElemLaid(before + EncElem(e), |before|, |before| + |EncElem(e)|, e)
  {
    hide EncHeader, EncValue, EncElem, CStringLaid, ValueLaid, Kind, Simple, At, FitsInt;
    var s, kind, p := before + EncElem(e), Kind(e.value), |before|;
    AtEnd(before, EncElem(e));
    ElemIs(e);
    AtSplit(s, p, EncHeader(kind, e.key), EncValue(e.value));
    HeaderIsLaid(s, p, kind, e.key);
    SimpleIsLaid(s, p + 1 + |e.key| + 1, e.value);
  }

  lemma ElemIs(e: Elem)
    ensures EncElem(e) == EncHeader(Kind(e.value), e.key) + EncValue(e.value)
  {
  }

  lemma {:induction false} ValueIsLaid(s: seq<Byte>, p: nat, v: Value)
    requires WellFormed(v) && At(s, p, EncValue(v)) && |EncValue(v)| <= INT_MAX
    ensures ValueLaid(s, Kind(v), p, p + |EncValue(v)|, v)
    decreases v
  {
    hide DocLaid, IntLaid, Le32, EncDoc, WellFormedElems, CStringLaid;
    match v {
      case Object(elems) => DocIsLaid(s, p, elems);
      case Array(elems) => DocIsLaid(s, p, elems);
      case CodeWithScope(code, scope) => ScopeIsLaid(s, p, code, scope);
      case _ => SimpleIsLaid(s, p, v);
    }
  }

  lemma {:induction false} ScopeIsLaid(s: seq<Byte>, p: nat, code: seq<Byte>, scope: seq<Elem>)
    requires WellFormedElems(scope)
    requires var v := CodeWithScope(code, scope); At(s, p, EncValue(v)) && |EncValue(v)| <= INT_MAX
    ensures var v := CodeWithScope(code, scope); ValueLaid(s, 15, p, p + |EncValue(v)|, v)
    decreases scope, 2
  {
    hide DocLaid, IntLaid, Le32, EncDoc, WellFormedElems, CStringLaid;
    var size := 8 + |code| + 1 + |EncDoc(scope)|;
    AtSplit(s, p, Length(size) + EncText(code), EncDoc(scope));
    AtSplit(s, p, Length(size), EncText(code));
    LengthLaid(s, p, size);
    TextIsLaid(s, p + 4, code);
    DocIsLaid(s, p + 8 + |code| + 1, scope);
  }

  lemma {:induction false} ElemsAreLaid(s: seq<Byte>, p: nat, elems: seq<Elem>)
    requires WellFormedElems(elems) && At(s, p, EncElems(elems)) && |EncElems(elems)| <= INT_MAX
    ensures ElemsLaid(s, p, p + |EncElems(elems)|, elems)
    decreases elems, 0
  {
    hide EncHeader, EncValue, CStringLaid, ValueLaid, Kind, WellFormed;
    if elems != [] {
      var e, rest := elems[0], elems[1..];
      var header, value := EncHeader(Kind(e.value), e.key), EncValue(e.value);
      AtSplit(s, p, header + value, EncElems(rest));
      AtSplit(s, p, header, value);
      HeaderIsLaid(s, p, Kind(e.value), e.key);
      ValueIsLaid(s, p + |header|, e.value);
      ElemsAreLaid(s, p + |header| + |value|, rest);
      assert ElemLaid(s, p, p + |header| + |value|, e);
    }
  }

  /** The encoding of a tree is a document laid out as the format has it. */
  lemma {:induction false} DocIsLaid(s: seq<Byte>, p: nat, elems: seq<Elem>)
    requires WellFormedElems(elems) && At(s, p, EncDoc(elems)) && |EncDoc(elems)| <= INT_MAX
    ensures DocLaid(s, p, p + |EncDoc(elems)|, elems)
    decreases elems, 1
  {
    hide EncElems, IntLaid, Le32, WellFormedElems, ElemsLaid;
    var n := 4 + |EncElems(elems)| + 1;
    AtSplit(s, p, Length(n) + EncElems(elems), [0]);
    AtSplit(s, p, Length(n), EncElems(elems));
    LengthLaid(s, p, n);
    ElemsAreLaid(s, p + 4, elems);
    ByteAt(s, p + n - 1, 0);
  }
}
