/** BSON documents as trees of elements, and their encoding. */
module Bson {
  import opened Bytes

  datatype Elem = Elem(key: seq<Byte>, value: Value)

  /** Doubles, dates and 64-bit integers are taken as their eight bytes. */
  datatype Value =
    | Double(bits: seq<Byte>)
    | Text(text: seq<Byte>)
    | Object(elems: seq<Elem>)
    | Array(elems: seq<Elem>)
    | Binary(subtype: Byte, data: seq<Byte>)
    | Undefined
    | Oid(id: seq<Byte>)
    | Bool(b: bool)
    | Date(bits: seq<Byte>)
    | Null
    | Regex(pattern: seq<Byte>, opts: seq<Byte>)
    | Code(text: seq<Byte>)
    | Symbol(text: seq<Byte>)
    | CodeWithScope(code: seq<Byte>, scope: seq<Elem>)
    | Int(i: int)
    | Long(bits: seq<Byte>)

  const INT_MIN: int := -0x8000_0000
  const INT_MAX: int := 0x7fff_ffff

  predicate FitsInt(n: int) { INT_MIN <= n <= INT_MAX }

  function Kind(v: Value): Byte {
    match v
    case Double(_) => 1
    case Text(_) => 2
    case Object(_) => 3
    case Array(_) => 4
    case Binary(_, _) => 5
    case Undefined => 6
    case Oid(_) => 7
    case Bool(_) => 8
    case Date(_) => 9
    case Null => 10
    case Regex(_, _) => 11
    case Code(_) => 13
    case Symbol(_) => 14
    case CodeWithScope(_, _) => 15
    case Int(_) => 16
    case Long(_) => 18
  }

  /** The four bytes at `p`, least significant first, hold `n` in two's complement. */
  predicate IntLaid(s: seq<Byte>, p: nat, n: int) {
    && p + 4 <= |s| && -0x8000_0000 <= n <= 0x7fff_ffff
    && var b0: int, b1: int, b2: int, b3: int := s[p], s[p + 1], s[p + 2], s[p + 3];
       b0 + 0x100 * b1 + 0x1_0000 * b2 + 0x100_0000 * b3 == if n < 0 then n + 0x1_0000_0000 else n
  }

  /** `n` in four bytes, least significant first; negative numbers in two's complement. */
  function Le32(n: int): (s: seq<Byte>)
    requires FitsInt(n)
    ensures |s| == 4
    ensures IntLaid(s, 0, n)
  {
    Digits(if n < 0 then n + U32_RANGE else n);
    var u := if n < 0 then n + U32_RANGE else n;
    [u % 0x100, u / 0x100 % 0x100, u / 0x1_0000 % 0x100, u / 0x100_0000]
  }

  function ReadLe32(s: seq<Byte>, pos: nat): (n: int)
    requires pos + 4 <= |s|
    ensures FitsInt(n)
    ensures IntLaid(s, pos, n)
  {
    var u := FromBytes(s[pos], s[pos + 1], s[pos + 2], s[pos + 3]);
    if u > INT_MAX then u - U32_RANGE else u
  }

  function FromBytes(b0: int, b1: int, b2: int, b3: int): int {
    b0 + 0x100 * b1 + 0x1_0000 * b2 + 0x100_0000 * b3
  }

  lemma Digits(u: int)
    requires 0 <= u < U32_RANGE
    ensures FromBytes(u % 0x100, u / 0x100 % 0x100, u / 0x1_0000 % 0x100, u / 0x100_0000) == u
  {
    var q := u / 0x100;
    var q' := q / 0x100;
    assert q' == u / 0x1_0000;
    assert q' / 0x100 == u / 0x100_0000;
  }

  lemma Le32RoundTrip(s: seq<Byte>, pos: nat, n: int)
    requires FitsInt(n)
    requires pos + 4 <= |s| && s[pos..pos + 4] == Le32(n)
    ensures ReadLe32(s, pos) == n
  {
    hide Le32, ReadLe32;
    ReadSlice(s, pos, Le32(n));
    ReadOfLe32(n);
  }

  lemma ReadSlice(s: seq<Byte>, pos: nat, b: seq<Byte>)
    requires |b| == 4 && pos + 4 <= |s| && s[pos..pos + 4] == b
    ensures ReadLe32(s, pos) == ReadLe32(b, 0)
  {
    hide FromBytes;
    assert s[pos] == b[0] && s[pos + 1] == b[1] && s[pos + 2] == b[2] && s[pos + 3] == b[3];
  }

  lemma ReadOfLe32(n: int)
    requires FitsInt(n)
    ensures ReadLe32(Le32(n), 0) == n
  {
    hide FromBytes;
    Digits(if n < 0 then n + U32_RANGE else n);
  }

  /** A length as the encoder writes it: it fits as long as the whole document does. */
  function Length(n: nat): seq<Byte> { if n <= INT_MAX then Le32(n) else [0, 0, 0, 0] }

  function EncCString(s: seq<Byte>): seq<Byte> { s + [0] }

  function EncText(s: seq<Byte>): seq<Byte> { Length(|s| + 1) + EncCString(s) }

  function EncValue(v: Value): seq<Byte>
    decreases v
  {
    match v
    case Double(bits) => bits
    case Text(t) => EncText(t)
    case Object(elems) => EncDoc(elems)
    case Array(elems) => EncDoc(elems)
    case Binary(subtype, data) => Length(|data|) + [subtype] + data
    case Undefined => []
    case Oid(id) => id
    case Bool(b) => [if b then 1 else 0]
    case Date(bits) => bits
    case Null => []
    case Regex(pattern, opts) => EncCString(pattern) + EncCString(opts)
    case Code(t) => EncText(t)
    case Symbol(t) => EncText(t)
    case CodeWithScope(code, scope) =>
      Length(8 + |code| + 1 + |EncDoc(scope)|) + EncText(code) + EncDoc(scope)
    case Int(i) => if FitsInt(i) then Le32(i) else []
    case Long(bits) => bits
  }

  function EncHeader(kind: Byte, key: seq<Byte>): seq<Byte> { [kind] + EncCString(key) }

  function EncElems(elems: seq<Elem>): seq<Byte>
    decreases elems, 0
  {
    if elems == [] then []
    else EncHeader(Kind(elems[0].value), elems[0].key) + EncValue(elems[0].value) + EncElems(elems[1..])
  }

  /** A document: its length including the length itself, its elements, and a terminating zero. */
  function EncDoc(elems: seq<Elem>): (s: seq<Byte>)
    ensures |s| >= 5
    decreases elems, 1
  {
    Length(4 + |EncElems(elems)| + 1) + EncElems(elems) + [0]
  }

  function EncElem(e: Elem): seq<Byte> { EncHeader(Kind(e.value), e.key) + EncValue(e.value) }

  /** Keys and strings are C strings, fixed-size values have their size, integers fit. */
  ghost predicate WellFormed(v: Value)
    decreases v
  {
    match v
    case Double(bits) => |bits| == 8
    case Text(t) => NulFree(t)
    case Object(elems) => WellFormedElems(elems)
    case Array(elems) => WellFormedElems(elems)
    case Oid(id) => |id| == 12
    case Date(bits) => |bits| == 8
    case Regex(pattern, opts) => NulFree(pattern) && NulFree(opts)
    case Code(t) => NulFree(t)
    case Symbol(t) => NulFree(t)
    case CodeWithScope(code, scope) => NulFree(code) && WellFormedElems(scope)
    case Int(i) => FitsInt(i)
    case Long(bits) => |bits| == 8
    case _ => true
  }

  ghost predicate WellFormedElems(elems: seq<Elem>)
    decreases elems
  {
    elems != [] ==> NulFree(elems[0].key) && WellFormed(elems[0].value) && WellFormedElems(elems[1..])
  }

  lemma {:induction false} EncElemsAppend(a: seq<Elem>, b: seq<Elem>)
    ensures EncElems(a + b) == EncElems(a) + EncElems(b)
  {
    if a == [] {
      assert a + b == b;
    } else {
      assert (a + b)[1..] == a[1..] + b;
      EncElemsAppend(a[1..], b);
    }
  }

  lemma EncElemsOne(e: Elem)
    ensures EncElems([e]) == EncElem(e)
  {
    assert [e][1..] == [];
  }

  /** `t` lies in `s` at `p`. */
  predicate At(s: seq<Byte>, p: nat, t: seq<Byte>) { p + |t| <= |s| && s[p..p + |t|] == t }

  lemma AtSplit(s: seq<Byte>, p: nat, a: seq<Byte>, b: seq<Byte>)
    requires At(s, p, a + b)
    ensures At(s, p, a) && At(s, p + |a|, b)
  {
    assert s[p..p + |a|] == (a + b)[..|a|];
    assert s[p + |a|..p + |a| + |b|] == (a + b)[|a|..];
  }

  lemma ByteAt(s: seq<Byte>, p: nat, b: Byte)
    requires At(s, p, [b])
    ensures s[p] == b
  {
    assert s[p..p + 1][0] == b;
  }
}
