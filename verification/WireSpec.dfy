/** The wire format of bufaux.c and bufbn.c, on byte sequences: what is put and what is got back. */
module WireSpec {
  import opened Bytes

  const STRING_LIMIT: nat := 256 * 1024
  const BIGNUM_LIMIT: nat := 8 * 1024

  // ---- Numbers, most significant byte first ----

  function Value(s: seq<Byte>): nat {
    if s == [] then 0
    else
      var last: nat := s[|s| - 1];
      256 * Value(s[..|s| - 1]) + last
  }

  /** `n` in `k` bytes, less what does not fit. */
  function Fixed(n: nat, k: nat): (s: seq<Byte>)
    ensures |s| == k
  {
    if k == 0 then [] else Fixed(n / 256, k - 1) + [n % 256]
  }

  /** `n` in as few bytes as possible: `BN_bn2bin`. */
  function Digits(n: nat): seq<Byte> {
    if n == 0 then [] else Digits(n / 256) + [n % 256]
  }

  /** `BN_num_bits`. */
  function Bits(n: nat): nat { if n == 0 then 0 else 1 + Bits(n / 2) }

  lemma ValueLast(front: seq<Byte>, last: Byte)
    ensures Value(front + [last]) == 256 * Value(front) + last as int
  {
    assert (front + [last])[..|front|] == front;
  }

  lemma {:induction false} ValueBound(s: seq<Byte>)
    ensures Value(s) < Pow256(|s|)
  {
    if s != [] {
      ValueBound(s[..|s| - 1]);
    }
  }

  lemma {:induction false} ValueOfFixed(n: nat, k: nat)
    requires n < Pow256(k)
    ensures Value(Fixed(n, k)) == n
  {
    if k > 0 {
      ValueOfFixed(n / 256, k - 1);
      ValueLast(Fixed(n / 256, k - 1), n % 256);
    }
  }

  lemma {:induction false} ValueOfDigits(n: nat)
    ensures Value(Digits(n)) == n
    ensures n > 0 ==> Digits(n) != [] && Digits(n)[0] != 0
  {
    if n > 0 {
      ValueOfDigits(n / 256);
      ValueLast(Digits(n / 256), n % 256);
    }
  }

  /** The digits are what is left of any representation without its leading zeros. */
  lemma {:induction false} DigitsShortest(s: seq<Byte>)
    ensures |Digits(Value(s))| <= |s|
    ensures Digits(Value(s)) == s[|s| - |Digits(Value(s))|..]
    ensures forall i :: 0 <= i < |s| - |Digits(Value(s))| ==> s[i] == 0
  {
    hide Digits, Value;
    NoValue();
    if s != [] {
      var front, last := s[..|s| - 1], s[|s| - 1];
      assert s == front + [last];
      DigitsShortest(front);
      ValueLast(front, last);
      DigitsStep(Value(front), last);
    }
  }

  lemma NoValue()
    ensures Value([]) == 0 && Digits(0) == []
  {
  }

  lemma DigitsStep(v: nat, last: Byte)
    ensures var n: nat := 256 * v + last as int; Digits(n) == if n == 0 then [] else Digits(v) + [last]
    ensures 256 * v + last as int == 0 ==> v == 0 && last == 0 && Digits(v) == []
  {
    SplitValue(v, last);
  }

  lemma SplitValue(v: nat, last: Byte)
    ensures (256 * v + last as int) / 256 == v && (256 * v + last as int) % 256 == last as int
  {
  }

  lemma BitsHalf(n: nat)
    ensures n > 0 ==> Bits(n) == 1 + Bits(n / 2)
  {
  }

  /** Eight bits more for every byte more. */
  lemma BitsOfByte(n: nat)
    ensures n >= 256 ==> Bits(n) == 8 + Bits(n / 256)
    ensures 0 < n < 256 ==> 1 <= Bits(n) <= 8
  {
    hide Bits;
    BitsHalf(n);
    BitsHalf(n / 2);
    BitsHalf(n / 2 / 2);
    BitsHalf(n / 2 / 2 / 2);
    BitsHalf(n / 2 / 2 / 2 / 2);
    BitsHalf(n / 2 / 2 / 2 / 2 / 2);
    BitsHalf(n / 2 / 2 / 2 / 2 / 2 / 2);
    BitsHalf(n / 2 / 2 / 2 / 2 / 2 / 2 / 2);
    BitsZero();
    assert n / 2 / 2 / 2 / 2 / 2 / 2 / 2 / 2 == n / 256;
  }

  lemma BitsZero()
    ensures Bits(0) == 0
  {
  }

  /** `BN_bn2bin` writes as many bytes as the number of bits calls for. */
  lemma {:induction false} DigitsOfBits(n: nat)
    ensures |Digits(n)| == (Bits(n) + 7) / 8
  {
    hide Bits;
    BitsZero();
    if n > 0 {
      BitsOfByte(n);
      DigitsOfBits(n / 256);
    }
  }

  // ---- Items ----

  /** What SSH messages consist of. `Bignum1` is the format of version 1, `Mpint` that of version 2. */
  datatype Item =
    | Char(c: Byte)
    | Short(n: nat)
    | Int32(n: nat)
    | Int64(n: nat)
    | Str(s: seq<Byte>)
    | CStr(s: seq<Byte>)
    | Bignum1(n: nat)
    | Mpint(n: nat)

  datatype Kind = KChar | KShort | KInt32 | KInt64 | KStr | KCStr | KBignum1 | KMpint

  function KindOf(item: Item): Kind {
    match item
    case Char(_) => KChar
    case Short(_) => KShort
    case Int32(_) => KInt32
    case Int64(_) => KInt64
    case Str(_) => KStr
    case CStr(_) => KCStr
    case Bignum1(_) => KBignum1
    case Mpint(_) => KMpint
  }

  /** The contents of a number's string: a zero byte keeps the sign bit clear. */
  function MpintBody(n: nat): seq<Byte> {
    var d := Digits(n);
    if d != [] && d[0] >= 128 then [0] + d else d
  }

  function Enc(item: Item): seq<Byte> {
    match item
    case Char(c) => [c]
    case Short(n) => Fixed(n, 2)
    case Int32(n) => Fixed(n, 4)
    case Int64(n) => Fixed(n, 8)
    case Str(s) => Fixed(|s|, 4) + s
    case CStr(s) => Fixed(|s|, 4) + s
    case Bignum1(n) => Fixed(Bits(n), 2) + Digits(n)
    case Mpint(n) => Fixed(|MpintBody(n)|, 4) + MpintBody(n)
  }

  /** What the types of C guarantee of the arguments. */
  ghost predicate Typed(item: Item) {
    match item
    case Char(_) => true
    case Short(n) => n < 0x1_0000
    case Int32(n) => n < U32_RANGE
    case Int64(n) => n < U32_RANGE * U32_RANGE
    case Str(s) => |s| < U32_RANGE
    case CStr(s) => |s| < U32_RANGE && NulFree(s)
    case Bignum1(_) => true
    case Mpint(n) => |MpintBody(n)| < U32_RANGE
  }

  /** What the receiver takes. */
  predicate Fits(item: Item) {
    match item
    case Str(s) => |s| <= STRING_LIMIT
    case CStr(s) => |s| <= STRING_LIMIT
    case Bignum1(n) => Bits(n) < 0x1_0000
    case Mpint(n) => |MpintBody(n)| <= BIGNUM_LIMIT
    case _ => true
  }

  /** What a get returns, and what it leaves in the buffer; a failure may have consumed something. */
  datatype Got<T> = Got(item: Option<T>, rest: seq<Byte>)

  function GetNumber(s: seq<Byte>, k: nat): Got<nat> {
    if |s| < k then Got(None, s) else Got(Some(Value(s[..k])), s[k..])
  }

  function GetString(s: seq<Byte>): Got<seq<Byte>> {
    var len := GetNumber(s, 4);
    if len.item.None? then Got(None, s)
    else if len.item.value > STRING_LIMIT || len.item.value > |len.rest| then Got(None, len.rest)
    else Got(Some(len.rest[..len.item.value]), len.rest[len.item.value..])
  }

  /** A NUL is tolerated at the very end. */
  function GetCString(s: seq<Byte>): Got<seq<Byte>> {
    var g := GetString(s);
    if g.item.None? || StrLen(g.item.value, 0) + 1 >= |g.item.value| then g else Got(None, g.rest)
  }

  function GetBignum1(s: seq<Byte>): Got<nat> {
    var bits := GetNumber(s, 2);
    if bits.item.None? then Got(None, s)
    else
      var bytes := (bits.item.value + 7) / 8;
      if bytes > BIGNUM_LIMIT || |bits.rest| < bytes then Got(None, bits.rest)
      else Got(Some(Value(bits.rest[..bytes])), bits.rest[bytes..])
  }

  function GetMpint(s: seq<Byte>): Got<nat> {
    var g := GetString(s);
    if g.item.None? then Got(None, g.rest)
    else
      var bin := g.item.value;
      if (|bin| > 0 && bin[0] >= 128) || |bin| > BIGNUM_LIMIT then Got(None, g.rest)
      else Got(Some(Value(bin)), g.rest)
  }

  function Get(kind: Kind, s: seq<Byte>): Got<Item> {
    match kind
    case KChar => if |s| < 1 then Got(None, s) else Got(Some(Char(s[0])), s[1..])
    case KShort => var g := GetNumber(s, 2); Got(if g.item.Some? then Some(Short(g.item.value)) else None, g.rest)
    case KInt32 => var g := GetNumber(s, 4); Got(if g.item.Some? then Some(Int32(g.item.value)) else None, g.rest)
    case KInt64 => var g := GetNumber(s, 8); Got(if g.item.Some? then Some(Int64(g.item.value)) else None, g.rest)
    case KStr => var g := GetString(s); Got(if g.item.Some? then Some(Str(g.item.value)) else None, g.rest)
    case KCStr => var g := GetCString(s); Got(if g.item.Some? then Some(CStr(g.item.value)) else None, g.rest)
    case KBignum1 => var g := GetBignum1(s); Got(if g.item.Some? then Some(Bignum1(g.item.value)) else None, g.rest)
    case KMpint => var g := GetMpint(s); Got(if g.item.Some? then Some(Mpint(g.item.value)) else None, g.rest)
  }

  // ---- Round trips ----

  lemma Front(a: seq<Byte>, b: seq<Byte>, c: seq<Byte>)
    ensures (a + b + c)[..|a|] == a && (a + b + c)[|a|..] == b + c
    ensures (a + b)[..|a|] == a && (a + b)[|a|..] == b
  {
  }

  lemma Powers()
    ensures Pow256(2) == 0x1_0000 && Pow256(4) == U32_RANGE && Pow256(8) == U32_RANGE * U32_RANGE
  {
    assert Pow256(3) == 0x100_0000 && Pow256(5) == 0x100_0000_0000 && Pow256(6) == 0x1_0000_0000_0000;
  }

  lemma NumberReadsBack(n: nat, k: nat, rest: seq<Byte>)
    requires n < Pow256(k)
    ensures GetNumber(Fixed(n, k) + rest, k) == Got(Some(n), rest)
  {
    hide Fixed, Value, Pow256;
    ValueOfFixed(n, k);
    Front(Fixed(n, k), rest, []);
  }

  lemma StringReadsBack(t: seq<Byte>, rest: seq<Byte>)
    requires |t| < U32_RANGE
    ensures GetString(Fixed(|t|, 4) + t + rest)
            == if |t| <= STRING_LIMIT then Got(Some(t), rest) else Got(None, t + rest)
  {
    hide Fixed, Pow256, GetNumber;
    Powers();
    NumberReadsBack(|t|, 4, t + rest);
    assert Fixed(|t|, 4) + t + rest == Fixed(|t|, 4) + (t + rest);
    Front(t, rest, []);
  }

  /** Two bytes hold a number modulo 65536. */
  lemma FixedCuts(n: nat)
    ensures Value(Fixed(n, 2)) == n % 0x1_0000
  {
    var hi: Byte, lo: Byte := n / 256 % 256, n % 256;
    ValueLast([], hi);
    ValueLast([hi], lo);
    assert Fixed(n / 256 / 256, 0) == [] && [] + [hi] == [hi];
    assert Fixed(n, 2) == [hi] + [lo];
  }

  lemma Bignum1ReadsBack(n: nat, rest: seq<Byte>)
    ensures var g := GetBignum1(Fixed(Bits(n), 2) + Digits(n) + rest);
      if Bits(n) < 0x1_0000 then g == Got(Some(n), rest) else |g.rest| > |rest|
  {
    hide Fixed, Value, Digits, Bits, Pow256;
    Powers();
    ValueOfDigits(n);
    DigitsOfBits(n);
    FixedCuts(Bits(n));
    var f, d := Fixed(Bits(n), 2), Digits(n);
    assert f + d + rest == f + (d + rest);
    Front(f, d + rest, []);
    Front(d, rest, []);
    if Bits(n) < 0x1_0000 {
      ValueOfFixed(Bits(n), 2);
    } else {
      CutBytes(Bits(n), Value(f));
    }
  }

  lemma CutBytes(bits: nat, cut: nat)
    requires bits >= 0x1_0000 && cut == bits % 0x1_0000
    ensures (cut + 7) / 8 < (bits + 7) / 8 && (cut + 7) / 8 <= BIGNUM_LIMIT
  {
  }

  lemma MpintBodyValue(n: nat)
    ensures Value(MpintBody(n)) == n && (MpintBody(n) != [] ==> MpintBody(n)[0] < 128)
  {
    ValueOfDigits(n);
    ZeroInFront(Digits(n));
    hide Digits, Value;
  }

  lemma {:induction false} ZeroInFront(s: seq<Byte>)
    ensures Value([0] + s) == Value(s)
  {
    if s != [] {
      ZeroInFront(s[..|s| - 1]);
      assert [0] + s == ([0] + s[..|s| - 1]) + [s[|s| - 1]];
      ValueLast([0] + s[..|s| - 1], s[|s| - 1]);
    }
  }

  /** A get reads back what the matching put wrote, and nothing more, exactly when it fits the receiver's limits. */
  lemma ReadsBack(item: Item, rest: seq<Byte>)
    requires Typed(item)
    ensures Get(KindOf(item), Enc(item) + rest) == Got(Some(item), rest) <==> Fits(item)
  {
    hide Fixed, Value, Digits, Bits, Pow256, MpintBody, GetNumber, GetString, GetBignum1, StrLen, NulFree;
    Powers();
    match item
    case Char(c) => Front([c], rest, []);
    case Short(n) => NumberReadsBack(n, 2, rest);
    case Int32(n) => NumberReadsBack(n, 4, rest);
    case Int64(n) => NumberReadsBack(n, 8, rest);
    case Str(t) => StringReadsBack(t, rest);
    case CStr(t) =>
      StringReadsBack(t, rest);
      NulFreeLength(t);
    case Bignum1(n) => Bignum1ReadsBack(n, rest);
    case Mpint(n) =>
      StringReadsBack(MpintBody(n), rest);
      MpintBodyValue(n);
  }

  lemma NulFreeLength(t: seq<Byte>)
    requires NulFree(t)
    ensures StrLen(t, 0) == |t|
  {
    var n := StrLen(t, 0);
    assert forall i :: 0 <= i < |t| ==> t[i] in t;
  }

  function EncAll(items: seq<Item>): seq<Byte> { if items == [] then [] else Enc(items[0]) + EncAll(items[1..]) }

  function Kinds(items: seq<Item>): seq<Kind> { if items == [] then [] else [KindOf(items[0])] + Kinds(items[1..]) }

  function GetAll(kinds: seq<Kind>, s: seq<Byte>): Got<seq<Item>> {
    if kinds == [] then Got(Some([]), s)
    else
      var first := Get(kinds[0], s);
      if first.item.None? then Got(None, first.rest)
      else
        var more := GetAll(kinds[1..], first.rest);
        if more.item.None? then more else Got(Some([first.item.value] + more.item.value), more.rest)
  }

  /** Any series of puts is read back by the matching series of gets. */
  lemma {:induction false} SeriesReadsBack(items: seq<Item>, rest: seq<Byte>)
    requires forall item :: item in items ==> Typed(item) && Fits(item)
    ensures GetAll(Kinds(items), EncAll(items) + rest) == Got(Some(items), rest)
  {
    hide Enc, Get, Typed, Fits;
    if items == [] {
      assert [] + rest == rest;
    } else {
      var item, more := items[0], items[1..];
      assert items == [item] + more && Kinds(items)[1..] == Kinds(more);
      assert EncAll(items) + rest == Enc(item) + (EncAll(more) + rest);
      assert item in items;
      ReadsBack(item, EncAll(more) + rest);
      SeriesReadsBack(more, rest);
    }
  }

  /** Every encoding of a number that is accepted is the one that is sent, with zeros in front. */
  lemma ShortestAccepted(s: seq<Byte>) returns (body: seq<Byte>)
    requires GetMpint(s).item.Some?
    ensures var n := GetMpint(s).item.value;
      && s == Fixed(|body|, 4) + body + GetMpint(s).rest
      && |MpintBody(n)| <= |body| && MpintBody(n) == body[|body| - |MpintBody(n)|..]
      && forall i :: 0 <= i < |body| - |MpintBody(n)| ==> body[i] == 0
  {
    hide Fixed, Value, Digits, Pow256;
    body := GetString(s).item.value;
    FixedOfValue(s[..4]);
    assert s == s[..4] + s[4..];
    DigitsShortest(body);
    ValueOfDigits(Value(body));
    var d := Digits(Value(body));
    if d != [] && d[0] >= 128 {
      assert body[|body| - |d| - 1] == 0;
    }
  }

  lemma {:induction false} FixedOfValue(s: seq<Byte>)
    ensures Fixed(Value(s), |s|) == s
  {
    if s != [] {
      FixedOfValue(s[..|s| - 1]);
      SplitValue(Value(s[..|s| - 1]), s[|s| - 1]);
    }
  }
}
