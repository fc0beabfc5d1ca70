/**
 The wire format byte by byte, and exactly what each get accepts, refuses and leaves in the buffer.
 */
module WireMeaning {
  import opened Bytes
  import opened WireSpec

  // ---- Layout ----

  /** The first byte is the most significant one. */
  lemma {:induction false} ValueFirst(s: seq<Byte>)
    requires s != []
    ensures var first: nat := s[0]; Value(s) == first * Pow256(|s| - 1) + Value(s[1..])
  {
    hide Value, Pow256;
    var n := |s| - 1;
    assert s == s[..n] + [s[n]];
    ValueLast(s[..n], s[n]);
    PowStep(n);
    if n == 0 {
      NoValue();
      assert s[..0] == [] && s[1..] == [];
    } else {
      ValueFirst(s[..n]);
      assert s[1..] == s[..n][1..] + [s[n]];
      ValueLast(s[..n][1..], s[n]);
      Distribute(s[0], Pow256(n - 1));
    }
  }

  lemma PowStep(n: nat)
    ensures Pow256(0) == 1 && (n > 0 ==> Pow256(n) == 256 * Pow256(n - 1))
  {
  }

  lemma Distribute(a: nat, p: nat)
    ensures 256 * (a * p) == a * (256 * p)
  {
  }

  predicate ShortLaid(s: seq<Byte>, p: nat, n: nat) {
    p + 2 <= |s| && var b0: int, b1: int := s[p], s[p + 1]; n == 0x100 * b0 + b1
  }

  predicate IntLaid(s: seq<Byte>, p: nat, n: nat) {
    && p + 4 <= |s|
    && var b0: int, b1: int, b2: int, b3: int := s[p], s[p + 1], s[p + 2], s[p + 3];
       n == 0x100_0000 * b0 + 0x1_0000 * b1 + 0x100 * b2 + b3
  }

  /** A string: its length in four bytes, and its bytes. */
  predicate StringLaid(s: seq<Byte>, t: seq<Byte>) { |s| == 4 + |t| && IntLaid(s, 0, |t|) && s[4..] == t }

  /** How an item is laid out, for version 2 as in section 5 of RFC 4251. */
  predicate ItemLaid(s: seq<Byte>, item: Item) {
    match item
    case Char(c) => s == [c]
    case Short(n) => |s| == 2 && ShortLaid(s, 0, n)
    case Int32(n) => |s| == 4 && IntLaid(s, 0, n)
    case Int64(n) => |s| == 8 && IntLaid(s, 0, n / 0x1_0000_0000) && IntLaid(s, 4, n % 0x1_0000_0000)
    case Str(t) => StringLaid(s, t)
    case CStr(t) => StringLaid(s, t)
    case Bignum1(n) =>
      && |s| >= 2 && ShortLaid(s, 0, Bits(n) % 0x1_0000)
      && Value(s[2..]) == n && (|s| > 2 ==> s[2] != 0)
    case Mpint(n) =>
      && |s| >= 4 && StringLaid(s, s[4..])
      && Value(s[4..]) == n && (|s| > 4 ==> s[4] < 128 && (s[4] == 0 ==> |s| > 5 && s[5] >= 128))
  }

  lemma ValueOfTwo(b0: Byte, b1: Byte)
    ensures Value([b0, b1]) == 0x100 * (b0 as int) + b1 as int
  {
    ValueLast([], b0);
    ValueLast([b0], b1);
    assert [] + [b0] == [b0] && [b0] + [b1] == [b0, b1];
  }

  lemma ValueOfFour(s: seq<Byte>)
    requires |s| == 4
    ensures IntLaid(s, 0, Value(s))
  {
    hide Value;
    ValueOfTwo(s[0], s[1]);
    ValueLast([s[0], s[1]], s[2]);
    ValueLast([s[0], s[1], s[2]], s[3]);
    assert [s[0], s[1]] + [s[2]] == [s[0], s[1], s[2]] && [s[0], s[1], s[2]] + [s[3]] == s;
  }

  lemma FourBytes(n: nat)
    requires n < U32_RANGE
    ensures IntLaid(Fixed(n, 4), 0, n)
  {
    hide Value, Fixed, IntLaid, Pow256;
    Powers();
    ValueOfFixed(n, 4);
    ValueOfFour(Fixed(n, 4));
  }

  lemma TwoBytes(n: nat)
    ensures ShortLaid(Fixed(n, 2), 0, n % 0x1_0000)
  {
    hide Value, Fixed;
    FixedCuts(n);
    var s := Fixed(n, 2);
    ValueOfTwo(s[0], s[1]);
    assert s == [s[0], s[1]];
  }

  /** Eight bytes are the upper half in four and the lower half in four. */
  lemma EightBytes(n: nat)
    requires n < U32_RANGE * U32_RANGE
    ensures Fixed(n, 8) == Fixed(n / U32_RANGE, 4) + Fixed(n % U32_RANGE, 4)
  {
    hide Value, Pow256, Fixed;
    Powers();
    var hi, lo := Fixed(n / U32_RANGE, 4), Fixed(n % U32_RANGE, 4);
    ValueOfFixed(n / U32_RANGE, 4);
    ValueOfFixed(n % U32_RANGE, 4);
    ValueOfHalves(hi, lo);
    FixedOfValue(hi + lo);
  }

  lemma {:induction false} ValueOfHalves(hi: seq<Byte>, lo: seq<Byte>)
    ensures Value(hi + lo) == Value(hi) * Pow256(|lo|) + Value(lo)
    decreases |lo|
  {
    hide Value, Pow256;
    PowStep(|lo|);
    if lo == [] {
      NoValue();
      assert hi + lo == hi;
    } else {
      var n := |lo| - 1;
      ValueOfHalves(hi, lo[..n]);
      assert hi + lo == (hi + lo[..n]) + [lo[n]] && lo == lo[..n] + [lo[n]];
      ValueLast(hi + lo[..n], lo[n]);
      ValueLast(lo[..n], lo[n]);
      Distribute(Value(hi), Pow256(n));
    }
  }

  lemma StringIsLaid(t: seq<Byte>)
    requires |t| < U32_RANGE
    ensures StringLaid(Fixed(|t|, 4) + t, t)
  {
    hide Fixed;
    FourBytes(|t|);
    assert (Fixed(|t|, 4) + t)[..4] == Fixed(|t|, 4);
  }

  lemma LongIsLaid(n: nat)
    requires n < U32_RANGE * U32_RANGE
    ensures ItemLaid(Fixed(n, 8), Int64(n))
  {
    hide Fixed;
    EightBytes(n);
    FourBytes(n / U32_RANGE);
    FourBytes(n % U32_RANGE);
  }

  lemma Bignum1IsLaid(n: nat)
    ensures ItemLaid(Fixed(Bits(n), 2) + Digits(n), Bignum1(n))
  {
    hide Fixed, Digits, Bits, Value;
    TwoBytes(Bits(n));
    ValueOfDigits(n);
    NoDigits();
    assert (Fixed(Bits(n), 2) + Digits(n))[2..] == Digits(n);
  }

  lemma NoDigits()
    ensures Digits(0) == []
  {
  }

  lemma MpintIsLaid(n: nat)
    requires |MpintBody(n)| < U32_RANGE
    ensures ItemLaid(Fixed(|MpintBody(n)|, 4) + MpintBody(n), Mpint(n))
  {
    hide Fixed, Digits, Value, IntLaid;
    StringIsLaid(MpintBody(n));
    MpintBodyValue(n);
    ValueOfDigits(n);
    NoDigits();
    assert (Fixed(|MpintBody(n)|, 4) + MpintBody(n))[4..] == MpintBody(n);
  }

  /** What a put appends is laid out so. */
  lemma EncIsLaid(item: Item)
    requires Typed(item)
    ensures ItemLaid(Enc(item), item)
  {
    hide ItemLaid, Fixed, Digits, Bits, MpintBody;
    match item
    case Char(c) => CharIsLaid(c);
    case Short(n) => ShortIsLaid(n);
    case Int32(n) => IntIsLaid(n);
    case Int64(n) => LongIsLaid(n);
    case Str(t) => TextIsLaid(t);
    case CStr(t) => TextIsLaid(t);
    case Bignum1(n) => Bignum1IsLaid(n);
    case Mpint(n) => MpintIsLaid(n);
  }

  lemma CharIsLaid(c: Byte)
    ensures ItemLaid([c], Char(c))
  {
  }

  lemma ShortIsLaid(n: nat)
    requires n < 0x1_0000
    ensures ItemLaid(Fixed(n, 2), Short(n))
  {
    hide Fixed;
    TwoBytes(n);
  }

  lemma IntIsLaid(n: nat)
    requires n < U32_RANGE
    ensures ItemLaid(Fixed(n, 4), Int32(n))
  {
    hide Fixed;
    FourBytes(n);
  }

  lemma TextIsLaid(t: seq<Byte>)
    requires |t| < U32_RANGE
    ensures ItemLaid(Fixed(|t|, 4) + t, Str(t)) && ItemLaid(Fixed(|t|, 4) + t, CStr(t))
  {
    hide Fixed, StringLaid;
    StringIsLaid(t);
  }

  function Pow2(k: nat): nat { if k == 0 then 1 else 2 * Pow2(k - 1) }

  /** The number of bits is the least with which the number can be written. */
  lemma {:induction false} BitsMeaning(n: nat)
    ensures n < Pow2(Bits(n)) && (n > 0 ==> Bits(n) > 0 && Pow2(Bits(n) - 1) <= n)
  {
    if n > 0 {
      BitsMeaning(n / 2);
    }
  }

  // ---- What is accepted ----

  /** A number is taken exactly from its bytes. */
  lemma NumberExactly(s: seq<Byte>, k: nat, n: nat, rest: seq<Byte>)
    ensures GetNumber(s, k) == Got(Some(n), rest) <==> n < Pow256(k) && s == Fixed(n, k) + rest
    ensures GetNumber(s, k).item.None? <==> |s| < k
    ensures |s| < k ==> GetNumber(s, k).rest == s
  {
    hide Fixed, Value, Pow256;
    if n < Pow256(k) && s == Fixed(n, k) + rest {
      NumberReadsBack(n, k, rest);
    }
    if |s| >= k {
      assert s == s[..k] + s[k..];
      FixedOfValue(s[..k]);
      ValueBound(s[..k]);
    }
  }

  /** A string is taken exactly when its length comes first and is at most 256 KiB. */
  lemma StringExactly(s: seq<Byte>, t: seq<Byte>, rest: seq<Byte>)
    ensures GetString(s) == Got(Some(t), rest) <==> |t| <= 262144 && s == Fixed(|t|, 4) + t + rest
    ensures GetString(s).item.None? ==> GetString(s).rest == if |s| < 4 then s else s[4..]
  {
    hide Fixed, Pow256, GetNumber;
    Powers();
    var len := GetNumber(s, 4);
    if |t| <= 262144 && s == Fixed(|t|, 4) + t + rest {
      StringReadsBack(t, rest);
    }
    NumberExactly(s, 4, if len.item.Some? then len.item.value else 0, len.rest);
    if GetString(s) == Got(Some(t), rest) {
      assert len.rest == t + rest;
      assert s == Fixed(|t|, 4) + (t + rest) == Fixed(|t|, 4) + t + rest;
    }
    if |s| >= 4 {
      RestOfNumber(s);
    }
  }

  lemma RestOfNumber(s: seq<Byte>)
    requires |s| >= 4
    ensures GetNumber(s, 4).rest == s[4..] && GetNumber(s, 4).item.Some?
  {
  }

  /** A C string is such a string with no NUL in front of its last byte. */
  lemma CStringExactly(s: seq<Byte>, t: seq<Byte>, rest: seq<Byte>)
    ensures GetCString(s) == Got(Some(t), rest) <==>
      && |t| <= 262144 && s == Fixed(|t|, 4) + t + rest
      && forall i :: 0 <= i < |t| - 1 ==> t[i] != 0
    ensures GetCString(s).rest == GetString(s).rest
  {
    hide Fixed, GetString;
    StringExactly(s, t, rest);
    var g := GetString(s);
    if g.item.Some? {
      FirstNul(g.item.value);
    }
  }

  lemma FirstNul(t: seq<Byte>)
    ensures StrLen(t, 0) + 1 >= |t| <==> forall i :: 0 <= i < |t| - 1 ==> t[i] != 0
  {
    var n := StrLen(t, 0);
    assert forall i :: 0 <= i < n ==> t[i] == t[0..n][i] && t[i] in t[0..n];
  }

  /** A version 1 number: as many bytes as its bit count calls for, at most 8192. */
  lemma Bignum1Exactly(s: seq<Byte>)
    ensures var g := GetBignum1(s);
      if |s| < 2 then g == Got(None, s)
      else
        var b0: int, b1: int := s[0], s[1];
        var bytes := (0x100 * b0 + b1 + 7) / 8;
        if bytes > 8192 || |s| - 2 < bytes then g == Got(None, s[2..])
        else g == Got(Some(Value(s[2..2 + bytes])), s[2 + bytes..])
  {
    hide Value;
    if |s| >= 2 {
      ValueOfTwo(s[0], s[1]);
      assert s[..2] == [s[0], s[1]];
      var b0: int, b1: int := s[0], s[1];
      var bytes := (0x100 * b0 + b1 + 7) / 8;
      if bytes <= |s| - 2 {
        assert s[2..][..bytes] == s[2..2 + bytes] && s[2..][bytes..] == s[2 + bytes..];
      }
    }
  }

  /** The bytes begin with a string `t` that holds the number, with a clear sign bit. */
  predicate MpintOf(s: seq<Byte>, t: seq<Byte>, n: nat, rest: seq<Byte>) {
    |t| <= 8192 && s == Fixed(|t|, 4) + t + rest && Value(t) == n && (t != [] ==> t[0] < 128)
  }

  /** A version 2 number: a string of at most 8192 bytes whose sign bit is clear. */
  lemma MpintExactly(s: seq<Byte>, n: nat, rest: seq<Byte>)
    ensures GetMpint(s) == Got(Some(n), rest) <==>
      exists t :: MpintOf(s, t, n, rest)
    ensures GetMpint(s).rest == GetString(s).rest
  {
    hide Fixed, Value, GetString;
    var g := GetString(s);
    if GetMpint(s) == Got(Some(n), rest) {
      StringExactly(s, g.item.value, rest);
      assert MpintOf(s, g.item.value, n, rest);
    }
    if t :| MpintOf(s, t, n, rest) {
      StringExactly(s, t, rest);
    }
  }
}
