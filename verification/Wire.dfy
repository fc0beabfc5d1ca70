/**
 The puts and gets of bufaux.c and bufbn.c on the FIFO buffer. A put is fatal exactly when one of
 its appends is; a get that fails returns -1 and may have consumed a part of the item.
 */
module Wire {
  import opened Bytes
  import opened FifoBuffer
  import opened WireSpec

  // ---- bufaux.c ----

  method PutChar(b: Buffer, value: Byte) returns (fatal: bool)
    requires b.Valid()
    modifies b, b.buf
    ensures b.Valid() && (b.buf == old(b.buf) || fresh(b.buf)) && fatal == old(b.GetShape()).AppendIsFatal(1)
    ensures b.Contents() == if fatal then old(b.Contents()) else old(b.Contents()) + Enc(Char(value))
  {
    fatal := b.Append([value]);
  }

  /** The shorts, ints and 64-bit ints: `k` bytes, most significant first. */
  method PutNumber(b: Buffer, value: nat, k: nat) returns (fatal: bool)
    requires b.Valid() && k <= 8
    modifies b, b.buf
    ensures b.Valid() && (b.buf == old(b.buf) || fresh(b.buf)) && fatal == old(b.GetShape()).AppendIsFatal(k)
    ensures b.Contents() == if fatal then old(b.Contents()) else old(b.Contents()) + Fixed(value, k)
    ensures !fatal ==> b.GetShape() == old(b.GetShape()).AfterAppend(k)
  {
    fatal := b.Append(Fixed(value, k));
  }

  method GetNumber(b: Buffer, k: nat) returns (ret: int, value: nat)
    requires b.Valid()
    modifies b
    ensures b.Valid() && b.buf == old(b.buf)
    ensures var g := WireSpec.GetNumber(old(b.Contents()), k);
      b.Contents() == g.rest && (ret == 0 <==> g.item.Some?) && (ret == 0 ==> g.item == Some(value))
      && (ret == 0 || ret == -1)
  {
    var data;
    ret, data := b.GetRet(k);
    if ret == -1 {
      return -1, 0;
    }
    Front(data, b.Contents(), []);
    return 0, Value(data);
  }

  method GetChar(b: Buffer) returns (ret: int, value: Byte)
    requires b.Valid()
    modifies b
    ensures b.Valid() && b.buf == old(b.buf)
    ensures var g := Get(KChar, old(b.Contents()));
      b.Contents() == g.rest && ret == (if g.item.Some? then 0 else -1) && (ret == 0 ==> g.item == Some(Char(value)))
  {
    var data;
    ret, data := b.GetRet(1);
    if ret == -1 {
      return -1, 0;
    }
    Front(data, b.Contents(), []);
    return 0, data[0];
  }

  lemma EncOfString(data: seq<Byte>)
    requires |data| < U32_RANGE
    ensures Enc(Str(data)) == Fixed(|data|, 4) + data
  {
    hide Fixed;
  }

  method PutString(b: Buffer, data: seq<Byte>) returns (fatal: bool)
    requires b.Valid() && |data| < U32_RANGE
    modifies b, b.buf
    ensures b.Valid() && (b.buf == old(b.buf) || fresh(b.buf))
    ensures fatal == (old(b.GetShape()).AppendIsFatal(4) || old(b.GetShape()).AfterAppend(4).AppendIsFatal(|data|))
    ensures !fatal ==> b.Contents() == old(b.Contents()) + Enc(Str(data))
  {
    hide Fixed, BlockSize, Enc, Shape.AppendIsFatal, Shape.AfterAppend, Shape.Settle, Shape.Live;
    EncOfString(data);
    fatal := PutNumber(b, |data|, 4);
    if fatal {
      return;
    }
    fatal := b.Append(data);
    PutInParts(old(b.Contents()), Fixed(|data|, 4), data);
  }

  /** `buffer_get_string_ret`. */
  method GetString(b: Buffer) returns (value: Option<seq<Byte>>)
    requires b.Valid()
    modifies b
    ensures b.Valid() && b.buf == old(b.buf)
    ensures Got(value, b.Contents()) == WireSpec.GetString(old(b.Contents()))
  {
    hide Value, BlockSize;
    var ret, len := GetNumber(b, 4);
    if ret != 0 {
      return None;
    }
    if len > STRING_LIMIT {
      return None;
    }
    var data;
    ret, data := b.GetRet(len);
    if ret == -1 {
      return None;
    }
    Front(data, b.Contents(), []);
    return Some(data);
  }

  /** `buffer_get_cstring_ret`. */
  method GetCString(b: Buffer) returns (value: Option<seq<Byte>>)
    requires b.Valid()
    modifies b
    ensures b.Valid() && b.buf == old(b.buf)
    ensures Got(value, b.Contents()) == WireSpec.GetCString(old(b.Contents()))
  {
    hide WireSpec.GetString;
    value := GetString(b);
    if value.Some? {
      var cp := StrLen(value.value, 0);
      if cp < |value.value| && cp != |value.value| - 1 {
        value := None;
      }
    }
  }

  lemma PutInParts(before: seq<Byte>, a: seq<Byte>, b: seq<Byte>)
    ensures before + a + b == before + (a + b)
  {
  }

  lemma EncParts(value: nat)
    ensures Enc(Bignum1(value)) == Fixed(Bits(value), 2) + Digits(value)
  {
    hide Fixed, Bits, Digits;
  }

  // ---- bufbn.c ----

  method PutBignum(b: Buffer, value: nat) returns (ret: int, fatal: bool)
    requires b.Valid() && |Digits(value)| < U32_RANGE
    modifies b, b.buf
    ensures b.Valid() && (b.buf == old(b.buf) || fresh(b.buf)) && ret == 0
    ensures fatal
            == (old(b.GetShape()).AppendIsFatal(2) || old(b.GetShape()).AfterAppend(2).AppendIsFatal(|Digits(value)|))
    ensures !fatal ==> b.Contents() == old(b.Contents()) + Enc(Bignum1(value))
  {
    hide Enc, Digits, Bits, Fixed, BlockSize, Shape.AppendIsFatal, Shape.AfterAppend, Shape.Settle;
    var bits := Bits(value);
    var binSize := (bits + 7) / 8;
    var bin := Digits(value);
    DigitsOfBits(value);
    EncParts(value);
    if |bin| != binSize {
      return -1, false;
    }
    fatal := PutNumber(b, bits, 2);
    if !fatal {
      fatal := b.Append(bin);
      PutInParts(old(b.Contents()), Fixed(bits, 2), bin);
    }
    return 0, fatal;
  }

  method GetBignum(b: Buffer) returns (ret: int, value: nat)
    requires b.Valid()
    modifies b
    ensures b.Valid() && b.buf == old(b.buf)
    ensures var g := GetBignum1(old(b.Contents()));
      b.Contents() == g.rest && ret == (if g.item.Some? then 0 else -1) && (ret == 0 ==> g.item == Some(value))
  {
    hide Value, BlockSize;
    var bits, data;
    ret, bits := GetNumber(b, 2);
    if ret == -1 {
      return -1, 0;
    }
    var bytes := (bits + 7) / 8;
    if bytes > BIGNUM_LIMIT {
      return -1, 0;
    }
    if b.Len() < bytes {
      return -1, 0;
    }
    ret, data := b.GetRet(bytes);
    Front(data, b.Contents(), []);
    return 0, Value(data);
  }

  /** `buffer_put_bignum2_ret`: negative numbers are refused, and nothing is put. */
  method PutBignum2(b: Buffer, value: int) returns (ret: int, fatal: bool)
    requires b.Valid() && (value >= 0 ==> |MpintBody(value)| < U32_RANGE)
    modifies b, b.buf
    ensures b.Valid() && (b.buf == old(b.buf) || fresh(b.buf))
    ensures ret == if value < 0 then -1 else 0
    ensures value < 0 ==> !fatal && b.Contents() == old(b.Contents())
    ensures value == 0 ==> fatal == old(b.GetShape()).AppendIsFatal(4)
    ensures value > 0 ==>
      fatal == (old(b.GetShape()).AppendIsFatal(4)
                || old(b.GetShape()).AfterAppend(4).AppendIsFatal(|MpintBody(value)|))
    ensures value >= 0 && !fatal ==> b.Contents() == old(b.Contents()) + Enc(Mpint(value))
  {
    hide Digits, Fixed, BlockSize, Shape.AppendIsFatal, Shape.AfterAppend, Shape.Settle;
    if value == 0 {
      MpintOfZero();
      fatal := PutNumber(b, 0, 4);
      return 0, fatal;
    }
    if value < 0 {
      return -1, false;
    }
    ValueOfDigits(value);
    var buf: seq<Byte> := [0] + Digits(value);
    var hasnohigh := if buf[1] >= 128 then 0 else 1;
    assert buf[hasnohigh..] == MpintBody(value);
    fatal := PutString(b, buf[hasnohigh..]);
    return 0, fatal;
  }

  lemma MpintOfZero()
    ensures Enc(Mpint(0)) == Fixed(0, 4)
  {
    assert MpintBody(0) == [];
  }

  method GetBignum2(b: Buffer) returns (ret: int, value: nat)
    requires b.Valid()
    modifies b
    ensures b.Valid() && b.buf == old(b.buf)
    ensures var g := GetMpint(old(b.Contents()));
      b.Contents() == g.rest && ret == (if g.item.Some? then 0 else -1) && (ret == 0 ==> g.item == Some(value))
  {
    hide Value, BlockSize, WireSpec.GetString;
    var s := GetString(b);
    if s.None? {
      return -1, 0;
    }
    var bin := s.value;
    if |bin| > 0 && bin[0] >= 128 {
      return -1, 0;
    }
    if |bin| > BIGNUM_LIMIT {
      return -1, 0;
    }
    return 0, Value(bin);
  }
}
