/** Bytes, C strings, comma-separated text, and the fixed-width unsigned arithmetic the sources rely on. */
module Bytes {

  type Byte = x: int | 0 <= x < 256

  /** One past the largest value of the sources' `u_int`. */
  const U32_RANGE: nat := 0x1_0000_0000

  /** The limit of buffer.h on the size of a buffer, which is also that on the socket buffer size. */
  const BUFFER_MAX_LEN_HPN: nat := 0x400_0000

  datatype Option<+T> = None | Some(value: T)

  function Min(a: int, b: int): int { if a < b then a else b }

  /** Unsigned 32-bit addition and subtraction, with C's wrap-around. */
  function Add32(a: nat, b: nat): nat { (a + b) % U32_RANGE }

  function Sub32(a: nat, b: nat): nat { (a - b) % U32_RANGE }

  predicate NulFree(s: seq<Byte>) { 0 !in s }

  /** C's `strlen` on the bytes from `pos`: distance to the first NUL, or to the end of `s`. */
  function StrLen(s: seq<Byte>, pos: nat): (n: nat)
    requires pos <= |s|
    ensures pos + n <= |s|
    ensures NulFree(s[pos..pos + n])
    ensures pos + n < |s| ==> s[pos + n] == 0
    decreases |s| - pos
  {
    if pos == |s| || s[pos] == 0 then 0
    else
      var n := StrLen(s, pos + 1);
      assert s[pos..pos + 1 + n] == [s[pos]] + s[pos + 1..pos + 1 + n];
      1 + n
  }

  /** `strlen` reads exactly a NUL-free text that is followed by its terminator. */
  lemma {:induction false} StrLenOfText(s: seq<Byte>, pos: nat, text: seq<Byte>)
    requires NulFree(text)
    requires pos + |text| < |s| && s[pos..pos + |text|] == text && s[pos + |text|] == 0
    ensures StrLen(s, pos) == |text|
    decreases |text|
  {
    if text != [] {
      assert s[pos] == text[0] && s[pos + 1..pos + 1 + |text[1..]|] == text[1..];
      StrLenOfText(s, pos + 1, text[1..]);
    }
  }

  function Pow256(k: nat): (p: nat)
    ensures p > 0
  {
    if k == 0 then 1 else 256 * Pow256(k - 1)
  }

  // ---- Comma-separated text ----

  predicate NoComma(s: string) { ',' !in s }

  /** `strsep` on commas: every list has at least one piece, possibly empty. */
  function FirstComma(s: string): (n: nat)
    ensures n <= |s| && NoComma(s[..n]) && (n < |s| ==> s[n] == ',')
  {
    if s == "" || s[0] == ',' then 0
    else
      var n := 1 + FirstComma(s[1..]);
      assert s[..n] == [s[0]] + s[1..][..n - 1];
      n
  }

  function Pieces(s: string): (r: seq<string>)
    ensures |r| >= 1 && forall piece :: piece in r ==> NoComma(piece)
    decreases |s|
  {
    var n := FirstComma(s);
    if n == |s| then [s] else [s[..n]] + Pieces(s[n + 1..])
  }

  lemma PiecesFirst(s: string)
    ensures var n := FirstComma(s);
      Pieces(s) == [s[..n]] + if n == |s| then [] else Pieces(s[n + 1..])
  {
    hide FirstComma;
    var n := FirstComma(s);
    assert [s[..n]] + [] == [s[..n]] && s[..|s|] == s;
  }
}
