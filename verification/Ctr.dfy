/** Counter mode, as cipher-ctr.c does it octet by octet. */
module Ctr {
  import opened Bytes
  import opened CipherBlocks

  // ---- The counter ----

  /** The number that a big-endian counter holds. */
  function Value(ctr: seq<bv8>): nat {
    if ctr == [] then 0 else 256 * Value(ctr[..|ctr| - 1]) + ctr[|ctr| - 1] as int
  }

  function Inc(ctr: seq<bv8>): (r: seq<bv8>)
    ensures |r| == |ctr|
  {
    if ctr == [] then []
    else if ctr[|ctr| - 1] != 255 then ctr[..|ctr| - 1] + [ctr[|ctr| - 1] + 1]
    else Inc(ctr[..|ctr| - 1]) + [0]
  }

  /** The octets of 255 at the end become zero, the one in front of them goes up by one, the others stay. */
  lemma {:induction false} IncCarries(ctr: seq<bv8>, k: nat)
    requires k <= |ctr| && (k > 0 ==> ctr[k - 1] != 255) && forall j :: k <= j < |ctr| ==> ctr[j] == 255
    ensures var r := Inc(ctr);
      && (forall j :: 0 <= j < k - 1 ==> r[j] == ctr[j])
      && (k > 0 ==> r[k - 1] == ctr[k - 1] + 1)
      && (forall j :: k <= j < |ctr| ==> r[j] == 0)
  {
    if k < |ctr| {
      var front := ctr[..|ctr| - 1];
      IncCarries(front, k);
      assert Inc(ctr) == Inc(front) + [0] && ctr[|ctr| - 1] == 255;
    }
  }

  lemma OctetSuccessor(b: bv8)
    ensures b == 255 ==> b + 1 == 0 && b as int == 255
    ensures b != 255 ==> (b + 1) as int == b as int + 1
  {
  }

  lemma {:induction false} ValueBound(ctr: seq<bv8>)
    ensures Value(ctr) < Pow256(|ctr|)
  {
    if ctr != [] {
      ValueBound(ctr[..|ctr| - 1]);
    }
  }

  lemma ValueLast(front: seq<bv8>, last: bv8)
    ensures Value(front + [last]) == 256 * Value(front) + last as int
  {
    assert (front + [last])[..|front|] == front;
  }

  /** Incrementing adds one, and starts again at zero after the largest value. */
  lemma {:induction false} IncAddsOne(ctr: seq<bv8>)
    ensures Value(Inc(ctr)) == if Value(ctr) + 1 == Pow256(|ctr|) then 0 else Value(ctr) + 1
  {
    ValueBound(ctr);
    if ctr != [] {
      var front, last := ctr[..|ctr| - 1], ctr[|ctr| - 1];
      OctetSuccessor(last);
      IncAddsOne(front);
      ValueBound(front);
      ValueLast(front, last + 1);
      ValueLast(Inc(front), 0);
    }
  }

  lemma LastDigit(p: nat, q: nat, x: bv8, y: bv8)
    requires 256 * p + x as int == 256 * q + y as int
    ensures p == q && x == y
  {
    assert x as int < 256 && y as int < 256;
  }

  /** A counter of a given size is determined by its value. */
  lemma {:induction false} ValueInjective(a: seq<bv8>, b: seq<bv8>)
    requires |a| == |b| && Value(a) == Value(b)
    ensures a == b
  {
    if a != [] {
      var n := |a| - 1;
      LastDigit(Value(a[..n]), Value(b[..n]), a[n], b[n]);
      ValueInjective(a[..n], b[..n]);
      assert a == a[..n] + [a[n]] && b == b[..n] + [b[n]];
    }
  }

  /** The counter after `k` increments. */
  function After(ctr: Block, k: nat): Block { if k == 0 then ctr else Inc(After(ctr, k - 1)) }

  lemma AfterStep(ctr: Block, k: nat)
    ensures After(ctr, 0) == ctr && After(ctr, k + 1) == Inc(After(ctr, k))
  {
  }

  lemma {:induction false} AfterAdds(ctr: Block, k: nat)
    ensures Value(After(ctr, k)) == (Value(ctr) + k) % Pow256(16)
  {
    hide Value, Pow256, After, Inc;
    ValueBound(ctr);
    AfterStep(ctr, if k == 0 then 0 else k - 1);
    if k > 0 {
      AfterAdds(ctr, k - 1);
      IncAddsOne(After(ctr, k - 1));
      AddOneMod(Value(ctr) + k - 1, Pow256(16));
    } else {
      SmallMod(Value(ctr), Pow256(16));
    }
  }

  lemma SmallMod(a: nat, m: nat)
    requires a < m
    ensures a % m == a
  {
  }

  lemma MulAtLeast(m: int, t: int)
    requires m > 0
    ensures t >= 1 ==> m * t >= m
    ensures t <= -1 ==> m * t <= -m
  {
    if t >= 1 {
      assert m * t == m + m * (t - 1);
    } else if t <= -1 {
      assert m * t == -m + m * (t + 1);
    }
  }

  lemma ModIs(a: nat, m: nat, q: int, r: nat)
    requires m > 0 && a == m * q + r && r < m
    ensures a % m == r
  {
    var t := a / m - q;
    assert m * t == m * (a / m) - m * q == r - a % m;
    MulAtLeast(m, t);
  }

  lemma AddOneMod(a: nat, m: nat)
    requires m > 0
    ensures (a + 1) % m == if a % m + 1 == m then 0 else a % m + 1
  {
    var q, r := a / m, a % m;
    assert a == m * q + r;
    if r + 1 == m {
      assert a + 1 == m * (q + 1);
      ModIs(a + 1, m, q + 1, 0);
    } else {
      ModIs(a + 1, m, q, r + 1);
    }
  }

  /** No two of 256^16 successive blocks use the same counter. */
  lemma CountersDiffer(ctr: Block, j: nat, k: nat)
    ensures After(ctr, j) == After(ctr, k) <==> (Value(ctr) + j) % Pow256(16) == (Value(ctr) + k) % Pow256(16)
    ensures j < k < j + Pow256(16) ==> After(ctr, j) != After(ctr, k)
  {
    hide After, Value, Pow256;
    AfterAdds(ctr, j);
    AfterAdds(ctr, k);
    if Value(After(ctr, j)) == Value(After(ctr, k)) {
      ValueInjective(After(ctr, j), After(ctr, k));
    }
    if j < k < j + Pow256(16) {
      NotCongruent(Value(ctr) + j, Value(ctr) + k, Pow256(16));
    }
  }

  lemma NotCongruent(a: nat, b: nat, m: nat)
    requires a < b < a + m
    ensures a % m != b % m
  {
    var t := b / m - a / m;
    assert b - a == m * (b / m) + b % m - (m * (a / m) + a % m) == m * t + (b % m - a % m);
    MulAtLeast(m, t);
  }

  lemma {:induction false} AfterSum(ctr: Block, j: nat, k: nat)
    ensures After(After(ctr, j), k) == After(ctr, j + k)
  {
    if k > 0 {
      AfterSum(ctr, j, k - 1);
    }
  }

  // ---- The key stream ----

  /** The octet that is added to octet `i` of the text. */
  function Key(e: Cipher, ctr: Block, i: nat): bv8 { e(After(ctr, i / 16))[i % 16] }

  lemma KeyAt(e: Cipher, ctr: Block, q: nat, n: nat)
    requires n < 16
    ensures Key(e, ctr, 16 * q + n) == e(After(ctr, q))[n]
  {
    assert (16 * q + n) / 16 == q && (16 * q + n) % 16 == n;
  }

  function Crypt(e: Cipher, ctr: Block, s: seq<bv8>): (r: seq<bv8>)
    ensures |r| == |s|
    ensures forall i :: 0 <= i < |s| ==> r[i] == s[i] ^ Key(e, ctr, i)
  {
    seq(|s|, i requires 0 <= i < |s| => s[i] ^ Key(e, ctr, i))
  }

  /**
   Octet `i` is added to that octet of the encrypted counter whose number is the first one's plus the number
   of whole blocks before it.
   */
  lemma CryptsOctets(e: Cipher, ctr: Block, s: seq<bv8>, i: nat, t: Block)
    requires i < |s| && Value(t) == (Value(ctr) + i / 16) % Pow256(16)
    ensures Crypt(e, ctr, s)[i] == s[i] ^ e(t)[i % 16]
  {
    hide Value, Pow256, After;
    AfterAdds(ctr, i / 16);
    ValueInjective(t, After(ctr, i / 16));
  }

  /** How many counter values `len` octets use. */
  function Blocks(len: nat): nat { (len + 15) / 16 }

  lemma BlocksOf(len: nat, b: nat, n: nat)
    requires n < 16 && len == if n == 0 then 16 * b else 16 * b - 16 + n
    ensures Blocks(len) == b
  {
  }

  /** Decrypting is encrypting again from the same counter. */
  lemma OwnInverse(e: Cipher, ctr: Block, s: seq<bv8>)
    ensures Crypt(e, ctr, Crypt(e, ctr, s)) == s
  {
    forall i | 0 <= i < |s| ensures Crypt(e, ctr, Crypt(e, ctr, s))[i] == s[i] {
      OctetTwice(s[i], Key(e, ctr, i));
    }
  }

  /** Calls that end at a block boundary can be joined. */
  lemma CryptsInParts(e: Cipher, ctr: Block, a: seq<bv8>, b: seq<bv8>)
    requires |a| % 16 == 0
    ensures Crypt(e, ctr, a + b) == Crypt(e, ctr, a) + Crypt(e, After(ctr, Blocks(|a|)), b)
    ensures After(After(ctr, Blocks(|a|)), Blocks(|b|)) == After(ctr, Blocks(|a| + |b|))
  {
    hide After;
    var n := |a| / 16;
    assert Blocks(|a|) == n && Blocks(|a| + |b|) == n + Blocks(|b|);
    AfterSum(ctr, n, Blocks(|b|));
    forall i | 0 <= i < |a| + |b|
      ensures Crypt(e, ctr, a + b)[i] == (Crypt(e, ctr, a) + Crypt(e, After(ctr, n), b))[i]
    {
      if i >= |a| {
        AfterSum(ctr, n, (i - |a|) / 16);
      }
    }
  }

  /** The results of two calls in a row are that of one call on both texts. */
  ghost predicate Joins(e: Cipher, ctr: Block, a: seq<bv8>, b: seq<bv8>) {
    Crypt(e, ctr, a + b) == Crypt(e, ctr, a) + Crypt(e, After(ctr, Blocks(|a|)), b)
  }

  /** A block cipher can be undone. */
  ghost predicate Invertible(e: Cipher) { exists d: Cipher :: Inverse(d, e) }

  /** The cipher that adds a fixed block, which is its own inverse. */
  function Adding(k: Block): Cipher { (x: Block) => Xor(x, k) }

  lemma AddingInverts(k: Block)
    ensures Invertible(Adding(k))
  {
    forall b: Block ensures Adding(k)(Adding(k)(b)) == b {
      XorTwice(b, k);
    }
    assert Inverse(Adding(k), Adding(k));
  }

  lemma XorDiffers(x: bv8, u: bv8, v: bv8)
    ensures x ^ (u ^ (u ^ v ^ 1)) != x ^ (v ^ 0)
  {
  }

  /**
   After a call that ends inside a block the rest of its key stream is dropped: some cipher then tells two
   calls from one.
   */
  lemma PartsInsideBlock(ctr: Block, a: seq<bv8>, b: seq<bv8>) returns (e: Cipher)
    requires |a| % 16 != 0 && b != []
    ensures Invertible(e) && !Joins(e, ctr, a, b)
  {
    hide After, Key, Joins, Invertible;
    var n, u, v := |a| % 16, After(ctr, |a| / 16), After(ctr, Blocks(|a|));
    var k := TellingBlock(u, v, n);
    e := Adding(k);
    AddingInverts(k);
    KeyAt(e, ctr, |a| / 16, n);
    KeyAt(e, v, 0, 0);
    AfterStep(v, 0);
    XorDiffers(b[0], u[n], v[0]);
    DifferentKeys(e, ctr, a, b);
  }

  /** Adding this block makes octet `n` of the sum with `u` differ from the first octet of that with `v`. */
  function TellingBlock(u: Block, v: Block, n: nat): (k: Block)
    requires 0 < n < 16
    ensures k[0] == 0 && k[n] == u[n] ^ v[0] ^ 1
  {
    seq(16, i requires 0 <= i < 16 => if i == n then u[n] ^ v[0] ^ 1 else 0)
  }

  lemma DifferentKeys(e: Cipher, ctr: Block, a: seq<bv8>, b: seq<bv8>)
    requires b != [] && b[0] ^ Key(e, ctr, |a|) != b[0] ^ Key(e, After(ctr, Blocks(|a|)), 0)
    ensures !Joins(e, ctr, a, b)
  {
    hide Key, After, Blocks;
    var next := After(ctr, Blocks(|a|));
    assert (a + b)[|a|] == b[0];
    AtBoundary(Crypt(e, ctr, a), Crypt(e, next, b));
  }

  lemma AtBoundary(s: seq<bv8>, t: seq<bv8>)
    requires t != []
    ensures (s + t)[|s|] == t[0]
  {
  }

  /**
   Two calls can be joined under every block cipher exactly when the first ends with a block or the second
   is empty.
   */
  lemma JoinableExactly(ctr: Block, a: seq<bv8>, b: seq<bv8>)
    ensures (forall e :: Invertible(e) ==> Joins(e, ctr, a, b)) <==> |a| % 16 == 0 || b == []
    ensures |a| % 16 == 0 || b == [] ==> forall e :: Joins(e, ctr, a, b)
  {
    hide Joins, Invertible;
    if |a| % 16 != 0 && b != [] {
      var e := PartsInsideBlock(ctr, a, b);
    } else {
      forall e ensures Joins(e, ctr, a, b) {
        JoinsHere(e, ctr, a, b);
      }
    }
  }

  lemma JoinsHere(e: Cipher, ctr: Block, a: seq<bv8>, b: seq<bv8>)
    requires |a| % 16 == 0 || b == []
    ensures Joins(e, ctr, a, b)
  {
    hide Crypt, After, Blocks;
    if |a| % 16 == 0 {
      CryptsInParts(e, ctr, a, b);
    } else {
      CryptNothing(e, After(ctr, Blocks(|a|)));
      assert a + b == a && Crypt(e, ctr, a) + [] == Crypt(e, ctr, a);
    }
  }

  lemma CryptNothing(e: Cipher, ctr: Block)
    ensures Crypt(e, ctr, []) == []
  {
  }

  /** The state of the loop after `k` octets: `n` octets of the current block are used up, `b` blocks were begun. */
  ghost predicate Streaming(e: Cipher, ctr: Block, counter: seq<bv8>, buf: Block, k: nat, n: nat, b: nat) {
    && n < 16 && counter == After(ctr, b)
    && if n == 0 then k == 16 * b else k == 16 * b - 16 + n && buf == e(After(ctr, b - 1))
  }

  lemma StreamStarts(e: Cipher, ctr: Block, buf: Block)
    ensures Streaming(e, ctr, ctr, buf, 0, 0, 0)
  {
  }

  /** Another block is begun when the last one is used up. */
  lemma StreamBegins(e: Cipher, ctr: Block, counter: Block, buf: Block, k: nat, b: nat)
    requires Streaming(e, ctr, counter, buf, k, 0, b)
    ensures Streams(e, ctr, Inc(counter), e(counter), k, 0, b + 1)
  {
    AfterStep(ctr, b);
  }

  lemma StreamStays(e: Cipher, ctr: Block, counter: seq<bv8>, buf: Block, k: nat, n: nat, b: nat)
    requires Streaming(e, ctr, counter, buf, k, n, b) && n > 0
    ensures Streams(e, ctr, counter, buf, k, n, b)
  {
  }

  /** Octet `n` of the current block comes next. */
  ghost predicate Streams(e: Cipher, ctr: Block, counter: seq<bv8>, buf: Block, k: nat, n: nat, b: nat) {
    n < 16 && b > 0 && counter == After(ctr, b) && k == 16 * b - 16 + n && buf == e(After(ctr, b - 1))
  }

  lemma StreamGoesOn(e: Cipher, ctr: Block, counter: seq<bv8>, buf: Block, k: nat, n: nat, b: nat)
    requires Streams(e, ctr, counter, buf, k, n, b)
    ensures buf[n] == Key(e, ctr, k)
    ensures Streaming(e, ctr, counter, buf, k + 1, (n + 1) % 16, b)
  {
    hide Key, After;
    KeyAt(e, ctr, b - 1, n);
  }

  lemma StreamEnds(e: Cipher, ctr: Block, counter: seq<bv8>, buf: Block, k: nat, n: nat, b: nat)
    requires Streaming(e, ctr, counter, buf, k, n, b)
    ensures counter == After(ctr, Blocks(k))
  {
    hide After;
    BlocksOf(k, b, n);
  }

  lemma CounterLeft(ctr: Block, len: nat)
    ensures Value(After(ctr, Blocks(len))) == (Value(ctr) + (len + 15) / 16) % Pow256(16)
  {
    hide Value, Pow256, After;
    AfterAdds(ctr, Blocks(len));
  }

  class AesCtr {
    const e: Cipher
    const counter: array<bv8>

    constructor (e: Cipher, iv: Block)
      ensures this.e == e && fresh(counter) && counter[..] == iv
    {
      this.e := e;
      counter := new bv8[16](i requires 0 <= i < 16 => iv[i]);
    }

    /** `ssh_aes_ctr`. */
    method Process(dest: array<bv8>, src: array<bv8>, len: nat)
      requires counter.Length == 16 && counter != dest && counter != src
      requires len <= src.Length && len <= dest.Length
      modifies counter, dest
      ensures dest[..len] == Crypt(e, old(counter[..]), old(src[..len])) && dest[len..] == old(dest[len..])
      ensures counter[..] == After(old(counter[..]), Blocks(len))
      ensures Value(counter[..]) == (Value(old(counter[..])) + (len + 15) / 16) % Pow256(16)
    {
      hide Value, Pow256, Key, After, Streaming, Streams, Inc, Blocks;
      ghost var ctr: Block, s := counter[..], src[..len];
      CounterLeft(ctr, len);
      var n, k := 0, 0;
      var buf: Block := counter[..];
      ghost var b: nat := 0;
      StreamStarts(e, ctr, buf);
      while k < len
        invariant 0 <= k <= len && 0 <= n < 16
        invariant Streaming(e, ctr, counter[..], buf, k, n, b)
        invariant forall j :: 0 <= j < k ==> dest[j] == s[j] ^ Key(e, ctr, j)
        invariant forall j :: k <= j < len ==> src[j] == s[j]
        invariant forall j :: len <= j < dest.Length ==> dest[j] == old(dest[j])
      {
        if n == 0 {
          StreamBegins(e, ctr, counter[..], buf, k, b);
          buf := e(counter[..]);
          CtrInc(counter);
          b := b + 1;
        } else {
          StreamStays(e, ctr, counter[..], buf, k, n, b);
        }
        StreamGoesOn(e, ctr, counter[..], buf, k, n, b);
        dest[k] := src[k] ^ buf[n];
        k := k + 1;
        n := (n + 1) % 16;
      }
      StreamEnds(e, ctr, counter[..], buf, k, n, b);
    }
  }

  /** Increments a big-endian counter in place: the carry goes on while an octet becomes zero. */
  method CtrInc(ctr: array<bv8>)
    modifies ctr
    ensures ctr[..] == Inc(old(ctr[..]))
  {
    var i := ctr.Length;
    ghost var s := ctr[..];
    assert s[..i] == s && ctr[i..] == [] && Inc(s) + [] == Inc(s);
    while i > 0
      invariant 0 <= i <= ctr.Length
      invariant ctr[..i] == s[..i]
      invariant Inc(s) == Inc(s[..i]) + ctr[i..]
    {
      i := i - 1;
      ctr[i] := ctr[i] + 1;
      assert s[..i + 1][..i] == s[..i] == ctr[..i];
      if ctr[i] != 0 {
        return;
      }
    }
  }
}
