/**
 Cipher block chaining, as cipher-aes.c does it on byte arrays that may be the same: encryption runs
 forward, decryption backward.
 */
module Cbc {
  import opened CipherBlocks

  predicate Whole(s: seq<bv8>) { |s| % 16 == 0 }

  /** Encryption as section 6.2 of NIST SP 800-38A defines it. */
  function Encrypt(e: Cipher, iv: Block, plain: seq<bv8>): (c: seq<bv8>)
    requires Whole(plain)
    ensures |c| == |plain|
    decreases |plain|
  {
    if plain == [] then []
    else
      var first := e(Xor(plain[..16], iv));
      first + Encrypt(e, first, plain[16..])
  }

  function Decrypt(d: Cipher, iv: Block, c: seq<bv8>): (plain: seq<bv8>)
    requires Whole(c)
    ensures |plain| == |c|
    decreases |c|
  {
    if c == [] then [] else Xor(d(c[..16]), iv) + Decrypt(d, c[..16], c[16..])
  }

  /** The block that the next call chains on: the last one of the ciphertext. */
  function NextIv(iv: Block, c: seq<bv8>): Block
    requires Whole(c)
  {
    if c == [] then iv else c[|c| - 16..]
  }

  lemma WholeStep(first: Block, rest: seq<bv8>)
    ensures Whole(first + rest) <==> Whole(rest)
    ensures Whole(rest) ==> rest == [] || |rest| >= 16
  {
  }

  lemma LastOfSum(first: Block, rest: seq<bv8>)
    requires rest == [] || |rest| >= 16
    ensures (first + rest)[|rest|..] == if rest == [] then first else rest[|rest| - 16..]
  {
    if rest == [] {
      assert (first + rest)[0..] == first;
    }
  }

  lemma NextIvStep(iv: Block, first: Block, rest: seq<bv8>)
    requires Whole(rest)
    ensures Whole(first + rest) && NextIv(iv, first + rest) == NextIv(first, rest)
  {
    hide Whole;
    WholeStep(first, rest);
    LastOfSum(first, rest);
  }

  lemma EncryptFirst(e: Cipher, iv: Block, b: Block, rest: seq<bv8>)
    requires Whole(rest)
    ensures Whole(b + rest) && Encrypt(e, iv, b + rest) == e(Xor(b, iv)) + Encrypt(e, e(Xor(b, iv)), rest)
  {
    assert (b + rest)[..16] == b && (b + rest)[16..] == rest;
  }

  lemma DecryptFirst(d: Cipher, iv: Block, b: Block, rest: seq<bv8>)
    requires Whole(rest)
    ensures Whole(b + rest) && Decrypt(d, iv, b + rest) == Xor(d(b), iv) + Decrypt(d, b, rest)
  {
    assert (b + rest)[..16] == b && (b + rest)[16..] == rest;
  }

  lemma SplitFirst(s: seq<bv8>) returns (b: Block, rest: seq<bv8>)
    requires Whole(s) && s != []
    ensures s == b + rest && Whole(rest) && |rest| < |s|
  {
    b, rest := s[..16], s[16..];
  }

  /** Decrypting what was encrypted gives it back, and both sides go on with the same block. */
  lemma {:induction false} DecryptsEncrypted(e: Cipher, d: Cipher, iv: Block, plain: seq<bv8>)
    requires Inverse(d, e) && Whole(plain)
    ensures Decrypt(d, iv, Encrypt(e, iv, plain)) == plain
    decreases |plain|
  {
    if plain != [] {
      hide Encrypt, Decrypt, Xor;
      var b, rest := SplitFirst(plain);
      var first := e(Xor(b, iv));
      EncryptFirst(e, iv, b, rest);
      DecryptFirst(d, iv, first, Encrypt(e, first, rest));
      DecryptsEncrypted(e, d, first, rest);
      assert d(first) == Xor(b, iv);
      XorTwice(b, iv);
    }
  }

  /** Block `i` of a text, and the block that it is chained on. */
  function BlockAt(s: seq<bv8>, i: nat): Block
    requires 16 * i + 16 <= |s|
  {
    s[16 * i..16 * i + 16]
  }

  lemma BlockOfSum(first: Block, rest: seq<bv8>, i: nat)
    requires 16 * i + 16 <= |first + rest|
    ensures BlockAt(first + rest, i) == if i == 0 then first else BlockAt(rest, i - 1)
  {
  }

  /** Every block is encrypted after the ciphertext block before it was added, the first one with the initial block. */
  lemma {:induction false} EncryptsBlocks(e: Cipher, iv: Block, plain: seq<bv8>, i: nat)
    requires Whole(plain) && 16 * i + 16 <= |plain|
    ensures var c := Encrypt(e, iv, plain);
      BlockAt(c, i) == e(Xor(BlockAt(plain, i), if i == 0 then iv else BlockAt(c, i - 1)))
    decreases |plain|
  {
    hide Encrypt, Xor, BlockAt;
    var b, rest := SplitFirst(plain);
    var first := e(Xor(b, iv));
    EncryptFirst(e, iv, b, rest);
    BlockOfSum(b, rest, i);
    BlockOfSum(first, Encrypt(e, first, rest), i);
    if i > 0 {
      EncryptsBlocks(e, first, rest, i - 1);
      BlockOfSum(first, Encrypt(e, first, rest), i - 1);
    }
  }

  /** Every block is decrypted before the ciphertext block before it is added. */
  lemma {:induction false} DecryptsBlocks(d: Cipher, iv: Block, c: seq<bv8>, i: nat)
    requires Whole(c) && 16 * i + 16 <= |c|
    ensures BlockAt(Decrypt(d, iv, c), i) == Xor(d(BlockAt(c, i)), if i == 0 then iv else BlockAt(c, i - 1))
    decreases |c|
  {
    hide Decrypt, Xor, BlockAt;
    var b, rest := SplitFirst(c);
    DecryptFirst(d, iv, b, rest);
    BlockOfSum(b, rest, i);
    BlockOfSum(Xor(d(b), iv), Decrypt(d, b, rest), i);
    if i > 0 {
      DecryptsBlocks(d, b, rest, i - 1);
      BlockOfSum(b, rest, i - 1);
    }
  }

  /** Two calls encrypt as one call on both texts does. */
  lemma {:induction false} EncryptsInParts(e: Cipher, iv: Block, p: seq<bv8>, q: seq<bv8>)
    requires Whole(p) && Whole(q)
    ensures Whole(p + q)
    ensures Encrypt(e, iv, p + q) == Encrypt(e, iv, p) + Encrypt(e, NextIv(iv, Encrypt(e, iv, p)), q)
    decreases |p|
  {
    hide Encrypt, Xor, NextIv;
    if p == [] {
      assert p + q == q;
      EncryptNone(e, iv);
    } else {
      var b, rest := SplitFirst(p);
      var first := e(Xor(b, iv));
      assert p + q == b + (rest + q);
      EncryptsInParts(e, first, rest, q);
      EncryptFirst(e, iv, b, rest);
      EncryptFirst(e, iv, b, rest + q);
      NextIvStep(iv, first, Encrypt(e, first, rest));
    }
  }

  lemma EncryptNone(e: Cipher, iv: Block)
    ensures Encrypt(e, iv, []) == [] && NextIv(iv, []) == iv
  {
  }

  /** Two calls decrypt as one call on both ciphertexts does. */
  lemma {:induction false} DecryptsInParts(d: Cipher, iv: Block, p: seq<bv8>, q: seq<bv8>)
    requires Whole(p) && Whole(q)
    ensures Whole(p + q)
    ensures Decrypt(d, iv, p + q) == Decrypt(d, iv, p) + Decrypt(d, NextIv(iv, p), q)
    decreases |p|
  {
    hide Decrypt, Xor, NextIv;
    if p == [] {
      assert p + q == q;
      DecryptNone(d, iv);
    } else {
      var b, rest := SplitFirst(p);
      assert p + q == b + (rest + q);
      DecryptsInParts(d, b, rest, q);
      DecryptFirst(d, iv, b, rest);
      DecryptFirst(d, iv, b, rest + q);
      NextIvStep(iv, b, rest);
    }
  }

  lemma DecryptNone(d: Cipher, iv: Block)
    ensures Decrypt(d, iv, []) == [] && NextIv(iv, []) == iv
  {
  }

  /** The packets of a connection, each encrypted by a call of its own on the same context. */
  function EncryptAll(e: Cipher, iv: Block, packets: seq<seq<bv8>>): (cs: seq<seq<bv8>>)
    requires forall p :: p in packets ==> Whole(p)
    ensures forall c :: c in cs ==> Whole(c)
    decreases |packets|
  {
    if packets == [] then []
    else
      var c := Encrypt(e, iv, packets[0]);
      [c] + EncryptAll(e, NextIv(iv, c), packets[1..])
  }

  function DecryptAll(d: Cipher, iv: Block, cs: seq<seq<bv8>>): seq<seq<bv8>>
    requires forall c :: c in cs ==> Whole(c)
    decreases |cs|
  {
    if cs == [] then [] else [Decrypt(d, iv, cs[0])] + DecryptAll(d, NextIv(iv, cs[0]), cs[1..])
  }

  /** Two contexts that start with the same block stay in step over any series of packets. */
  lemma {:induction false} SessionRoundTrip(e: Cipher, d: Cipher, iv: Block, packets: seq<seq<bv8>>)
    requires Inverse(d, e) && forall p :: p in packets ==> Whole(p)
    ensures DecryptAll(d, iv, EncryptAll(e, iv, packets)) == packets
    decreases |packets|
  {
    hide Encrypt, Decrypt, NextIv;
    if packets != [] {
      var c := Encrypt(e, iv, packets[0]);
      DecryptsEncrypted(e, d, iv, packets[0]);
      SessionRoundTrip(e, d, NextIv(iv, c), packets[1..]);
      assert EncryptAll(e, iv, packets)[1..] == EncryptAll(e, NextIv(iv, c), packets[1..]);
    }
  }

  lemma EncryptOne(e: Cipher, iv: Block, b: Block)
    ensures Encrypt(e, iv, b) == e(Xor(b, iv)) && NextIv(iv, b) == b
  {
    assert b[..16] == b && b[16..] == [];
  }

  /** One more block of plaintext at the end. */
  lemma EncryptLast(e: Cipher, iv: Block, s: seq<bv8>, i: nat)
    requires 16 * i + 16 <= |s|
    ensures Whole(s[..16 * i]) && Whole(s[..16 * i + 16])
    ensures var before := Encrypt(e, iv, s[..16 * i]);
      Encrypt(e, iv, s[..16 * i + 16]) == before + e(Xor(s[16 * i..16 * i + 16], NextIv(iv, before)))
  {
    var p, b := s[..16 * i], s[16 * i..16 * i + 16];
    assert s[..16 * i + 16] == p + b;
    EncryptsInParts(e, iv, p, b);
    EncryptOne(e, NextIv(iv, Encrypt(e, iv, p)), b);
  }

  /** The block that ends behind `i` blocks, and what it is chained on. */
  function BlockBefore(c: seq<bv8>, i: nat): Block
    requires 0 < 16 * i <= |c|
  {
    c[16 * i - 16..16 * i]
  }

  function Previous(iv: Block, c: seq<bv8>, i: nat): Block
    requires 0 < 16 * i <= |c|
  {
    if i == 1 then iv else BlockBefore(c, i - 1)
  }

  /** The ciphertext from block `i` on, decrypted with what comes before it. */
  lemma DecryptTail(d: Cipher, iv: Block, c: seq<bv8>, i: nat)
    requires Whole(c) && 0 < 16 * i <= |c|
    ensures Whole(c[16 * i..]) && Whole(c[16 * i - 16..])
    ensures var b := BlockBefore(c, i);
      Decrypt(d, Previous(iv, c, i), c[16 * i - 16..]) == Xor(d(b), Previous(iv, c, i)) + Decrypt(d, b, c[16 * i..])
  {
    assert c[16 * i - 16..] == BlockBefore(c, i) + c[16 * i..];
    DecryptFirst(d, Previous(iv, c, i), BlockBefore(c, i), c[16 * i..]);
  }

  lemma SameBlock(a: seq<bv8>, b: seq<bv8>, i: nat, n: nat)
    requires 0 < 16 * i <= 16 * n <= |a| && 16 * n <= |b| && a[..16 * n] == b[..16 * n]
    ensures a[16 * i - 16..16 * i] == BlockBefore(b, i)
  {
    assert a[..16 * n][16 * i - 16..16 * i] == a[16 * i - 16..16 * i];
  }

  class RijndaelCbc {
    const encrypt: bool
    const e: Cipher
    const d: Cipher
    var iv: Block

    constructor (encrypt: bool, e: Cipher, d: Cipher, iv: Block)
      ensures this.encrypt == encrypt && this.e == e && this.d == d && this.iv == iv
    {
      this.encrypt, this.e, this.d, this.iv := encrypt, e, d, iv;
    }

    /** `ssh_rijndael_cbc`: only whole blocks are accepted. */
    method Crypt(dest: array<bv8>, src: array<bv8>, len: nat) returns (fatal: bool)
      requires len <= src.Length && len <= dest.Length
      modifies this`iv, dest
      ensures fatal == (len % 16 != 0)
      ensures fatal ==> dest[..] == old(dest[..]) && iv == old(iv)
      ensures !fatal ==> dest[len..] == old(dest[len..])
      ensures !fatal && encrypt ==>
        dest[..len] == Encrypt(e, old(iv), old(src[..len])) && iv == NextIv(old(iv), dest[..len])
      ensures !fatal && !encrypt ==>
        dest[..len] == Decrypt(d, old(iv), old(src[..len])) && iv == NextIv(old(iv), old(src[..len]))
    {
      if len == 0 {
        return false;
      }
      if len % 16 != 0 {
        return true;
      }
      assert src[..][..len] == src[..len];
      if encrypt {
        EncryptForward(dest, src, len);
      } else {
        DecryptBackward(dest, src, len);
      }
      assert dest[..][..len] == dest[..len] && dest[..][len..] == dest[len..];
      return false;
    }

    /** Encrypts block `i`, chained on the ciphertext before it. */
    method EncryptBlock(dest: array<bv8>, src: array<bv8>, i: nat, prev: Block, ghost s: seq<bv8>, ghost len: nat)
      returns (next: Block)
      requires 16 * i + 16 <= len <= src.Length && len <= dest.Length && |s| == len
      requires src[..][16 * i..len] == s[16 * i..]
      requires dest[..][..16 * i] == Encrypt(e, iv, s[..16 * i]) && prev == NextIv(iv, dest[..][..16 * i])
      modifies dest
      ensures dest[..][..16 * (i + 1)] == Encrypt(e, iv, s[..16 * (i + 1)])
      ensures next == NextIv(iv, dest[..][..16 * (i + 1)])
      ensures src[..][16 * (i + 1)..len] == s[16 * (i + 1)..] && dest[..][len..] == old(dest[..])[len..]
    {
      hide Encrypt, Xor, NextIv;
      EncryptLast(e, iv, s, i);
      FirstOfTail(src[..], s, i, len);
      ghost var before := dest[..];
      next := e(Xor(src[16 * i..16 * i + 16], prev));
      WriteBlock(dest, 16 * i, next);
      NextIvLast(iv, before[..16 * i], next);
      AfterWrite(before, dest[..], 16 * i, next, len);
      assert src[..][16 * i + 16..len] == s[16 * i + 16..];
    }

    method EncryptForward(dest: array<bv8>, src: array<bv8>, len: nat)
      requires 0 < len <= src.Length && len <= dest.Length && len % 16 == 0
      modifies this`iv, dest
      ensures dest[..][len..] == old(dest[..])[len..]
      ensures dest[..][..len] == Encrypt(e, old(iv), old(src[..])[..len]) && iv == NextIv(old(iv), dest[..][..len])
    {
      hide Encrypt, Xor, NextIv;
      ghost var s := src[..][..len];
      var blocks, prev := len / 16, iv;
      EncryptNone(e, iv);
      assert s[..0] == [] && dest[..][..0] == [];
      for i := 0 to blocks
        invariant iv == old(iv)
        invariant dest[..][..16 * i] == Encrypt(e, iv, s[..16 * i])
        invariant prev == NextIv(iv, dest[..][..16 * i])
        invariant src[..][16 * i..len] == s[16 * i..]
        invariant dest[..][len..] == old(dest[..])[len..]
      {
        prev := EncryptBlock(dest, src, i, prev, s, len);
      }
      assert s[..len] == s;
      iv := prev;
    }

    /** Decrypts the block that ends at `i` and adds the one before it, which is still ciphertext. */
    method DecryptBlock(dest: array<bv8>, src: array<bv8>, i: nat, ghost s: seq<bv8>)
      requires 0 < 16 * i <= src.Length && 16 * i <= dest.Length && 16 * i <= |s|
      requires src[..][..16 * i] == s[..16 * i]
      modifies dest
      ensures dest[..]
              == old(dest[..])[..16 * i - 16] + Xor(d(BlockBefore(s, i)), Previous(iv, s, i)) + old(dest[..])[16 * i..]
      ensures src[..][..16 * i - 16] == s[..16 * i - 16]
    {
      hide Xor;
      ghost var before, plain := dest[..], d(BlockBefore(s, i));
      SameBlock(src[..], s, i, i);
      WriteBlock(dest, 16 * i - 16, d(src[16 * i - 16..16 * i]));
      WrittenAt(before, dest[..], 16 * i - 16, plain);
      SameShorter(src[..], if src == dest then before else src[..], s, i);
      if i > 1 {
        SameBlock(src[..], s, i - 1, i - 1);
      }
      var ivp := if i == 1 then iv else src[16 * i - 32..16 * i - 16];
      ghost var decrypted := dest[..];
      XorInto(dest, 16 * i - 16, ivp);
      WrittenAt(decrypted, dest[..], 16 * i - 16, Xor(plain, ivp));
      SameShorter(src[..], if src == dest then decrypted else src[..], s, i);
    }

    /** Block by block from the end, so that a block is only overwritten when it is no longer needed. */
    method DecryptBackward(dest: array<bv8>, src: array<bv8>, len: nat)
      requires 0 < len <= src.Length && len <= dest.Length && len % 16 == 0
      modifies this`iv, dest
      ensures dest[..][len..] == old(dest[..])[len..]
      ensures dest[..][..len] == Decrypt(d, old(iv), old(src[..])[..len]) && iv == NextIv(old(iv), old(src[..])[..len])
    {
      hide Decrypt, Xor;
      ghost var s := src[..][..len];
      var buf := src[len - 16..len];
      var i := len / 16;
      while i > 0
        invariant 0 <= 16 * i <= len && iv == old(iv)
        invariant src[..][..16 * i] == s[..16 * i]
        invariant dest[..][16 * i..len] == Decrypt(d, if i == 0 then iv else BlockBefore(s, i), s[16 * i..])
        invariant dest[..][len..] == old(dest[..])[len..]
      {
        DecryptTail(d, iv, s, i);
        ghost var before := dest[..];
        DecryptBlock(dest, src, i, s);
        BeforeWrite(before, dest[..], 16 * i - 16, Xor(d(BlockBefore(s, i)), Previous(iv, s, i)), len);
        i := i - 1;
      }
      iv := buf;
    }
  }

  lemma FirstOfTail(a: seq<bv8>, s: seq<bv8>, i: nat, len: nat)
    requires 16 * i + 16 <= len <= |a| && |s| == len && a[16 * i..len] == s[16 * i..]
    ensures a[16 * i..16 * i + 16] == s[16 * i..16 * i + 16]
  {
    assert a[16 * i..len][..16] == a[16 * i..16 * i + 16];
  }

  lemma SameShorter(a: seq<bv8>, before: seq<bv8>, s: seq<bv8>, i: nat)
    requires 0 < 16 * i <= |a| && |a| == |before| && 16 * i <= |s|
    requires a[..16 * i - 16] == before[..16 * i - 16]
    ensures before[..16 * i] == s[..16 * i] || before[..16 * i - 16] == s[..16 * i - 16]
            ==> a[..16 * i - 16] == s[..16 * i - 16]
  {
    assert before[..16 * i][..16 * i - 16] == before[..16 * i - 16];
    assert s[..16 * i][..16 * i - 16] == s[..16 * i - 16];
  }

  lemma NextIvLast(iv: Block, before: seq<bv8>, last: Block)
    requires Whole(before)
    ensures Whole(before + last) && NextIv(iv, before + last) == last
  {
  }

  lemma AfterWrite(before: seq<bv8>, after: seq<bv8>, at: nat, b: Block, len: nat)
    requires at + 16 <= len <= |before| && after == before[..at] + b + before[at + 16..]
    ensures after[..at + 16] == before[..at] + b
    ensures after[at + 16..len] == before[at + 16..len] && after[len..] == before[len..]
  {
    assert after[at + 16..] == before[at + 16..];
  }

  lemma BeforeWrite(before: seq<bv8>, after: seq<bv8>, at: nat, b: Block, len: nat)
    requires at + 16 <= len <= |before| && after == before[..at] + b + before[at + 16..]
    ensures after[at..len] == b + before[at + 16..len] && after[..at] == before[..at] && after[len..] == before[len..]
  {
  }

  lemma WrittenAt(before: seq<bv8>, after: seq<bv8>, at: nat, b: Block)
    requires at + 16 <= |before| && after == before[..at] + b + before[at + 16..]
    ensures after[..at] == before[..at] && after[at..at + 16] == b && after[at + 16..] == before[at + 16..]
  {
  }
}
