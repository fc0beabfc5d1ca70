/** Octets and cipher blocks, with the block cipher itself kept abstract. */
module CipherBlocks {

  type Block = b: seq<bv8> | |b| == 16 witness seq(16, i => 0)

  /** A block cipher under one key: a function on blocks. */
  type Cipher = Block -> Block

  /** Decryption undoes encryption. */
  ghost predicate Inverse(decrypt: Cipher, encrypt: Cipher) { forall b :: decrypt(encrypt(b)) == b }

  function Xor(a: Block, b: Block): (r: Block)
    ensures forall i :: 0 <= i < 16 ==> r[i] == a[i] ^ b[i]
  {
    seq(16, i requires 0 <= i < 16 => a[i] ^ b[i])
  }

  lemma XorTwice(a: Block, b: Block)
    ensures Xor(Xor(a, b), b) == a
  {
    forall i | 0 <= i < 16 ensures Xor(Xor(a, b), b)[i] == a[i] {
      OctetTwice(a[i], b[i]);
    }
  }

  lemma OctetTwice(a: bv8, b: bv8)
    ensures (a ^ b) ^ b == a
  {
  }

  /** Writes a block into an array. */
  method WriteBlock(dest: array<bv8>, at: nat, block: Block)
    requires at + 16 <= dest.Length
    modifies dest
    ensures dest[..] == old(dest[..])[..at] + block + old(dest[..])[at + 16..]
  {
    forall j | 0 <= j < 16 {
      dest[at + j] := block[j];
    }
  }

  /** Adds a block into an array, octet by octet. */
  method XorInto(dest: array<bv8>, at: nat, block: Block)
    requires at + 16 <= dest.Length
    modifies dest
    ensures dest[..] == old(dest[..])[..at] + Xor(old(dest[..])[at..at + 16], block) + old(dest[..])[at + 16..]
  {
    for j := 0 to 16
      invariant forall k :: 0 <= k < dest.Length ==>
        dest[k] == if at <= k < at + j then old(dest[k]) ^ block[k - at] else old(dest[k])
    {
      dest[at + j] := dest[at + j] ^ block[j];
    }
  }
}
