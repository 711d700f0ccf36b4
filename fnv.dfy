/**
 * The 64-bit FNV-1a digest that the table hashes its string keys with
 * (`fnvHash`, hashtable.go). A Go string is a sequence of bytes, so a key
 * is modelled as `seq<bv8>`; the 64-bit state wraps, which `bv64`
 * arithmetic does by definition.
 */
module Fnv {

  /** The bytes of a Go string key. */
  type Key = seq<bv8>

  /** FNV-1a 64-bit offset basis, 14695981039346656037. */
  const OffsetBasis: bv64 := 0xcbf2_9ce4_8422_2325

  /** One round: xor the byte in, then multiply by the FNV 64-bit prime modulo 2^64. */
  function Step(hash: bv64, b: bv8): bv64
  {
    (hash ^ (b as bv64)) * 1099511628211
  }

  /** Folds `Step` over `bytes` from the front, starting from `hash`. */
  function Fold(hash: bv64, bytes: seq<bv8>): bv64
    decreases |bytes|
  {
    if bytes == [] then hash else Fold(Step(hash, bytes[0]), bytes[1..])
  }

  /** The digest of a whole key. */
  function Fnv1a(key: Key): bv64
  {
    Fold(OffsetBasis, key)
  }

  /** Folding over `bytes + [b]` is one more round after folding over `bytes`. */
  lemma {:induction false} FoldAppend(hash: bv64, bytes: seq<bv8>, b: bv8)
    ensures Fold(hash, bytes + [b]) == Step(Fold(hash, bytes), b)
    decreases |bytes|
  {
    if bytes == [] {
      assert [] + [b] == [b];
      assert [b][1..] == [];
    } else {
      assert (bytes + [b])[0] == bytes[0];
      assert (bytes + [b])[1..] == bytes[1..] + [b];
      FoldAppend(Step(hash, bytes[0]), bytes[1..], b);
    }
  }

  /** Folding over a concatenation folds the second part from the first part's digest. */
  lemma {:induction false} FoldConcat(hash: bv64, xs: seq<bv8>, ys: seq<bv8>)
    ensures Fold(hash, xs + ys) == Fold(Fold(hash, xs), ys)
    decreases |xs|
  {
    if xs == [] {
      assert [] + ys == ys;
    } else {
      assert (xs + ys)[0] == xs[0];
      assert (xs + ys)[1..] == xs[1..] + ys;
      FoldConcat(Step(hash, xs[0]), xs[1..], ys);
    }
  }

  /**
   * The digest of the empty key is the offset basis, and appending a byte `b`
   * to a key maps its digest `h` to `Step(h, b)`, that is `((h xor b) * 1099511628211) mod 2^64`.
   */
  lemma Fnv1aAppend(key: Key, b: bv8)
    ensures Fnv1a([]) == 14695981039346656037
    ensures Fnv1a(key + [b]) == Step(Fnv1a(key), b)
  {
    FoldAppend(OffsetBasis, key, b);
  }

  /** Published FNV-1a 64 test vectors: "a" and "foobar". */
  lemma Fnv1aVectors()
    ensures Fnv1a([0x61]) == 0xaf63_dc4c_8601_ec8c
    ensures Fnv1a([0x66, 0x6f, 0x6f, 0x62, 0x61, 0x72]) == 0x8594_4171_f739_67e8
  {
    var foobar: seq<bv8> := [0x66, 0x6f, 0x6f, 0x62, 0x61, 0x72];
    assert foobar == [0x66] + [0x6f] + [0x6f] + [0x62] + [0x61] + [0x72];
    FoldConcat(OffsetBasis, [0x66, 0x6f, 0x6f], [0x62, 0x61, 0x72]);
  }

  /** The loop of `fnvHash`: one round per byte of the key, in order. */
  method FnvHash(key: Key) returns (hash: bv64)
    ensures hash == Fnv1a(key)
  {
    hash := OffsetBasis;
    for i := 0 to |key|
      invariant hash == Fnv1a(key[..i])
    {
      FoldAppend(OffsetBasis, key[..i], key[i]);
      assert key[..i + 1] == key[..i] + [key[i]];
      hash := Step(hash, key[i]);
    }
    assert key[..|key|] == key;
  }
}
