/**
 Keys and the 64-bit FNV-1a hash of hashtable.c (`fnv1a_hash`), and the
 reduction of a hash to a bucket index.

 A key is a C string: the bytes before its terminating NUL, none of which is
 NUL. The C code reads each byte through a plain `char` and converts it to
 `size_t`; this model fixes `char` as signed (as on x86-64), so a byte of
 0x80 or above is sign-extended to 64 bits before it is XORed in.
 */
module Fnv {

  type byte = bv8

  predicate NoNul(s: seq<byte>)
  {
    forall i :: 0 <= i < |s| ==> s[i] != 0
  }

  /** The bytes of a C string, without its terminator. */
  type Key = s: seq<byte> | NoNul(s)

  /** The 64-bit FNV offset basis, 14695981039346656037. */
  const OffsetBasis: bv64 := 0xcbf2_9ce4_8422_2325

  /** The 64-bit FNV prime, 1099511628211. */
  const Prime: bv64 := 0x100_0000_01b3

  /** The conversion `(size_t)(*key)` through a signed `char`: a byte below
      0x80 keeps its value, a byte at or above it denotes `b - 256`, which
      modulo 2^64 is `b + 2^64 - 256`. */
  function Widen(b: byte): (w: bv64)
    ensures w as int == if b < 0x80 then b as int else b as int + 0xFFFF_FFFF_FFFF_FF00
  {
    if b < 0x80 then b as bv64 else b as bv64 | 0xFFFF_FFFF_FFFF_FF00
  }

  /** One round of the loop: XOR the byte in, then multiply by the prime
      modulo 2^64 (bv64 multiplication wraps as `size_t` does). */
  function Step(h: bv64, b: byte): bv64
  {
    (h ^ Widen(b)) * Prime
  }

  /** The left fold of `Step` over `s`, starting from `h`. */
  function Fold(h: bv64, s: seq<byte>): bv64
    decreases |s|
  {
    if |s| == 0 then h else Fold(Step(h, s[0]), s[1..])
  }

  /** FNV-1a of a byte string. */
  function Fnv1a(s: seq<byte>): bv64
  {
    Fold(OffsetBasis, s)
  }

  /** `fnv1a_hash`: the C loop, which walks the key up to its terminator. */
  method Fnv1aHash(key: Key) returns (hash: bv64)
    ensures hash == Fnv1a(key)
  {
    hash := OffsetBasis;
    var i := 0;
    while i < |key|
      invariant i <= |key|
      invariant Fold(hash, key[i..]) == Fnv1a(key)
    {
      hash := Step(hash, key[i]);
      i := i + 1;
    }
  }

  /** Folding over a concatenation folds over the first part, then the
      second. */
  lemma {:induction false} FoldAppend(h: bv64, a: seq<byte>, b: seq<byte>)
    ensures Fold(h, a + b) == Fold(Fold(h, a), b)
    decreases |a|
  {
    if |a| == 0 {
      assert a + b == b;
    } else {
      assert (a + b)[1..] == a[1..] + b;
      FoldAppend(Step(h, a[0]), a[1..], b);
    }
  }

  /** FNV-1a is a left fold: the hash of `s` followed by one more byte is
      one more `Step` applied to the hash of `s`. */
  lemma Fnv1aSnoc(s: seq<byte>, b: byte)
    ensures Fnv1a(s + [b]) == Step(Fnv1a(s), b)
  {
    FoldAppend(OffsetBasis, s, [b]);
    assert Fold(Fnv1a(s), [b]) == Fold(Step(Fnv1a(s), b), []);
  }

  /** The published FNV-1a 64-bit values for "" and "a". */
  lemma Fnv1aKnownValues()
    ensures Fnv1a([]) == 0xcbf2_9ce4_8422_2325
    ensures Fnv1a([0x61]) == 0xaf63_dc4c_8601_ec8c
  {
    assert Fnv1a([0x61]) == Fold(Step(OffsetBasis, 0x61), []);
  }

  /** The bucket a key belongs to in a table of `size` buckets:
      `fnv1a_hash(key) % size`. */
  function BucketIndex(key: Key, size: nat): (i: nat)
    requires size > 0
    ensures i < size
  {
    (Fnv1a(key) as int) % size
  }
}
