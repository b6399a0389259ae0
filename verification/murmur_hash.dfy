/**
 * The integer finalisers of MurmurHash3 that the hash table uses to pick the
 * first slot of a probe: `fmix32` for the 32-bit table and `fmix64` for the
 * 64-bit table. All arithmetic wraps modulo 2^32 or 2^64, which the
 * bit-vector types make explicit.
 */
module MurmurHash {

  /** Key and value width of a hash table: the 32-bit or the 64-bit variant. */
  datatype Width = W32 | W64

  /** Number of distinct machine words of the given width. */
  function Modulus(w: Width): nat
  {
    match w
    case W32 => 0x1_0000_0000
    case W64 => 0x1_0000_0000_0000_0000
  }

  /** `x` fits the unsigned integer type of the given width. */
  predicate IsWord(w: Width, x: nat)
  {
    x < Modulus(w)
  }

  /** MurmurHash3 `fmix32`: xor-shift 16, multiply, xor-shift 13, multiply, xor-shift 16. */
  function Fmix32(key: bv32): bv32
  {
    var k1 := key ^ (key >> 16);
    var k2 := k1 * 0x85ebca6b;
    var k3 := k2 ^ (k2 >> 13);
    var k4 := k3 * 0xc2b2ae35;
    k4 ^ (k4 >> 16)
  }

  /** MurmurHash3 `fmix64`: xor-shift 33, multiply, xor-shift 33, multiply, xor-shift 33. */
  function Fmix64(key: bv64): bv64
  {
    var k1 := key ^ (key >> 33);
    var k2 := k1 * 0xff51afd7ed558ccd;
    var k3 := k2 ^ (k2 >> 33);
    var k4 := k3 * 0xc4ceb9fe1a85ec53;
    k4 ^ (k4 >> 33)
  }

  /** The hash of a key of the table's width; total on every word and again a word. */
  function Hash(w: Width, key: nat): (h: nat)
    requires IsWord(w, key)
    ensures IsWord(w, h)
  {
    match w
    case W32 => Fmix32(key as bv32) as nat
    case W64 => Fmix64(key as bv64) as nat
  }

  /** Key 0, the empty-slot marker, hashes to 0 at both widths. */
  lemma HashOfZero(w: Width)
    ensures Hash(w, 0) == 0
  {
  }

  /** Reference values of the MurmurHash3 finalisers, fixing the constants and shift amounts. */
  lemma HashKnownAnswers()
    ensures Hash(W32, 1) == 0x514e28b7
    ensures Hash(W32, 42) == 0x087fcd5c
    ensures Hash(W32, 0xffff_ffff) == 0x81f16f39
    ensures Hash(W64, 1) == 0xb456bcfc34c2cb2c
    ensures Hash(W64, 42) == 0x810879608e4259cc
    ensures Hash(W64, 0xffff_ffff) == 0xcc71ecda2aa8bcc6
  {
  }
}
