/**
 * Type identities and the pass-through hasher that the store's hash table
 * uses for them (src/lib.rs:484-511).
 *
 * A type identity is a fixed-width 64-bit token. Hashing one writes its
 * eight bytes into a fresh `TypeIdHasher`, which simply decodes them back
 * into the hash value. The platform's native byte order is fixed here to
 * little-endian.
 */
module TypeIds {

  newtype u8 = x: int | 0 <= x < 0x100
  newtype u64 = x: int | 0 <= x < 0x1_0000_0000_0000_0000

  /** The identity of one concrete type. */
  type TypeKey = u64

  /** 256 raised to the power `n`: the number of values `n` bytes can hold. */
  function Pow256(n: nat): (p: nat)
    ensures p > 0
  {
    if n == 0 then 1 else 256 * Pow256(n - 1)
  }

  lemma Pow256Of8()
    ensures Pow256(8) == 0x1_0000_0000_0000_0000
  {
  }

  /** The number that the bytes `b` denote, least significant byte first. */
  function LeValue(b: seq<u8>): (n: nat)
    ensures n < Pow256(|b|)
  {
    if b == [] then 0 else b[0] as nat + 256 * LeValue(b[1..])
  }

  /** The `n` least significant bytes of `x`, least significant byte first. */
  function LeBytes(x: nat, n: nat): (b: seq<u8>)
    ensures |b| == n
  {
    if n == 0 then [] else [(x % 256) as u8] + LeBytes(x / 256, n - 1)
  }

  /** Encoding a number that fits in `n` bytes and decoding it gives it back. */
  lemma {:induction false} LeValueOfBytes(x: nat, n: nat)
    requires x < Pow256(n)
    ensures LeValue(LeBytes(x, n)) == x
  {
    if n > 0 {
      LeValueOfBytes(x / 256, n - 1);
      assert LeBytes(x, n)[1..] == LeBytes(x / 256, n - 1);
    }
  }

  /** Decoding bytes and encoding the number at the same width gives them back. */
  lemma {:induction false} LeBytesOfValue(b: seq<u8>)
    ensures LeBytes(LeValue(b), |b|) == b
  {
    if b != [] {
      var rest := LeValue(b[1..]);
      assert LeValue(b) % 256 == b[0] as nat && LeValue(b) / 256 == rest;
      LeBytesOfValue(b[1..]);
    }
  }

  /** `u64::from_ne_bytes` on an eight-byte array, with little-endian order. */
  function FromLeBytes(b: seq<u8>): (x: u64)
    requires |b| == 8
    ensures LeBytes(x as nat, 8) == b
  {
    Pow256Of8();
    LeBytesOfValue(b);
    LeValue(b) as u64
  }

  /** `u64::to_ne_bytes`, with little-endian order. */
  function ToLeBytes(x: u64): (b: seq<u8>)
    ensures |b| == 8 && FromLeBytes(b) == x
  {
    Pow256Of8();
    LeValueOfBytes(x as nat, 8);
    LeBytes(x as nat, 8)
  }

  /**
   * The hasher of the store's table. It expects exactly one eight-byte write
   * per hash and keeps those bytes, decoded, as its state.
   */
  class TypeIdHasher {
    var value: u64

    /** The derived `Default`: the state starts at zero. */
    constructor ()
      ensures value == 0
    {
      value := 0;
    }

    /**
     * An eight-byte write replaces the state by the decoded bytes; a write of
     * any other length leaves the state as it was (the optimised build; a
     * validating build stops on its assertion instead).
     */
    method Write(bytes: seq<u8>)
      modifies this
      ensures value == if |bytes| == 8 then FromLeBytes(bytes) else old(value)
    {
      if |bytes| == 8 {
        value := FromLeBytes(bytes);
      }
    }

    /** `finish`: the hash is the state the last eight-byte write left, or 0. */
    function Finish(): (h: u64)
      reads this
      ensures h == value
    {
      value
    }
  }

  /**
   * What the table computes for a key hashed with one write: a default
   * hasher, the write, then `finish`. Eight bytes come back decoded; any
   * other input hashes to zero.
   */
  method HashOneWrite(bytes: seq<u8>) returns (h: u64)
    ensures |bytes| == 8 ==> h == FromLeBytes(bytes) && ToLeBytes(h) == bytes
    ensures |bytes| != 8 ==> h == 0
  {
    var hasher := new TypeIdHasher();
    hasher.Write(bytes);
    h := hasher.Finish();
  }

  /**
   * Hashing a type identity (its eight bytes written once) yields the
   * identity itself, so distinct identities never share a hash.
   */
  method HashTypeKey(t: TypeKey) returns (h: u64)
    ensures h == t
  {
    h := HashOneWrite(ToLeBytes(t));
  }
}
