/**
 Fixed-width integers and byte orders of the DGUS driver.

 The driver runs on a little-endian host: a value of width `n` is stored in
 memory as `LittleEndian(v, n)`. The serial protocol wants the most significant
 byte first, `BigEndian(v, n)`. The two are related by `Reverse`.
 */
module Bytes {

  type byte = x: int | 0 <= x < 0x100
  /** C's `uint8_t`: the same values as a byte. */
  type uint8 = byte
  type uint16 = x: int | 0 <= x < 0x1_0000
  type uint32 = x: int | 0 <= x < 0x1_0000_0000
  type uint64 = x: int | 0 <= x < 0x1_0000_0000_0000_0000
  type int16 = x: int | -0x8000 <= x < 0x8000
  type int32 = x: int | -0x8000_0000 <= x < 0x8000_0000
  type int64 = x: int | -0x8000_0000_0000_0000 <= x < 0x8000_0000_0000_0000

  /** Raw IEEE-754 bit patterns, as the bytes of a `float` / `double` in host memory. */
  type Float32Bits = s: seq<byte> | |s| == 4 witness [0, 0, 0, 0]
  type Float64Bits = s: seq<byte> | |s| == 8 witness [0, 0, 0, 0, 0, 0, 0, 0]

  /** 256^n: the number of values an n-byte integer can hold. */
  function Pow256(n: nat): (p: nat)
    ensures p > 0
  {
    if n == 0 then 1 else 0x100 * Pow256(n - 1)
  }

  /** The bytes of an n-byte unsigned value as a little-endian host stores them. */
  function LittleEndian(v: nat, n: nat): (s: seq<byte>)
    requires v < Pow256(n)
    ensures |s| == n
  {
    if n == 0 then [] else [v % 0x100] + LittleEndian(v / 0x100, n - 1)
  }

  /** The bytes of an n-byte unsigned value, most significant byte first. */
  function BigEndian(v: nat, n: nat): (s: seq<byte>)
    requires v < Pow256(n)
    ensures |s| == n
  {
    if n == 0 then [] else BigEndian(v / 0x100, n - 1) + [v % 0x100]
  }

  /** The value a little-endian host reads from the bytes `s`. */
  function FromLittleEndian(s: seq<byte>): (v: nat)
    ensures v < Pow256(|s|)
  {
    if |s| == 0 then 0 else s[0] + 0x100 * FromLittleEndian(s[1..])
  }

  /** The value the bytes `s` denote when read most significant byte first. */
  function FromBigEndian(s: seq<byte>): (v: nat)
    ensures v < Pow256(|s|)
  {
    if |s| == 0 then 0 else 0x100 * FromBigEndian(s[..|s| - 1]) + s[|s| - 1]
  }

  /** The sequence read back to front. */
  function Reverse<T>(s: seq<T>): (r: seq<T>)
    ensures |r| == |s|
    ensures forall i :: 0 <= i < |s| ==> r[i] == s[|s| - 1 - i]
  {
    if |s| == 0 then [] else Reverse(s[1..]) + [s[0]]
  }

  /** Reading back to front twice gives the sequence back. */
  lemma ReverseInvolutive<T>(s: seq<T>)
    ensures Reverse(Reverse(s)) == s
  {
  }

  /** Reading back the bytes a little-endian host stored recovers the value. */
  lemma {:induction false} LittleEndianRoundTrip(v: nat, n: nat)
    requires v < Pow256(n)
    ensures FromLittleEndian(LittleEndian(v, n)) == v
  {
    if n > 0 {
      var s := LittleEndian(v, n);
      assert s[1..] == LittleEndian(v / 0x100, n - 1);
      LittleEndianRoundTrip(v / 0x100, n - 1);
    }
  }

  /** Every byte sequence is the little-endian storage of the value it denotes. */
  lemma {:induction false} LittleEndianOfBytes(s: seq<byte>)
    ensures LittleEndian(FromLittleEndian(s), |s|) == s
  {
    if |s| > 0 {
      var v := FromLittleEndian(s);
      assert v % 0x100 == s[0] && v / 0x100 == FromLittleEndian(s[1..]);
      LittleEndianOfBytes(s[1..]);
    }
  }

  /** Reading the big-endian bytes of a value most significant byte first recovers it. */
  lemma {:induction false} BigEndianRoundTrip(v: nat, n: nat)
    requires v < Pow256(n)
    ensures FromBigEndian(BigEndian(v, n)) == v
  {
    if n > 0 {
      var s := BigEndian(v, n);
      assert s[..n - 1] == BigEndian(v / 0x100, n - 1);
      BigEndianRoundTrip(v / 0x100, n - 1);
    }
  }

  /** Every byte sequence is the big-endian encoding of the value it denotes. */
  lemma {:induction false} BigEndianOfBytes(s: seq<byte>)
    ensures BigEndian(FromBigEndian(s), |s|) == s
  {
    if |s| > 0 {
      var v := FromBigEndian(s);
      var init := s[..|s| - 1];
      assert v % 0x100 == s[|s| - 1] && v / 0x100 == FromBigEndian(init);
      BigEndianOfBytes(init);
      assert s == init + [s[|s| - 1]];
    }
  }

  /**
   The byte swap the driver performs: reversing the host's little-endian storage
   of a value yields exactly its big-endian (MSB-first) encoding.
   */
  lemma {:induction false} ReversedLittleIsBig(v: nat, n: nat)
    requires v < Pow256(n)
    ensures Reverse(LittleEndian(v, n)) == BigEndian(v, n)
  {
    if n > 0 {
      var s := LittleEndian(v, n);
      assert s[1..] == LittleEndian(v / 0x100, n - 1);
      ReversedLittleIsBig(v / 0x100, n - 1);
    }
  }

  /**
   C's conversion of a signed value to an n-byte unsigned parameter: the
   modulus 256^n is added until the value is in range, so a negative value
   becomes its two's-complement pattern and a non-negative one is kept.
   */
  function ToUnsigned(v: int, n: nat): (u: nat)
    requires -(Pow256(n) as int) <= v < Pow256(n)
    ensures u < Pow256(n)
    ensures u == v || u == v + Pow256(n)
  {
    if v < 0 then v + Pow256(n) else v
  }

  /** Reading an n-byte two's-complement pattern as a signed value. */
  function ToSigned(u: nat, n: nat): (v: int)
    requires u < Pow256(n)
    ensures n > 0 ==> -(Pow256(n) / 2) <= v < Pow256(n) / 2
    ensures -(Pow256(n) as int) <= v < Pow256(n) && ToUnsigned(v, n) == u
  {
    if n > 0 then
      var half := 0x80 * Pow256(n - 1);
      assert Pow256(n) / 2 == half;
      if u < half then u else u - 2 * half
    else u
  }

  /** Two's complement loses nothing for values in the signed range. */
  lemma SignedRoundTrip(v: int, n: nat)
    requires -(Pow256(n) / 2) <= v < Pow256(n) / 2
    ensures ToSigned(ToUnsigned(v, n), n) == v
  {
  }
}
