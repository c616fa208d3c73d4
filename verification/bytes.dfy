/** Byte-level helpers: zero filler, the little-endian integer packing used
    by Python's `struct` module ('<H' and '<I'), and ASCII text as bytes. */
module Bytes {

  /** An octet of a Python `bytes` value. */
  newtype byte = x: int | 0 <= x < 256

  /** `b'\x00' * n` */
  function Zeros(n: nat): (z: seq<byte>)
    ensures |z| == n
    ensures forall i :: 0 <= i < n ==> z[i] == 0
  {
    seq(n, _ => 0)
  }

  /** `struct.pack('<H', x)`; the caller must keep x in 0..65535, as `struct`
      raises otherwise. */
  function PackU16(x: nat): (b: seq<byte>)
    requires x < 0x1_0000
    ensures |b| == 2
  {
    [(x % 256) as byte, (x / 256) as byte]
  }

  /** `struct.unpack('<H', s[i:i+2])[0]` */
  function UnpackU16(s: seq<byte>, i: nat): (x: nat)
    requires i + 2 <= |s|
    ensures x < 0x1_0000
  {
    s[i] as nat + 256 * s[i + 1] as nat
  }

  /** `struct.pack('<I', x)` for x in 0..2^32-1. */
  function PackU32(x: nat): (b: seq<byte>)
    requires x < 0x1_0000_0000
    ensures |b| == 4
  {
    [(x % 256) as byte, (x / 256 % 256) as byte, (x / 0x1_0000 % 256) as byte, (x / 0x100_0000) as byte]
  }

  /** `struct.unpack('<I', s[i:i+4])[0]` */
  function UnpackU32(s: seq<byte>, i: nat): (x: nat)
    requires i + 4 <= |s|
  {
    s[i] as nat + 256 * s[i + 1] as nat + 0x1_0000 * s[i + 2] as nat + 0x100_0000 * s[i + 3] as nat
  }

  lemma DivMod256(x: nat)
    ensures x == x % 256 + 256 * (x / 256)
  {
  }

  /** Unpacking a packed 16-bit value gives it back, wherever it sits. */
  lemma UnpackPackU16(x: nat, pre: seq<byte>, post: seq<byte>)
    requires x < 0x1_0000
    ensures UnpackU16(pre + PackU16(x) + post, |pre|) == x
  {
    var s := pre + PackU16(x) + post;
    var lo, hi := x % 256, x / 256;
    DivMod256(x);
    assert s[|pre|] == lo as byte && s[|pre| + 1] == hi as byte;
  }

  /** Unpacking a packed 32-bit value gives it back. */
  lemma UnpackPackU32(x: nat)
    requires x < 0x1_0000_0000
    ensures UnpackU32(PackU32(x), 0) == x
  {
    var b := PackU32(x);
    var q1, q2, q3 := x / 256, x / 0x1_0000, x / 0x100_0000;
    DivMod256(x);
    DivMod256(q1);
    DivMod256(q2);
    assert q1 / 256 == q2 && q2 / 256 == q3;
  }

  /** Packing is injective: distinct counters give distinct byte strings. */
  lemma PackU32Injective(x: nat, y: nat)
    requires x < 0x1_0000_0000 && y < 0x1_0000_0000
    requires PackU32(x) == PackU32(y)
    ensures x == y
  {
    UnpackPackU32(x);
    UnpackPackU32(y);
  }

  /** A Python bytes literal: each character of an ASCII text as one byte. */
  function Ascii(text: string): (b: seq<byte>)
    ensures |b| == |text|
  {
    seq(|text|, i requires 0 <= i < |text| => (text[i] as int % 256) as byte)
  }
}
