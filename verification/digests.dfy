/** MD5 as the generator sees it: an opaque map from byte strings to
    16-byte digests, passed around as a function value (MD5 itself is not
    modelled), its hex text as `hexdigest()` prints it, and the one property
    of MD5 collisions the hashquine needs, stated as an assumption. */
module Digests {
  import opened Bytes

  /** A 128-bit MD5 digest. */
  type Digest = d: seq<byte> | |d| == 16 witness [0, 0, 0, 0, 0, 0, 0, 0, 0, 0, 0, 0, 0, 0, 0, 0]

  /** The hash function, given from outside. */
  type Hash = seq<byte> -> Digest

  const HEX_DIGITS: string := "0123456789abcdef"

  predicate IsHexChar(c: char) {
    '0' <= c <= '9' || 'a' <= c <= 'f'
  }

  function HexChar(n: nat): (c: char)
    requires n < 16
    ensures IsHexChar(c)
  {
    HEX_DIGITS[n]
  }

  /** The i-th hex digit of `bytes`, high nibble first. */
  function Nibble(bytes: seq<byte>, i: nat): (n: nat)
    requires i < 2 * |bytes|
    ensures n < 16
  {
    if i % 2 == 0 then bytes[i / 2] as nat / 16 else bytes[i / 2] as nat % 16
  }

  /** `hexdigest()`: two lower-case hex digits per byte, high nibble first. */
  function Hex(bytes: seq<byte>): (h: string)
    ensures |h| == 2 * |bytes|
    ensures forall i :: 0 <= i < |h| ==> h[i] == HexChar(Nibble(bytes, i))
  {
    if |bytes| == 0 then []
    else
      var h := [HexChar(bytes[0] as nat / 16), HexChar(bytes[0] as nat % 16)] + Hex(bytes[1..]);
      assert forall i :: 2 <= i < |h| ==> Nibble(bytes, i) == Nibble(bytes[1..], i - 2) by {
        forall i | 2 <= i < |h| ensures Nibble(bytes, i) == Nibble(bytes[1..], i - 2) {
          assert bytes[i / 2] == bytes[1..][(i - 2) / 2];
        }
      }
      h
  }

  /** `int(c, 16)` on a lower-case hex digit. */
  function HexValue(c: char): (v: nat)
    requires IsHexChar(c)
    ensures v < 16 && HexChar(v) == c
  {
    if c <= '9' then c as nat - '0' as nat else c as nat - 'a' as nat + 10
  }

  /** Reading back a printed hex digit gives the digit. */
  lemma HexValueOfHexChar(n: nat)
    requires n < 16
    ensures IsHexChar(HexChar(n)) && HexValue(HexChar(n)) == n
  {
    assert HexChar(n) == HEX_DIGITS[n];
  }

  /** Hex text is lossless: the two digits of a byte rebuild it. */
  lemma HexRebuildsBytes(bytes: seq<byte>, j: nat)
    requires j < |bytes|
    ensures 16 * HexValue(Hex(bytes)[2 * j]) + HexValue(Hex(bytes)[2 * j + 1]) == bytes[j] as nat
  {
    var b := bytes[j] as nat;
    NibblesOfByte(bytes, j);
    HexValueOfHexChar(b / 16);
    HexValueOfHexChar(b % 16);
  }

  /** Digits 2j and 2j+1 are the high and low halves of byte j. */
  lemma NibblesOfByte(bytes: seq<byte>, j: nat)
    requires j < |bytes|
    ensures Nibble(bytes, 2 * j) == bytes[j] as nat / 16
    ensures Nibble(bytes, 2 * j + 1) == bytes[j] as nat % 16
  {
    assert (2 * j) % 2 == 0 && (2 * j) / 2 == j;
    assert (2 * j + 1) % 2 == 1 && (2 * j + 1) / 2 == j;
  }

  /** The mask check of the brute force: every non-space mask character is
      the digest's hex digit at that position. */
  predicate Matches(mask: string, d: Digest)
    requires |mask| == 32
  {
    forall i :: 0 <= i < 32 ==> mask[i] == ' ' || mask[i] == Hex(d)[i]
  }

  /** A mask character that is neither a space nor a lower-case hex digit
      can never be matched. */
  lemma UnmatchableMask(mask: string, i: nat, d: Digest)
    requires |mask| == 32 && i < 32
    requires mask[i] != ' ' && !IsHexChar(mask[i])
    ensures !Matches(mask, d)
  {
    var h := Hex(d);
    assert h[i] == HEX_DIGITS[Nibble(d, i)];
  }

  /** x and y leave MD5 in the same chaining state: whatever follows, the
      digests agree. */
  ghost predicate SameState(md5: Hash, x: seq<byte>, y: seq<byte>) {
    forall suffix {:trigger Then(x, suffix)} :: md5(Then(x, suffix)) == md5(Then(y, suffix))
  }

  /** `x` followed by `suffix`; named so that the quantifier of `SameState`
      is only instantiated where a proof asks for it. */
  function Then(x: seq<byte>, suffix: seq<byte>): (s: seq<byte>)
    ensures |s| == |x| + |suffix|
  {
    x + suffix
  }

  /** ASSUMPTION, not proved anywhere: two 128-byte blocks that give the same
      digest after the same 64-byte-aligned prefix leave MD5 in the same
      chaining state. This is what fastcoll's blocks deliver (they collide in
      the internal state, so their digests agree after any common suffix);
      the generator only checks the digests. Every result that depends on it
      takes it as a hypothesis. */
  ghost predicate CollisionsChain(md5: Hash) {
    forall p: seq<byte>, a: seq<byte>, b: seq<byte> {:trigger SameState(md5, p + a, p + b)} ::
      |p| % 64 == 0 && |a| == 128 && |b| == 128 && md5(p + a) == md5(p + b) ==> SameState(md5, p + a, p + b)
  }

  lemma UseCollisionsChain(md5: Hash, p: seq<byte>, a: seq<byte>, b: seq<byte>)
    requires CollisionsChain(md5)
    requires |p| % 64 == 0 && |a| == 128 && |b| == 128 && md5(p + a) == md5(p + b)
    ensures SameState(md5, p + a, p + b)
  {
  }

  /** Same-state prefixes stay in the same state when extended alike. */
  lemma SameStateExtend(md5: Hash, x: seq<byte>, y: seq<byte>, t: seq<byte>)
    requires SameState(md5, x, y)
    ensures SameState(md5, x + t, y + t)
  {
    forall suffix ensures md5(Then(x + t, suffix)) == md5(Then(y + t, suffix)) {
      assert Then(x + t, suffix) == Then(x, t + suffix);
      assert Then(y + t, suffix) == Then(y, t + suffix);
    }
  }

  lemma SameStateRefl(md5: Hash, x: seq<byte>)
    ensures SameState(md5, x, x)
  {
  }

  lemma SameStateTrans(md5: Hash, x: seq<byte>, y: seq<byte>, z: seq<byte>)
    requires SameState(md5, x, y) && SameState(md5, y, z)
    ensures SameState(md5, x, z)
  {
  }

  /** Same state implies same digest (take the empty suffix). */
  lemma SameStateDigest(md5: Hash, x: seq<byte>, y: seq<byte>)
    requires SameState(md5, x, y)
    ensures md5(x) == md5(y)
  {
    assert Then(x, []) == x && Then(y, []) == y;
  }
}
