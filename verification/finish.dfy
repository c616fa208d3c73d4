/** The end of the generator: a brute force over a 32-bit comment payload
    until the digest of the file matches the mask, then the substitution
    that swaps in, for every blank position of the mask, the visible block
    spelling out the digest's hex digit there. */
module Finish {
  import opened Wrappers
  import opened Bytes
  import opened SubBlocks
  import opened Digests
  import opened Collide
  import opened Keys
  import opened Stream

  /** `range(1 << 32)`: the brute force's counters. */
  const GARBAGE_BOUND: nat := 0x1_0000_0000

  /** `struct.pack('<BIBB', 4, garbage, 0, 0x3b)`: a 4-byte comment
      sub-block holding the counter, the Block Terminator that closes the
      big comment, the GIF Trailer. */
  function EndBytes(garbage: nat): (e: seq<byte>)
    requires garbage < GARBAGE_BOUND
    ensures |e| == 7
  {
    [4] + PackU32(garbage) + [0, 0x3b]
  }

  /** The end bytes close a comment: one sub-block carrying the counter
      (which reads back as the counter), a terminator, then the trailer. */
  lemma EndBytesCloseComment(garbage: nat)
    requires garbage < GARBAGE_BOUND
    ensures var e := EndBytes(garbage);
            && Chain(e[..5]) && UnpackU32(e, 1) == garbage
            && e[5] == 0 && e[6] == Template.TRAILER
  {
    var e := EndBytes(garbage);
    OneSubBlock(4, PackU32(garbage));
    assert e[..5] == [4] + PackU32(garbage);
    assert e[1..5] == PackU32(garbage);
    UnpackPackU32(garbage);
  }

  /** Distinct counters give distinct end bytes, so the brute force really
      tries 2^32 different files. */
  lemma EndBytesInjective(g: nat, h: nat)
    requires g < GARBAGE_BOUND && h < GARBAGE_BOUND && EndBytes(g) == EndBytes(h)
    ensures g == h
  {
    assert EndBytes(g)[1..5] == PackU32(g);
    assert EndBytes(h)[1..5] == PackU32(h);
    PackU32Injective(g, h);
  }

  /** Counter g makes the file's digest match the mask. The source feeds
      the end bytes to a copy of the hash of the stream, which is the hash
      of the concatenation. */
  predicate Hits(md5: Hash, mask: string, buf: seq<byte>, g: nat)
    requires |mask| == 32 && g < GARBAGE_BOUND
  {
    Matches(mask, md5(buf + EndBytes(g)))
  }

  /** The inner `for ... else` of the brute force: walk the mask and the
      hex digest together and stop at the first fixed character that
      differs. */
  method MaskAgrees(mask: string, d: Digest) returns (ok: bool)
    requires |mask| == 32
    ensures ok <==> Matches(mask, d)
  {
    var hex := Hex(d);
    var i := 0;
    while i < 32
      invariant i <= 32
      invariant forall j :: 0 <= j < i ==> mask[j] == ' ' || mask[j] == hex[j]
    {
      if mask[i] != ' ' && mask[i] != hex[i] {
        return false;
      }
      i := i + 1;
    }
    return true;
  }

  /** The brute force: the least counter below 2^32 that hits, or None when
      none does (the source then raises ValueError). */
  method FindGarbage(md5: Hash, mask: string, buf: seq<byte>) returns (g: Option<nat>)
    requires |mask| == 32
    ensures g.Some? ==> g.value < GARBAGE_BOUND && Hits(md5, mask, buf, g.value)
    ensures g.Some? ==> forall h :: 0 <= h < g.value ==> !Hits(md5, mask, buf, h)
    ensures g.None? ==> forall h :: 0 <= h < GARBAGE_BOUND ==> !Hits(md5, mask, buf, h)
  {
    var h := 0;
    while h < GARBAGE_BOUND
      invariant h <= GARBAGE_BOUND
      invariant forall h' :: 0 <= h' < h ==> !Hits(md5, mask, buf, h')
    {
      var ok := MaskAgrees(mask, md5(buf + EndBytes(h)));
      if ok {
        return Some(h);
      }
      h := h + 1;
    }
    return None;
  }

  /** `s[:at] + blk + s[at + len(blk):]`, with Python's clamping of slice
      bounds that run past the end. */
  function Splice(s: seq<byte>, at: nat, blk: seq<byte>): (r: seq<byte>)
    ensures at + |blk| <= |s| ==>
              && |r| == |s| && r[at..at + |blk|] == blk
              && (forall i :: 0 <= i < |s| && !(at <= i < at + |blk|) ==> r[i] == s[i])
  {
    var i := if at <= |s| then at else |s|;
    var j := if at + |blk| <= |s| then at + |blk| else |s|;
    s[..i] + blk + s[j..]
  }

  /** Replacing a block by one of the same length, in place. */
  lemma SpliceMiddle(x: seq<byte>, b: seq<byte>, y: seq<byte>, c: seq<byte>)
    requires |b| == |c|
    ensures Splice(x + b + y, |x|, c) == x + c + y
  {
    var s := x + b + y;
    assert s[..|x|] == x;
    assert s[|x| + |b|..] == y;
  }

  /** A splice inside `s` ignores what follows `s`. */
  lemma SpliceAppend(s: seq<byte>, at: nat, blk: seq<byte>, t: seq<byte>)
    requires at + |blk| <= |s|
    ensures Splice(s + t, at, blk) == Splice(s, at, blk) + t
  {
    assert (s + t)[..at] == s[..at];
    assert (s + t)[at + |blk|..] == s[at + |blk|..] + t;
  }

  /** The key whose visible block shows the digest's digit at position q:
      `int(char, 16)` of the hex digit. */
  function DigitKey(d: Digest, q: nat): (k: Key)
    requires q < 32
    ensures k == (q, Nibble(d, q))
  {
    HexValueOfHexChar(Nibble(d, q));
    (q, HexValue(Hex(d)[q]))
  }

  /** The keys shown once positions 0..p-1 are substituted: the digest's
      digit at each blank position. */
  function Shown(mask: string, d: Digest, p: nat): (shown: set<Key>)
    requires |mask| == 32 && p <= 32
  {
    if p == 0 then {}
    else Shown(mask, d, p - 1) + (if mask[p - 1] == ' ' then {DigitKey(d, p - 1)} else {})
  }

  lemma {:induction false} ShownMembers(mask: string, d: Digest, p: nat)
    requires |mask| == 32 && p <= 32
    ensures forall k: Key :: k in Shown(mask, d, p) <==> k.0 < p && mask[k.0] == ' ' && k.1 == Nibble(d, k.0)
  {
    if p > 0 {
      ShownMembers(mask, d, p - 1);
    }
  }

  /** Lines 170-177 over positions 0..p-1: at each blank position look up
      the alternative for the digest's digit (a missing entry is the
      KeyError, None) and splice its visible block in at its offset. */
  function Substitute(gif: seq<byte>, d: Digest, mask: string, table: map<Key, Alternative>, p: nat): (r: Option<seq<byte>>)
    requires |mask| == 32 && p <= 32
    ensures r.Some? <==> forall q :: 0 <= q < p && mask[q] == ' ' ==> (q, Nibble(d, q)) in table
  {
    if p == 0 then Some(gif)
    else match Substitute(gif, d, mask, table, p - 1)
      case None => None
      case Some(g) =>
        if mask[p - 1] != ' ' then Some(g)
        else
          var key := DigitKey(d, p - 1);
          if key !in table then None
          else Some(Splice(g, table[key].collPos, table[key].coll))
  }

  /** No two steps share a key. */
  predicate Distinct(steps: seq<Step>) {
    forall i, j :: 0 <= i < j < |steps| ==> KeyOf(steps[i]) != KeyOf(steps[j])
  }

  /** Steps in loop order have distinct keys, and every (blank position,
      digit) key belongs to one of them. */
  lemma OrderedKeysDistinct(steps: seq<Step>, mask: string)
    requires |mask| == 32 && KeysOf(steps) == KeysUpTo(mask, 32)
    ensures Distinct(steps)
    ensures forall q, c :: 0 <= q < 32 && mask[q] == ' ' && 0 <= c < 16 ==> (q, c) in KeysOf(steps)
  {
    KeysUpToSorted(mask, 32);
    KeysUpToMembers(mask, 32);
    var ks := KeysOf(steps);
    forall i, j | 0 <= i < j < |steps| ensures KeyOf(steps[i]) != KeyOf(steps[j]) {
      assert KeyLess(ks[i], ks[j]);
    }
  }

  /** The step holding a key, found by its index in the key sequence. */
  lemma StepOfKey(steps: seq<Step>, key: Key) returns (k: nat)
    requires key in KeysOf(steps)
    ensures k < |steps| && KeyOf(steps[k]) == key
  {
    var ks := KeysOf(steps);
    k :| 0 <= k < |ks| && ks[k] == key;
  }

  /** Showing one more key (that of step k) changes the stream by
      splicing step k's visible block in at its recorded offset, once the
      stream reaches step k. */
  lemma {:induction false} ShowOne(pro: seq<byte>, steps: seq<Step>, n: nat, shown: set<Key>, k: nat)
    requires n <= |steps| && k < |steps| && Paired(steps) && Distinct(steps)
    requires KeyOf(steps[k]) !in shown
    ensures var more := Lay(pro, steps, n, shown + {KeyOf(steps[k])});
            && (n <= k ==> more == Lay(pro, steps, n, shown))
            && (k < n ==> more == Splice(Lay(pro, steps, n, shown), SlotOffset(pro, steps, k), steps[k].img))
  {
    if n > 0 {
      ShowOne(pro, steps, n - 1, shown, k);
      if n - 1 == k {
        ShowAtStep(pro, steps, k, shown);
      } else {
        ShowPastStep(pro, steps, n, shown, k);
      }
    }
  }

  /** The step whose key is newly shown. */
  lemma ShowAtStep(pro: seq<byte>, steps: seq<Step>, k: nat, shown: set<Key>)
    requires k < |steps| && Paired(steps)
    requires KeyOf(steps[k]) !in shown
    requires Lay(pro, steps, k, shown + {KeyOf(steps[k])}) == Lay(pro, steps, k, shown)
    ensures Lay(pro, steps, k + 1, shown + {KeyOf(steps[k])})
            == Splice(Lay(pro, steps, k + 1, shown), SlotOffset(pro, steps, k), steps[k].img)
  {
    var st := steps[k];
    var before := Lay(pro, steps, k, shown);
    LayLength(pro, steps, k, shown);
    assert Part(st, shown + {KeyOf(st)}) == st.align + st.img + st.tail;
    assert Part(st, shown) == st.align + st.nop + st.tail;
    SpliceInPart(before, st.align, st.nop, st.img, st.tail);
  }

  lemma SpliceInPart(x: seq<byte>, a: seq<byte>, b: seq<byte>, c: seq<byte>, t: seq<byte>)
    requires |b| == |c|
    ensures Splice(x + (a + b + t), |x| + |a|, c) == x + (a + c + t)
  {
    assert x + (a + b + t) == (x + a) + b + t;
    assert x + (a + c + t) == (x + a) + c + t;
    SpliceMiddle(x + a, b, t, c);
  }

  /** Any other step: its part is unchanged, and a splice before it
      ignores it. */
  lemma ShowPastStep(pro: seq<byte>, steps: seq<Step>, n: nat, shown: set<Key>, k: nat)
    requires 0 < n <= |steps| && k < |steps| && k != n - 1 && Paired(steps) && Distinct(steps)
    requires var more := Lay(pro, steps, n - 1, shown + {KeyOf(steps[k])});
             && (n - 1 <= k ==> more == Lay(pro, steps, n - 1, shown))
             && (k < n - 1 ==> more == Splice(Lay(pro, steps, n - 1, shown), SlotOffset(pro, steps, k), steps[k].img))
    ensures var more := Lay(pro, steps, n, shown + {KeyOf(steps[k])});
            && (n <= k ==> more == Lay(pro, steps, n, shown))
            && (k < n ==> more == Splice(Lay(pro, steps, n, shown), SlotOffset(pro, steps, k), steps[k].img))
  {
    var st := steps[n - 1];
    var key := KeyOf(steps[k]);
    if n - 1 < k {
      assert KeyOf(steps[n - 1]) != KeyOf(steps[k]);
    } else {
      assert KeyOf(steps[k]) != KeyOf(steps[n - 1]);
    }
    PartUnchanged(st, shown, key);
    if k < n - 1 {
      SpliceBeforeStep(pro, steps, n, shown, k);
    }
  }

  /** A step whose key is not the newly shown one appends the same bytes. */
  lemma PartUnchanged(st: Step, shown: set<Key>, key: Key)
    requires KeyOf(st) != key
    ensures Part(st, shown + {key}) == Part(st, shown)
  {
    assert (KeyOf(st) in shown + {key}) == (KeyOf(st) in shown);
  }

  lemma SpliceBeforeStep(pro: seq<byte>, steps: seq<Step>, n: nat, shown: set<Key>, k: nat)
    requires 0 < n <= |steps| && k < n - 1 && Paired(steps)
    ensures var before := Lay(pro, steps, n - 1, shown);
            var off := SlotOffset(pro, steps, k);
            Splice(before + Part(steps[n - 1], shown), off, steps[k].img)
            == Splice(before, off, steps[k].img) + Part(steps[n - 1], shown)
  {
    LaySlot(pro, steps, {}, k);
    LayPrefix(pro, steps, {}, k + 1, n - 1);
    LayLength(pro, steps, n - 1, shown);
    SpliceAppend(Lay(pro, steps, n - 1, shown), SlotOffset(pro, steps, k), steps[k].img, Part(steps[n - 1], shown));
  }

  /** The substitution walks the file from hidden to shown: after positions
      0..p-1 it is the stream showing exactly those positions' digit keys,
      followed by the unchanged end bytes. In particular it never meets the
      KeyError. */
  lemma {:induction false} SubstituteShows(pro: seq<byte>, steps: seq<Step>, mask: string, d: Digest, end: seq<byte>, p: nat)
    requires |mask| == 32 && p <= 32
    requires Paired(steps) && KeysOf(steps) == KeysUpTo(mask, 32)
    ensures Substitute(Lay(pro, steps, |steps|, {}) + end, d, mask, Table(pro, steps, |steps|), p)
            == Some(Lay(pro, steps, |steps|, Shown(mask, d, p)) + end)
  {
    if p > 0 {
      SubstituteShows(pro, steps, mask, d, end, p - 1);
      if mask[p - 1] == ' ' {
        ShowDigit(pro, steps, mask, d, end, p - 1);
      } else {
        assert Shown(mask, d, p) == Shown(mask, d, p - 1);
      }
    }
  }

  /** One blank position q: its digit's key is in the table, and splicing
      the recorded block at the recorded offset shows that key. */
  lemma ShowDigit(pro: seq<byte>, steps: seq<Step>, mask: string, d: Digest, end: seq<byte>, q: nat)
    requires |mask| == 32 && q < 32 && mask[q] == ' '
    requires Paired(steps) && KeysOf(steps) == KeysUpTo(mask, 32)
    ensures var table := Table(pro, steps, |steps|);
            var key := DigitKey(d, q);
            && key in table
            && Splice(Lay(pro, steps, |steps|, Shown(mask, d, q)) + end, table[key].collPos, table[key].coll)
               == Lay(pro, steps, |steps|, Shown(mask, d, q + 1)) + end
  {
    var n := |steps|;
    var prev := Shown(mask, d, q);
    var key := DigitKey(d, q);
    OrderedKeysDistinct(steps, mask);
    var k := StepOfKey(steps, key);
    TableLookup(pro, steps, n, k);
    ShownMembers(mask, d, q);
    assert key !in prev;
    assert Shown(mask, d, q + 1) == prev + {KeyOf(steps[k])};
    ShowOne(pro, steps, n, prev, k);
    LaySlot(pro, steps, prev, k);
    SpliceAppend(Lay(pro, steps, n, prev), SlotOffset(pro, steps, k), steps[k].img, end);
  }
}
