/** `Hashquine.generate` end to end: the loops, the brute force and the
    substitution, and what the produced file shows. */
module Quine {
  import opened Wrappers
  import opened Bytes
  import opened SubBlocks
  import opened Digests
  import opened Collide
  import opened Layout
  import opened Keys
  import opened Loader
  import opened Stream
  import opened Assemble
  import opened Finish

  /** The generated file and what it was built from: the loops' result and
      the brute-forced counter. */
  datatype Output = Output(gif: seq<byte>, built: Built, garbage: nat)

  /** The file the brute force settles on, before the substitution. */
  function HiddenFile(b: Built, garbage: nat): (f: seq<byte>)
    requires garbage < GARBAGE_BOUND
    ensures |f| == |b.buf| + 7
  {
    b.buf + EndBytes(garbage)
  }

  /** The digest the substitution spells out: that of the hidden file
      (line 170 hashes the file once, before any block is swapped). */
  function Target(md5: Hash, b: Built, garbage: nat): (d: Digest)
    requires garbage < GARBAGE_BOUND
  {
    md5(HiddenFile(b, garbage))
  }

  /** What `generate` returns, in terms of what it built: a consistent
      stream, the least counter whose end bytes make the digest match the
      mask, and the stream showing, at every blank position, the block of
      the digest's digit there. */
  ghost predicate Produced(md5: Hash, fc: Fastcoll, hq: Hashquine, o: Output)
    requires Valid(hq)
  {
    && Consistent(md5, fc, hq, o.built)
    && o.garbage < GARBAGE_BOUND
    && Hits(md5, hq.mask, o.built.buf, o.garbage)
    && (forall h :: 0 <= h < o.garbage ==> !Hits(md5, hq.mask, o.built.buf, h))
    && o.gif == Lay(o.built.pro, o.built.steps, |o.built.steps|, Shown(hq.mask, Target(md5, o.built, o.garbage), 32))
                + EndBytes(o.garbage)
  }

  /** The parts of `Produced` the lemmas below work with. */
  lemma ProducedParts(md5: Hash, fc: Fastcoll, hq: Hashquine, o: Output)
    requires Valid(hq) && Produced(md5, fc, hq, o)
    ensures var b := o.built;
            && |hq.mask| == 32 && o.garbage < GARBAGE_BOUND
            && Paired(b.steps) && WellLaid(b.pro, b.steps, |b.steps|) && Certified(md5, b.pro, b.steps, |b.steps|)
            && AllDrawn(hq, b.steps) && KeysOf(b.steps) == KeysUpTo(hq.mask, 32)
            && Matches(hq.mask, Target(md5, b, o.garbage))
            && b.buf == Lay(b.pro, b.steps, |b.steps|, {})
            && o.gif == Lay(b.pro, b.steps, |b.steps|, Shown(hq.mask, Target(md5, b, o.garbage), 32)) + EndBytes(o.garbage)
  {
  }

  /** Lines 84-178. Fails where the loops fail, and with DigestNotFound
      when no counter below 2^32 makes the digest match the mask. */
  method Generate(md5: Hash, fc: Fastcoll, hq: Hashquine, maxTries: nat) returns (r: Result<Output, GenError>)
    requires Valid(hq)
    ensures r.Success? ==> Produced(md5, fc, hq, r.value)
    ensures r.Failure? && r.error == DigestNotFound ==>
              exists b :: Consistent(md5, fc, hq, b) && forall h :: 0 <= h < GARBAGE_BOUND ==> !Hits(md5, hq.mask, b.buf, h)
    ensures r.Failure? && r.error == CoordinateOverflow ==>
              exists p :: 0 <= p < |hq.mask| && hq.mask[p] == ' ' && LeftAt(hq, p) >= 0x1_0000
    ensures r.Failure? && r.error == CoordinateOverflow ==> exists cur: Built, p: nat :: OverflowedAfter(md5, fc, hq, cur, p)
    ensures r.Failure? && (r.error.CollisionFailed? || r.error == NoAcceptedPair) ==>
              exists cur: Built, key: Key :: && KeysOf(cur.steps) + [key] <= KeysUpTo(hq.mask, |hq.mask|)
                                        && StoppedAfter(md5, fc, hq, maxTries, cur, key, r.error)
  {
    hide StoppedAfter, OverflowedAfter;
    hide Consistent, Sound, Retried, Lay, Table, WellLaid, Certified, Shown, KeysUpTo, AllDrawn, Hits, Substitute, Valid;
    var built := Assemble.Assemble(md5, fc, hq, maxTries);
    if built.Failure? {
      return Failure(built.error);
    }
    var b := built.value;
    ConsistentParts(md5, fc, hq, b);
    var found := FindGarbage(md5, hq.mask, b.buf);
    if found.None? {
      return Failure(DigestNotFound);
    }
    var g := found.value;
    var gif := b.buf + EndBytes(g);
    SubstituteShows(b.pro, b.steps, hq.mask, md5(gif), EndBytes(g), 32);
    var shown := Substitute(gif, md5(gif), hq.mask, b.table, 32);
    r := Success(Output(shown.value, b, g));
  }

  /** The output is a function of the hash, fastcoll's runs and the
      hashquine: two outputs produced from the same ones are equal. */
  lemma ProducedUnique(md5: Hash, fc: Fastcoll, hq: Hashquine, o1: Output, o2: Output)
    requires Valid(hq) && Produced(md5, fc, hq, o1) && Produced(md5, fc, hq, o2)
    ensures o1 == o2
  {
    hide Consistent, Lay, Shown, Hits, Valid;
    BuiltUnique(md5, fc, hq, o1.built, o2.built);
  }

  /** Relative to the chaining ASSUMPTION: showing any set of blocks keeps
      the digest of the stream followed by the same end bytes. */
  lemma ShowingKeepsDigest(md5: Hash, pro: seq<byte>, steps: seq<Step>, shown: set<Key>, end: seq<byte>)
    requires CollisionsChain(md5)
    requires WellLaid(pro, steps, |steps|) && Certified(md5, pro, steps, |steps|)
    ensures md5(Lay(pro, steps, |steps|, shown) + end) == md5(Lay(pro, steps, |steps|, {}) + end)
  {
    var n := |steps|;
    ShowingKeepsState(md5, pro, steps, n, shown);
    SameStateExtend(md5, Lay(pro, steps, n, shown), Lay(pro, steps, n, {}), end);
    SameStateDigest(md5, Lay(pro, steps, n, shown) + end, Lay(pro, steps, n, {}) + end);
  }

  /** The hashquine property, relative to the chaining ASSUMPTION: the
      output's digest is the one its blocks spell out, and it matches the
      mask. */
  lemma OutputMatchesMask(md5: Hash, fc: Fastcoll, hq: Hashquine, o: Output)
    requires CollisionsChain(md5)
    requires Valid(hq) && Produced(md5, fc, hq, o)
    ensures md5(o.gif) == Target(md5, o.built, o.garbage)
    ensures Matches(hq.mask, md5(o.gif))
  {
    hide Produced, Consistent, Sound, Retried, Lay, Table, WellLaid, Certified, Shown, KeysUpTo, AllDrawn, Valid, Hits;
    ProducedParts(md5, fc, hq, o);
    var b := o.built;
    ShowingKeepsDigest(md5, b.pro, b.steps, Shown(hq.mask, Target(md5, b, o.garbage), 32), EndBytes(o.garbage));
  }

  /** Every step belongs to a blank position of the mask and a digit, and
      its 128-byte slot in the output holds the visible block exactly when
      its digit is the target digest's digit at its position. */
  lemma OutputShowsDigest(md5: Hash, fc: Fastcoll, hq: Hashquine, o: Output, k: nat)
    requires Valid(hq) && Produced(md5, fc, hq, o) && k < |o.built.steps|
    ensures var st := o.built.steps[k];
            var off := SlotOffset(o.built.pro, o.built.steps, k);
            && st.charPos < 32 && hq.mask[st.charPos] == ' ' && st.digit < 16
            && st.img != st.nop
            && off + COLLISION_LEN <= |o.gif|
            && o.gif[off..off + COLLISION_LEN]
               == (if st.digit == Nibble(Target(md5, o.built, o.garbage), st.charPos) then st.img else st.nop)
  {
    hide Produced, Consistent, Sound, Retried, Lay, Table, WellLaid, Certified, Shown, KeysUpTo, AllDrawn, Valid, Hits;
    ProducedParts(md5, fc, hq, o);
    var b := o.built;
    var st := b.steps[k];
    var d := Target(md5, b, o.garbage);
    var shown := Shown(hq.mask, d, 32);
    StepKey(hq.mask, b.steps, k);
    CertifiedAt(md5, b.pro, b.steps, |b.steps|, k);
    ShownMembers(hq.mask, d, 32);
    LaySlot(b.pro, b.steps, shown, k);
    var off := SlotOffset(b.pro, b.steps, k);
    SliceOfPrefix(Lay(b.pro, b.steps, |b.steps|, shown), o.gif, off, COLLISION_LEN);
  }

  /** The substitution changes nothing but the shown slots: the output has
      the hidden file's length, and every byte outside the 128-byte slots
      of the steps showing the digest's digits is the hidden file's. */
  lemma OutputKeepsOtherBytes(md5: Hash, fc: Fastcoll, hq: Hashquine, o: Output, i: nat)
    requires Valid(hq) && Produced(md5, fc, hq, o)
    requires forall k {:trigger SlotOffset(o.built.pro, o.built.steps, k)} ::
               && 0 <= k < |o.built.steps| && o.built.steps[k].charPos < 32
               && o.built.steps[k].digit == Nibble(Target(md5, o.built, o.garbage), o.built.steps[k].charPos)
               ==> !(SlotOffset(o.built.pro, o.built.steps, k) <= i < SlotOffset(o.built.pro, o.built.steps, k) + COLLISION_LEN)
    ensures |o.gif| == |HiddenFile(o.built, o.garbage)|
    ensures i < |o.gif| ==> o.gif[i] == HiddenFile(o.built, o.garbage)[i]
  {
    hide Produced, Consistent, Sound, Retried, Lay, Table, WellLaid, Certified, Shown, KeysUpTo, AllDrawn, Valid, Hits;
    ProducedParts(md5, fc, hq, o);
    var b := o.built;
    var n := |b.steps|;
    var d := Target(md5, b, o.garbage);
    var shown := Shown(hq.mask, d, 32);
    LayLength(b.pro, b.steps, n, shown);
    if i < |Lay(b.pro, b.steps, n, shown)| {
      forall k | 0 <= k < n && KeyOf(b.steps[k]) in shown
        ensures !(SlotOffset(b.pro, b.steps, k) <= i < SlotOffset(b.pro, b.steps, k) + COLLISION_LEN)
      {
        ShownMembers(hq.mask, d, 32);
        StepKey(hq.mask, b.steps, k);
      }
      LayOutside(b.pro, b.steps, n, shown, i);
    }
  }

  /** Each step's key is a blank position of the mask and a digit. */
  lemma StepKey(mask: string, steps: seq<Step>, k: nat)
    requires |mask| == 32 && KeysOf(steps) == KeysUpTo(mask, 32) && k < |steps|
    ensures steps[k].charPos < 32 && mask[steps[k].charPos] == ' ' && steps[k].digit < 16
  {
    KeysUpToMembers(mask, 32);
    assert KeysOf(steps)[k] == KeyOf(steps[k]);
    assert KeyOf(steps[k]) in KeysUpTo(mask, 32);
  }

  /** Each step's bytes in the output are its layout segment, visible
      exactly for the target's digit, and its glyph record is the glyph of
      its digit at its position's left edge on the hash row. With the
      layout lemmas this says which glyphs a decoder draws: the visible
      segment ends its comment right before the glyph record, the hidden
      one keeps it inside a comment. */
  lemma OutputDrawsDigit(md5: Hash, fc: Fastcoll, hq: Hashquine, o: Output, k: nat)
    requires Valid(hq) && Produced(md5, fc, hq, o) && k < |o.built.steps|
    ensures o.built.steps[k].charPos < 32
    ensures var b := o.built;
            var st := b.steps[k];
            var base := |Lay(b.pro, b.steps, k, {})|;
            var visible := st.digit == Nibble(Target(md5, b, o.garbage), st.charPos);
            && Feasible(st.charImg, st.img, st.nop)
            && st.charImg == CharImage(LeftAt(hq, st.charPos), hq.top, hq.charWidth, hq.charHeight, hq.glyphs[st.digit])
            && base + |Segment(base, st.charImg, st.img, st.nop, visible)| <= |o.gif|
            && o.gif[base..base + |Segment(base, st.charImg, st.img, st.nop, visible)|]
               == Segment(base, st.charImg, st.img, st.nop, visible)
  {
    hide Produced, Consistent, Sound, Retried, Lay, Table, WellLaid, Certified, Shown, KeysUpTo, Hits;
    ProducedParts(md5, fc, hq, o);
    var b := o.built;
    var st := b.steps[k];
    var n := |b.steps|;
    var d := Target(md5, b, o.garbage);
    var shown := Shown(hq.mask, d, 32);
    StepKey(hq.mask, b.steps, k);
    ShownMembers(hq.mask, d, 32);
    LaidAt(b.pro, b.steps, n, k);
    StepIsSegment(b.pro, b.steps, k, shown);
    LayLength(b.pro, b.steps, k, shown);
    LayPrefix(b.pro, b.steps, shown, k + 1, n);
    var before := Lay(b.pro, b.steps, k, shown);
    LayNext(b.pro, b.steps, k, shown);
    PartInFile(before, Part(st, shown), o.gif);
  }

  lemma LayNext(pro: seq<byte>, steps: seq<Step>, k: nat, shown: set<Key>)
    requires k < |steps|
    ensures Lay(pro, steps, k + 1, shown) == Lay(pro, steps, k, shown) + Part(steps[k], shown)
  {
  }

  /** A part appended to `before` sits right after it in any extension. */
  lemma PartInFile(before: seq<byte>, part: seq<byte>, file: seq<byte>)
    requires before + part <= file
    ensures |before| + |part| <= |file| && file[|before|..|before| + |part|] == part
  {
    assert file[|before|..|before| + |part|] == (before + part)[|before|..];
  }

  lemma ConsistentParts(md5: Hash, fc: Fastcoll, hq: Hashquine, b: Built)
    requires Valid(hq) && Consistent(md5, fc, hq, b)
    ensures |hq.mask| == 32 && Paired(b.steps) && KeysOf(b.steps) == KeysUpTo(hq.mask, 32)
    ensures b.buf == Lay(b.pro, b.steps, |b.steps|, {}) && b.table == Table(b.pro, b.steps, |b.steps|)
  {
  }

  lemma SoundParts(md5: Hash, fc: Fastcoll, hq: Hashquine, b: Built)
    requires Valid(hq) && Sound(md5, fc, hq, b)
    ensures b.buf == Lay(b.pro, b.steps, |b.steps|, {}) && |b.pro| <= |b.buf|
    ensures WellLaid(b.pro, b.steps, |b.steps|)
  {
  }

  /** A decoder reading the hidden file walks, from the comment opened at
      the end of the prologue, over every glyph record to the end bytes'
      terminator; the byte after it is the trailer. */
  lemma HiddenFileIsOneComment(md5: Hash, fc: Fastcoll, hq: Hashquine, b: Built, garbage: nat)
    requires Valid(hq) && Sound(md5, fc, hq, b) && garbage < GARBAGE_BOUND
    ensures var f := HiddenFile(b, garbage);
            && Skip(f, |b.pro|) == Some(|f| - 1)
            && f[|f| - 1] == Template.TRAILER
  {
    hide Sound, Retried, Lay, Table, WellLaid, Certified, AllDrawn, Valid, Skip, Chain;
    SoundParts(md5, fc, hq, b);
    var f := HiddenFile(b, garbage);
    var e := EndBytes(garbage);
    var n := |b.steps|;
    HiddenBodyIsComment(b.pro, b.steps, n);
    EndBytesCloseComment(garbage);
    var body := b.buf[|b.pro|..];
    ChainAppend(body, e[..5]);
    assert f[|b.pro|..|f| - 2] == body + e[..5];
    SkipFindsTerminator(f, |b.pro|, |f| - 2);
  }
}
