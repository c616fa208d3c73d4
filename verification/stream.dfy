/** The stream the generator builds, described as data: the prologue, then
    one laid-out segment per (position, digit) step in loop order, each
    holding either its hidden or its visible collision block. The
    `alternatives` table and the collision checks are described over the
    same list of steps. */
module Stream {
  import opened Wrappers
  import opened Bytes
  import opened SubBlocks
  import opened Digests
  import opened Collide
  import opened Layout
  import opened Keys
  import opened Template

  /** The descriptive comment of the prologue (lines 96-98). */
  const COMMENT: seq<byte> := Ascii("cybertramp 2025\nhttps://github.com/cybertramp\nOriginal: https://github.com/rogdham/gif-md5-hashquine\n\n")

  /** Lines 91-106: the background's header, screen descriptor and colour
      table, the descriptive comment, a Graphic Control Extension, the
      background image, and the start of the comment every later step
      continues. */
  function Prologue(bg: GifBlocks): (s: seq<byte>)
    ensures 2 <= |s| && s[|s| - 2..] == COMMENT_START
  {
    assert |COMMENT| == 102;
    bg.header + bg.screen + bg.colorTable
    + COMMENT_START + [|COMMENT| as byte] + COMMENT + [0]
    + GRAPHIC_CONTROL_EXTENSION + bg.descriptor + bg.imageData
    + COMMENT_START
  }

  /** How a decoder reads the prologue of a well-formed background: the
      background's header, screen descriptor and colour table, then a
      Comment Extension whose one sub-block holds the descriptive comment
      and which its terminator closes, the Graphic Control Extension, the
      background's Image Descriptor and image data, and a comment opened
      last. */
  lemma PrologueBlocks(bg: GifBlocks)
    requires WellFormed(bg)
    ensures var s := Prologue(bg);
            var t := |bg.header| + |bg.screen| + |bg.colorTable|;
            var u := t + 3 + |COMMENT| + 1;
            && t == DESCRIPTOR_AT
            && |s| == u + |GRAPHIC_CONTROL_EXTENSION| + |bg.descriptor| + |bg.imageData| + 2
            && s[..t] == bg.header + bg.screen + bg.colorTable
            && s[t..t + 2] == COMMENT_START
            && s[t + 2] as int == |COMMENT| && s[t + 3..t + 3 + |COMMENT|] == COMMENT
            && Skip(s, t + 2) == Some(u)
            && s[u..u + 8] == GRAPHIC_CONTROL_EXTENSION
            && s[u + 8..u + 18] == bg.descriptor
            && s[u + 18..|s| - 2] == bg.imageData
  {
    PrologueShape(bg);
    CommentThenBlocks(bg.header + bg.screen + bg.colorTable, COMMENT,
                      GRAPHIC_CONTROL_EXTENSION, bg.descriptor, bg.imageData);
  }

  /** Where the pieces of a stream laid out like the prologue sit: a head,
      one comment extension holding c in a single sub-block, then g, d and
      im, and a comment opened last. */
  lemma CommentThenBlocks(pre: seq<byte>, c: seq<byte>, g: seq<byte>, d: seq<byte>, im: seq<byte>)
    requires 0 < |c| < 256
    ensures var s := pre + (COMMENT_START + ([|c| as byte] + c) + [0]) + (g + d + im + COMMENT_START);
            var t := |pre|;
            var u := t + 3 + |c| + 1;
            && |s| == u + |g| + |d| + |im| + 2
            && s[..t] == pre
            && s[t..t + 2] == COMMENT_START
            && s[t + 2] as int == |c| && s[t + 3..t + 3 + |c|] == c
            && Skip(s, t + 2) == Some(u)
            && s[u..u + |g|] == g
            && s[u + |g|..u + |g| + |d|] == d
            && s[u + |g| + |d|..|s| - 2] == im
  {
    var post := g + d + im + COMMENT_START;
    var s := pre + (COMMENT_START + ([|c| as byte] + c) + [0]) + post;
    var u := |pre| + 3 + |c| + 1;
    CommentAt(pre, c, post);
    hide Skip;
    PostParts(g, d, im);
    SubSlice(s, u, post, 0, |g|);
    SubSlice(s, u, post, |g|, |g| + |d|);
    SubSlice(s, u, post, |g| + |d|, |post| - 2);
  }

  /** A comment extension holding c in one sub-block, between a head and
      a rest: the pieces sit where they were put, and skipping from its
      sub-blocks lands just after its terminator. */
  lemma CommentAt(pre: seq<byte>, c: seq<byte>, rest: seq<byte>)
    requires 0 < |c| < 256
    ensures var s := pre + (COMMENT_START + ([|c| as byte] + c) + [0]) + rest;
            var t := |pre|;
            var u := t + 3 + |c| + 1;
            && |s| == u + |rest|
            && s[..t] == pre
            && s[t..t + 2] == COMMENT_START
            && s[t + 2] as int == |c| && s[t + 3..t + 3 + |c|] == c
            && Skip(s, t + 2) == Some(u)
            && s[u..u + |rest|] == rest
  {
    var block := [|c| as byte] + c;
    var cmt := COMMENT_START + block + [0];
    var s := pre + cmt + rest;
    var t := |pre|;
    var u := t + |cmt|;
    OneSubBlock(|c| as byte, c);
    hide Skip, Chain;
    ThreeParts(pre, cmt, rest);
    ThreeParts(COMMENT_START, block, [0]);
    ThreeParts([|c| as byte], c, []);
    SubSlice(s, t, cmt, 0, 2);
    SubSlice(s, t, cmt, 2, |cmt| - 1);
    SubSlice(s, t + 2, block, 1, |block|);
    SkipFindsTerminator(s, t + 2, u - 1);
  }

  /** The pieces of the stream after the comment, sliced back out. */
  lemma PostParts(g: seq<byte>, d: seq<byte>, im: seq<byte>)
    ensures var post := g + d + im + COMMENT_START;
            && post[..|g|] == g && post[|g|..|g| + |d|] == d
            && post[|g| + |d|..|post| - 2] == im
  {
    ThreeParts(g, d, im + COMMENT_START);
    assert (im + COMMENT_START)[..|im|] == im;
  }

  /** The three parts of a concatenation, sliced back out. */
  lemma ThreeParts(a: seq<byte>, b: seq<byte>, c: seq<byte>)
    ensures var s := a + b + c;
            && s[..|a|] == a && s[|a|..|a| + |b|] == b && s[|a| + |b|..] == c
  {
  }

  /** A slice of a part found at offset t. */
  lemma SubSlice(s: seq<byte>, t: nat, x: seq<byte>, i: nat, j: nat)
    requires t + |x| <= |s| && s[t..t + |x|] == x && i <= j <= |x|
    ensures s[t + i..t + j] == x[i..j]
  {
    forall k | 0 <= k < j - i
      ensures s[t + i..t + j][k] == x[i..j][k]
    {
      assert s[t..t + |x|][i + k] == x[i + k];
    }
  }

  /** The prologue as the background's first pieces, the descriptive
      comment extension, and the rest. */
  lemma PrologueShape(bg: GifBlocks)
    ensures Prologue(bg)
            == (bg.header + bg.screen + bg.colorTable)
               + (COMMENT_START + ([|COMMENT| as byte] + COMMENT) + [0])
               + (GRAPHIC_CONTROL_EXTENSION + bg.descriptor + bg.imageData + COMMENT_START)
  {
  }

  /** An `alternatives` value: where the collision block sits and the
      visible block that may replace it. */
  datatype Alternative = Alternative(collPos: nat, coll: seq<byte>)

  /** One (position, digit) step as the loops append it (lines 114-149):
      the glyph record, the alignment bytes, the accepted collision pair
      (img = visible, nop = hidden) and the bytes after the block. Retried
      pairs append nothing, so a step records only the accepted one. */
  datatype Step = Step(charPos: nat, digit: nat, charImg: seq<byte>,
                       align: seq<byte>, img: seq<byte>, nop: seq<byte>, tail: seq<byte>)

  function KeyOf(st: Step): (k: Key) {
    (st.charPos, st.digit)
  }

  function KeysOf(steps: seq<Step>): (ks: seq<Key>)
    ensures |ks| == |steps| && forall i :: 0 <= i < |steps| ==> ks[i] == KeyOf(steps[i])
  {
    seq(|steps|, i requires 0 <= i < |steps| => KeyOf(steps[i]))
  }

  /** The block a stream holds at the step's slot: the visible one exactly
      when the step's key is shown. */
  function Block(st: Step, shown: set<Key>): (b: seq<byte>)
    ensures b == st.img || b == st.nop
  {
    if KeyOf(st) in shown then st.img else st.nop
  }

  /** What step `st` appends: its alignment bytes, the block, the bytes
      after the block. */
  function Part(st: Step, shown: set<Key>): (p: seq<byte>)
    ensures |p| == |st.align| + |Block(st, shown)| + |st.tail|
  {
    st.align + Block(st, shown) + st.tail
  }

  /** Both blocks of every step have fastcoll's length. */
  predicate Paired(steps: seq<Step>) {
    forall k :: 0 <= k < |steps| ==> |steps[k].img| == COLLISION_LEN && |steps[k].nop| == COLLISION_LEN
  }

  /** The stream after the first `n` steps, showing the visible block
      exactly for the keys in `shown`. With `shown` empty this is the buffer
      the loops build; the final substitution turns it into the same layout
      with some keys shown. */
  function Lay(pro: seq<byte>, steps: seq<Step>, n: nat, shown: set<Key>): (s: seq<byte>)
    requires n <= |steps|
    ensures |pro| <= |s|
  {
    if n == 0 then pro
    else
      Lay(pro, steps, n - 1, shown) + Part(steps[n - 1], shown)
  }

  /** `len(generated_gif)` when step k records its alternative (line 139):
      after its alignment bytes. */
  function SlotOffset(pro: seq<byte>, steps: seq<Step>, k: nat): (off: nat)
    requires k < |steps|
  {
    |Lay(pro, steps, k, {})| + |steps[k].align|
  }

  /** Step k holds what the loop body appends at that point: a pair that
      passes the acceptance test, the alignment for the stream so far
      (lines 120-123), and the filler, glyph record and re-opened comment
      after the block (lines 142-149). */
  predicate Laid(pro: seq<byte>, steps: seq<Step>, k: nat)
    requires k < |steps|
  {
    var st := steps[k];
    && Feasible(st.charImg, st.img, st.nop)
    && st.align == AlignBytes(|Lay(pro, steps, k, {})|)
    && st.tail == Tail(st.charImg, st.img, st.nop)
  }

  /** Each of the first `n` steps is laid out as the loop body lays it. */
  predicate WellLaid(pro: seq<byte>, steps: seq<Step>, n: nat)
    requires n <= |steps|
  {
    n == 0 || (WellLaid(pro, steps, n - 1) && Laid(pro, steps, n - 1))
  }

  /** The `alternatives` table after the first `n` steps (line 139). */
  function Table(pro: seq<byte>, steps: seq<Step>, n: nat): (t: map<Key, Alternative>)
    requires n <= |steps|
  {
    if n == 0 then map[]
    else Table(pro, steps, n - 1)[KeyOf(steps[n - 1]) := Alternative(SlotOffset(pro, steps, n - 1), steps[n - 1].img)]
  }

  /** Each of the first `n` pairs passed the wrapper's checks against the
      stream it was requested for: the hidden stream so far plus the
      alignment bytes. */
  predicate Certified(md5: Hash, pro: seq<byte>, steps: seq<Step>, n: nat)
    requires n <= |steps|
  {
    n == 0 ||
    (&& Certified(md5, pro, steps, n - 1)
     && Colliding(md5, Lay(pro, steps, n - 1, {}) + steps[n - 1].align, CollisionPair(steps[n - 1].img, steps[n - 1].nop)))
  }

  /** Showing blocks never changes the stream's length. */
  lemma {:induction false} LayLength(pro: seq<byte>, steps: seq<Step>, n: nat, shown: set<Key>)
    requires n <= |steps| && Paired(steps)
    ensures |Lay(pro, steps, n, shown)| == |Lay(pro, steps, n, {})|
  {
    if n > 0 {
      LayLength(pro, steps, n - 1, shown);
    }
  }

  /** The stream only grows: earlier states are prefixes of later ones. */
  lemma {:induction false} LayPrefix(pro: seq<byte>, steps: seq<Step>, shown: set<Key>, j: nat, n: nat)
    requires j <= n <= |steps|
    ensures Lay(pro, steps, j, shown) <= Lay(pro, steps, n, shown)
    decreases n
  {
    if j < n {
      LayPrefix(pro, steps, shown, j, n - 1);
    }
  }

  /** Steps appended later do not change the stream of the first `n`. */
  lemma LayAppend(pro: seq<byte>, steps: seq<Step>, more: seq<Step>, n: nat, shown: set<Key>)
    requires n <= |steps|
    ensures Lay(pro, steps + more, n, shown) == Lay(pro, steps, n, shown)
  {
    LayAgrees(pro, steps + more, steps, n, shown);
  }

  /** Appending steps leaves the table of the first `n` steps as it was. */
  lemma {:induction false} TableAppend(pro: seq<byte>, steps: seq<Step>, more: seq<Step>, n: nat)
    requires n <= |steps|
    ensures Table(pro, steps + more, n) == Table(pro, steps, n)
  {
    if n > 0 {
      TableAppend(pro, steps, more, n - 1);
      LayAppend(pro, steps, more, n - 1, {});
      assert (steps + more)[n - 1] == steps[n - 1];
    }
  }

  /** Appending steps leaves the layout checks of the first `n` steps as
      they were. */
  lemma {:induction false} WellLaidAppend(pro: seq<byte>, steps: seq<Step>, more: seq<Step>, n: nat)
    requires n <= |steps|
    ensures WellLaid(pro, steps + more, n) == WellLaid(pro, steps, n)
  {
    if n > 0 {
      WellLaidAppend(pro, steps, more, n - 1);
      LayAppend(pro, steps, more, n - 1, {});
      assert (steps + more)[n - 1] == steps[n - 1];
    }
  }

  /** Appending steps leaves the collision checks of the first `n` steps
      as they were. */
  lemma {:induction false} CertifiedAppend(md5: Hash, pro: seq<byte>, steps: seq<Step>, more: seq<Step>, n: nat)
    requires n <= |steps|
    ensures Certified(md5, pro, steps + more, n) == Certified(md5, pro, steps, n)
  {
    if n > 0 {
      CertifiedAppend(md5, pro, steps, more, n - 1);
      LayAppend(pro, steps, more, n - 1, {});
      assert (steps + more)[n - 1] == steps[n - 1];
    }
  }

  /** The stream after n steps depends on those steps only. */
  lemma {:induction false} LayAgrees(pro: seq<byte>, s1: seq<Step>, s2: seq<Step>, n: nat, shown: set<Key>)
    requires n <= |s1| && n <= |s2| && forall j :: 0 <= j < n ==> s1[j] == s2[j]
    ensures Lay(pro, s1, n, shown) == Lay(pro, s2, n, shown)
  {
    if n > 0 {
      LayAgrees(pro, s1, s2, n - 1, shown);
    }
  }

  /** A step laid on the hidden stream is the layout's segment for that
      stream length. */
  lemma StepIsSegment(pro: seq<byte>, steps: seq<Step>, k: nat, shown: set<Key>)
    requires k < |steps| && Laid(pro, steps, k)
    ensures var st := steps[k];
            Part(st, shown) == Segment(|Lay(pro, steps, k, {})|, st.charImg, st.img, st.nop, KeyOf(st) in shown)
  {
  }

  /** Step k of a well-laid stream is laid as the loop body lays it. */
  lemma {:induction false} LaidAt(pro: seq<byte>, steps: seq<Step>, n: nat, k: nat)
    requires k < n <= |steps| && WellLaid(pro, steps, n)
    ensures Laid(pro, steps, k)
  {
    if k < n - 1 {
      LaidAt(pro, steps, n - 1, k);
    }
  }

  /** The same for the collision checks. */
  lemma {:induction false} CertifiedAt(md5: Hash, pro: seq<byte>, steps: seq<Step>, n: nat, k: nat)
    requires k < n <= |steps| && Certified(md5, pro, steps, n)
    ensures Colliding(md5, Lay(pro, steps, k, {}) + steps[k].align, CollisionPair(steps[k].img, steps[k].nop))
  {
    if k < n - 1 {
      CertifiedAt(md5, pro, steps, n - 1, k);
    }
  }

  /** Step k's collision block sits at its recorded offset and holds the
      visible block exactly when its key is shown. */
  lemma LaySlot(pro: seq<byte>, steps: seq<Step>, shown: set<Key>, k: nat)
    requires k < |steps| && Paired(steps)
    ensures |Lay(pro, steps, k, {})| <= SlotOffset(pro, steps, k)
    ensures SlotOffset(pro, steps, k) + COLLISION_LEN <= |Lay(pro, steps, k + 1, {})| <= |Lay(pro, steps, |steps|, shown)|
    ensures Lay(pro, steps, |steps|, shown)[SlotOffset(pro, steps, k)..SlotOffset(pro, steps, k) + COLLISION_LEN]
            == Block(steps[k], shown)
  {
    var st := steps[k];
    LayLength(pro, steps, k, shown);
    LayLength(pro, steps, k + 1, shown);
    LayLength(pro, steps, |steps|, shown);
    LayPrefix(pro, steps, shown, k + 1, |steps|);
    var prev := Lay(pro, steps, k, shown);
    var off := SlotOffset(pro, steps, k);
    var next := Lay(pro, steps, k + 1, shown);
    SliceOfConcat(prev, Part(st, shown), |st.align|, COLLISION_LEN);
    assert Part(st, shown)[|st.align|..|st.align| + COLLISION_LEN] == Block(st, shown);
    SliceOfPrefix(next, Lay(pro, steps, |steps|, shown), off, COLLISION_LEN);
  }

  lemma SliceOfConcat(a: seq<byte>, b: seq<byte>, i: nat, n: nat)
    requires i + n <= |b|
    ensures (a + b)[|a| + i..|a| + i + n] == b[i..i + n]
  {
  }

  lemma SliceOfPrefix(a: seq<byte>, b: seq<byte>, i: nat, n: nat)
    requires a <= b && i + n <= |a|
    ensures b[i..i + n] == a[i..i + n]
  {
  }

  /** In a well-laid stream every collision block starts on a 64-byte
      boundary, as `collide` demands of its prefix. */
  lemma SlotAligned(pro: seq<byte>, steps: seq<Step>, k: nat)
    requires k < |steps| && WellLaid(pro, steps, |steps|)
    ensures SlotOffset(pro, steps, k) % 64 == 0
  {
    LaidAt(pro, steps, |steps|, k);
    AlignedLength(|Lay(pro, steps, k, {})|);
  }

  /** The blocks' 128-byte ranges come in step order and never overlap. */
  lemma SlotsIncrease(pro: seq<byte>, steps: seq<Step>, j: nat, k: nat)
    requires j < k < |steps| && Paired(steps)
    ensures |pro| <= SlotOffset(pro, steps, j)
    ensures SlotOffset(pro, steps, j) + COLLISION_LEN <= SlotOffset(pro, steps, k)
  {
    LaySlot(pro, steps, {}, j);
    LayPrefix(pro, steps, {}, j + 1, k);
  }

  /** Outside the ranges of shown blocks the stream is the hidden one. */
  lemma {:induction false} LayOutside(pro: seq<byte>, steps: seq<Step>, n: nat, shown: set<Key>, i: nat)
    requires n <= |steps| && Paired(steps) && i < |Lay(pro, steps, n, shown)|
    requires forall k {:trigger SlotOffset(pro, steps, k)} :: 0 <= k < n && KeyOf(steps[k]) in shown ==>
               !(SlotOffset(pro, steps, k) <= i < SlotOffset(pro, steps, k) + COLLISION_LEN)
    ensures i < |Lay(pro, steps, n, {})| && Lay(pro, steps, n, shown)[i] == Lay(pro, steps, n, {})[i]
  {
    LayLength(pro, steps, n, shown);
    if n > 0 {
      LayLength(pro, steps, n - 1, shown);
      if i < |Lay(pro, steps, n - 1, shown)| {
        LayOutside(pro, steps, n - 1, shown, i);
        LayPrefix(pro, steps, shown, n - 1, n);
        LayPrefix(pro, steps, {}, n - 1, n);
      } else {
        LastStepOutside(pro, steps, n, shown, i);
      }
    }
  }

  /** The same, within the last step. */
  lemma LastStepOutside(pro: seq<byte>, steps: seq<Step>, n: nat, shown: set<Key>, i: nat)
    requires 0 < n <= |steps| && Paired(steps)
    requires |Lay(pro, steps, n - 1, {})| <= i < |Lay(pro, steps, n, {})|
    requires KeyOf(steps[n - 1]) in shown ==>
               !(SlotOffset(pro, steps, n - 1) <= i < SlotOffset(pro, steps, n - 1) + COLLISION_LEN)
    ensures i < |Lay(pro, steps, n, shown)| && Lay(pro, steps, n, shown)[i] == Lay(pro, steps, n, {})[i]
  {
    LayLength(pro, steps, n - 1, shown);
    var st := steps[n - 1];
    var j := i - |Lay(pro, steps, n - 1, {})|;
    assert |st.img| == COLLISION_LEN && |st.nop| == COLLISION_LEN;
    if KeyOf(st) in shown {
      PartsAgree(st.align, st.img, st.nop, st.tail, j);
    }
  }

  /** Two parts that differ only in equally long blocks agree outside the
      block. */
  lemma PartsAgree(a: seq<byte>, b1: seq<byte>, b2: seq<byte>, t: seq<byte>, j: nat)
    requires |b1| == |b2| && j < |a| + |b1| + |t|
    requires !(|a| <= j < |a| + |b1|)
    ensures (a + b1 + t)[j] == (a + b2 + t)[j]
  {
  }

  /** The table maps step k's key to its slot offset and visible block,
      unless a later step has the same key. */
  lemma {:induction false} TableLookup(pro: seq<byte>, steps: seq<Step>, n: nat, k: nat)
    requires k < n <= |steps|
    requires forall i :: k < i < n ==> KeyOf(steps[i]) != KeyOf(steps[k])
    ensures KeyOf(steps[k]) in Table(pro, steps, n)
    ensures Table(pro, steps, n)[KeyOf(steps[k])] == Alternative(SlotOffset(pro, steps, k), steps[k].img)
  {
    if k < n - 1 {
      TableLookup(pro, steps, n - 1, k);
    }
  }

  /** The table has no keys but the steps'. */
  lemma {:induction false} TableKeys(pro: seq<byte>, steps: seq<Step>, n: nat, key: Key)
    requires n <= |steps|
    requires key in Table(pro, steps, n)
    ensures exists i :: 0 <= i < n && KeyOf(steps[i]) == key
  {
    if key != KeyOf(steps[n - 1]) {
      TableKeys(pro, steps, n - 1, key);
    }
  }

  /** The hidden stream's body is one comment: after the prologue it is
      nothing but non-empty sub-blocks, so every glyph record is skipped. */
  lemma {:induction false} HiddenBodyIsComment(pro: seq<byte>, steps: seq<Step>, n: nat)
    requires n <= |steps| && WellLaid(pro, steps, n)
    ensures Chain(Lay(pro, steps, n, {})[|pro|..])
  {
    if n == 0 {
      assert Lay(pro, steps, n, {})[|pro|..] == [];
    } else {
      var st := steps[n - 1];
      var prev := Lay(pro, steps, n - 1, {});
      HiddenBodyIsComment(pro, steps, n - 1);
      var part := Part(st, {});
      StepIsSegment(pro, steps, n - 1, {});
      HiddenSegmentIsComment(|prev|, st.charImg, st.img, st.nop);
      ChainAppend(prev[|pro|..], part);
      DropOfConcat(prev, part, |pro|);
    }
  }

  lemma DropOfConcat(a: seq<byte>, b: seq<byte>, m: nat)
    requires m <= |a|
    ensures (a + b)[m..] == a[m..] + b
  {
  }

  /** Digest invariance, relative to the chaining ASSUMPTION
      `CollisionsChain`: whichever blocks are shown, the stream leaves MD5
      in the state the hidden stream does, so any continuation has the
      same digest. */
  lemma {:induction false} ShowingKeepsState(md5: Hash, pro: seq<byte>, steps: seq<Step>, n: nat, shown: set<Key>)
    requires CollisionsChain(md5)
    requires n <= |steps| && WellLaid(pro, steps, n) && Certified(md5, pro, steps, n)
    ensures SameState(md5, Lay(pro, steps, n, shown), Lay(pro, steps, n, {}))
  {
    if n == 0 {
      SameStateRefl(md5, pro);
    } else {
      ShowingKeepsState(md5, pro, steps, n - 1, shown);
      LastStepKeepsState(md5, pro, steps, n, shown);
    }
  }

  /** The induction step of `ShowingKeepsState`. */
  lemma LastStepKeepsState(md5: Hash, pro: seq<byte>, steps: seq<Step>, n: nat, shown: set<Key>)
    requires CollisionsChain(md5)
    requires 0 < n <= |steps| && Laid(pro, steps, n - 1)
    requires Colliding(md5, Lay(pro, steps, n - 1, {}) + steps[n - 1].align, CollisionPair(steps[n - 1].img, steps[n - 1].nop))
    requires SameState(md5, Lay(pro, steps, n - 1, shown), Lay(pro, steps, n - 1, {}))
    ensures SameState(md5, Lay(pro, steps, n, shown), Lay(pro, steps, n, {}))
  {
    var st := steps[n - 1];
    var x := Lay(pro, steps, n - 1, shown);
    var y := Lay(pro, steps, n - 1, {});
    AlignedLength(|y|);
    StepKeepsState(md5, x, y, st.align, Block(st, shown), st.nop, st.tail);
  }

  /** One step: equal states, the same alignment, either block of a
      colliding pair (or the same block twice), the same tail. */
  lemma StepKeepsState(md5: Hash, x: seq<byte>, y: seq<byte>, a: seq<byte>, blk: seq<byte>, nop: seq<byte>, tail: seq<byte>)
    requires CollisionsChain(md5) && SameState(md5, x, y)
    requires blk == nop || ((|y| + |a|) % 64 == 0 && Colliding(md5, y + a, CollisionPair(blk, nop)))
    ensures SameState(md5, x + (a + blk + tail), y + (a + nop + tail))
  {
    assert x + (a + blk + tail) == x + a + blk + tail;
    assert y + (a + nop + tail) == y + a + nop + tail;
    SameStateExtend(md5, x, y, a);
    SameStateExtend(md5, x + a, y + a, blk);
    if blk != nop {
      UseCollisionsChain(md5, y + a, blk, nop);
      SameStateTrans(md5, x + a + blk, y + a + blk, y + a + nop);
    }
    SameStateExtend(md5, x + a + blk, y + a + nop, tail);
  }
}
