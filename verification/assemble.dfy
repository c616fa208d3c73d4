/** The generator's two nested loops (generate.py, `Hashquine.generate`,
    lines 108-149): for every blank mask position and every hex digit, align
    the stream, ask `collide` for pairs until one passes the acceptance
    test, record the alternative and append the hidden block, the filler,
    the glyph record and the re-opened comment. fastcoll is a function
    value indexed by the attempt number, standing for its randomness. */
module Assemble {
  import opened Wrappers
  import opened Bytes
  import opened Digests
  import opened Collide
  import opened Layout
  import opened Keys
  import opened Template
  import opened Loader
  import opened Stream

  /** Run `attempt` of fastcoll on `prefix`: its two output blocks. */
  type Fastcoll = (seq<byte>, nat) -> (seq<byte>, seq<byte>)

  /** Why generation stopped. */
  datatype GenError =
    | CollisionFailed(error: CollideError)  // an assertion of `collide` failed
    | CoordinateOverflow                    // `struct.pack('<HHHH', ...)` rejects the glyph's left edge
    | NoAcceptedPair                        // no pair passed the acceptance test within the attempt budget
    | DigestNotFound                        // the brute force exhausted its 2^32 candidates

  /** What `collide(prefix)` returns on fastcoll's run `t`. */
  function Attempt(md5: Hash, fc: Fastcoll, prefix: seq<byte>, t: nat): (r: Result<CollisionPair, CollideError>)
    requires |prefix| % 64 == 0
  {
    Collide.Collide(md5, prefix, fc(prefix, t).0, fc(prefix, t).1)
  }

  /** Runs 0..t-1 all returned a pair and the acceptance test rejected it. */
  predicate Rejected(md5: Hash, fc: Fastcoll, prefix: seq<byte>, charImg: seq<byte>, t: nat)
    requires |prefix| % 64 == 0
  {
    forall u :: 0 <= u < t ==>
      Attempt(md5, fc, prefix, u).Success? &&
      !Feasible(charImg, Attempt(md5, fc, prefix, u).value.low, Attempt(md5, fc, prefix, u).value.high)
  }

  /** The retry loop of lines 125-137, with at most `maxTries` runs: the
      first pair that passes the acceptance test, or the first failure of
      `collide`; `tries` is the number of the run that decided. */
  method FindCollision(md5: Hash, fc: Fastcoll, prefix: seq<byte>, charImg: seq<byte>, maxTries: nat)
    returns (r: Result<CollisionPair, GenError>, tries: nat)
    requires |prefix| % 64 == 0
    ensures tries <= maxTries && Rejected(md5, fc, prefix, charImg, tries)
    ensures r.Success? ==> tries < maxTries && Attempt(md5, fc, prefix, tries) == Success(r.value)
    ensures r.Success? ==> Colliding(md5, prefix, r.value) && Feasible(charImg, r.value.low, r.value.high)
    ensures r.Failure? ==>
              || (r.error == NoAcceptedPair && tries == maxTries)
              || (&& tries < maxTries && Attempt(md5, fc, prefix, tries).Failure?
                  && r.error == CollisionFailed(Attempt(md5, fc, prefix, tries).error))
  {
    tries := 0;
    while tries < maxTries
      invariant tries <= maxTries && Rejected(md5, fc, prefix, charImg, tries)
    {
      var attempt := Attempt(md5, fc, prefix, tries);
      if attempt.Failure? {
        return Failure(CollisionFailed(attempt.error)), tries;
      }
      var pair := attempt.value;
      if Feasible(charImg, pair.low, pair.high) {
        return Success(pair), tries;
      }
      tries := tries + 1;
    }
    r := Failure(NoAcceptedPair);
  }

  /** Fastcoll's first run on `prefix` whose pair passes the acceptance
      test for `charImg` returned `pair`: the retry loop's choice. */
  ghost predicate FirstAccepted(md5: Hash, fc: Fastcoll, prefix: seq<byte>, charImg: seq<byte>, pair: CollisionPair)
    requires |prefix| % 64 == 0
  {
    exists t: nat :: && Rejected(md5, fc, prefix, charImg, t)
                && Attempt(md5, fc, prefix, t) == Success(pair)
                && Feasible(charImg, pair.low, pair.high)
  }

  /** The retry loop's choice is a function of fastcoll's runs. */
  lemma FirstAcceptedUnique(md5: Hash, fc: Fastcoll, prefix: seq<byte>, charImg: seq<byte>, p1: CollisionPair, p2: CollisionPair)
    requires |prefix| % 64 == 0
    requires FirstAccepted(md5, fc, prefix, charImg, p1) && FirstAccepted(md5, fc, prefix, charImg, p2)
    ensures p1 == p2
  {
    var t1: nat :| && Rejected(md5, fc, prefix, charImg, t1)
              && Attempt(md5, fc, prefix, t1) == Success(p1) && Feasible(charImg, p1.low, p1.high);
    var t2: nat :| && Rejected(md5, fc, prefix, charImg, t2)
              && Attempt(md5, fc, prefix, t2) == Success(p2) && Feasible(charImg, p2.low, p2.high);
    if t1 < t2 {
      assert false;
    } else if t2 < t1 {
      assert false;
    }
  }

  /** A retry loop that gave up never settled on a pair: a failure of
      `collide` leaves no run whose pair passes, so only the attempt budget
      can stop a loop that would go on to accept one. */
  lemma StoppedExcludesAccepted(md5: Hash, fc: Fastcoll, prefix: seq<byte>, charImg: seq<byte>, maxTries: nat,
                                e: GenError, pair: CollisionPair)
    requires |prefix| % 64 == 0
    requires Stopped(md5, fc, prefix, charImg, maxTries, e) && FirstAccepted(md5, fc, prefix, charImg, pair)
    ensures e == NoAcceptedPair
  {
    var t: nat :| && Rejected(md5, fc, prefix, charImg, t)
             && Attempt(md5, fc, prefix, t) == Success(pair) && Feasible(charImg, pair.low, pair.high);
  }

  /** The left edge of the glyph at position p: `left` gains one glyph width
      per position, blank or not, before it is used (line 111). */
  function LeftAt(hq: Hashquine, p: nat): (left: nat) {
    if p == 0 then hq.left + hq.charWidth else LeftAt(hq, p - 1) + hq.charWidth
  }

  lemma {:induction false} LeftAtIsLinear(hq: Hashquine, p: nat)
    ensures LeftAt(hq, p) == hq.left + (p + 1) * hq.charWidth
  {
    if p > 0 {
      LeftAtIsLinear(hq, p - 1);
    }
  }

  /** The glyph record for digit c at position p: the glyph drawn at the
      position's left edge on the hash row (lines 115-118). */
  function GlyphRecord(hq: Hashquine, p: nat, c: nat): (charImg: seq<byte>)
    requires Valid(hq) && c < 16 && LeftAt(hq, p) < 0x1_0000
  {
    CharImage(LeftAt(hq, p), hq.top, hq.charWidth, hq.charHeight, hq.glyphs[c])
  }

  /** The glyph record of step `st` is the glyph for its digit, drawn at
      its position's left edge. */
  predicate Drawn(hq: Hashquine, st: Step)
    requires Valid(hq)
  {
    && st.digit < 16 && LeftAt(hq, st.charPos) < 0x1_0000
    && st.charImg == GlyphRecord(hq, st.charPos, st.digit)
  }

  /** The retry loop on `prefix` gave up with `e`: either some run of
      `collide` failed after every earlier run's pair was rejected, or all
      `maxTries` runs returned pairs the acceptance test rejected. */
  ghost predicate Stopped(md5: Hash, fc: Fastcoll, prefix: seq<byte>, charImg: seq<byte>, maxTries: nat, e: GenError) {
    && |prefix| % 64 == 0
    && (|| (e == NoAcceptedPair && Rejected(md5, fc, prefix, charImg, maxTries))
        || exists t: nat :: && t < maxTries && Rejected(md5, fc, prefix, charImg, t)
                       && Attempt(md5, fc, prefix, t).Failure?
                       && e == CollisionFailed(Attempt(md5, fc, prefix, t).error))
  }

  predicate AllDrawn(hq: Hashquine, steps: seq<Step>)
    requires Valid(hq)
  {
    forall k :: 0 <= k < |steps| ==> Drawn(hq, steps[k])
  }

  /** Step `st` is what the loop body appends to `buf` (lines 120-149),
      with a pair `collide` returned for `buf` plus the alignment bytes. */
  predicate Accepted(md5: Hash, buf: seq<byte>, st: Step) {
    && Feasible(st.charImg, st.img, st.nop)
    && st.align == AlignBytes(|buf|)
    && st.tail == Tail(st.charImg, st.img, st.nop)
    && Colliding(md5, buf + st.align, CollisionPair(st.img, st.nop))
  }

  /** One pass of the digit loop's body (lines 114-149) on the stream
      `buf`: the glyph record, the alignment, the retried collision, and the
      step that records them. */
  method PlaceDigit(md5: Hash, fc: Fastcoll, hq: Hashquine, buf: seq<byte>, p: nat, c: nat, maxTries: nat)
    returns (r: Result<Step, GenError>)
    requires Valid(hq) && c < 16 && LeftAt(hq, p) < 0x1_0000
    ensures r.Success? ==> Accepted(md5, buf, r.value) && Drawn(hq, r.value) && KeyOf(r.value) == (p, c)
    ensures r.Success? ==>
              var prefix := buf + r.value.align;
              && |prefix| % 64 == 0
              && exists t: nat :: && t < maxTries && Rejected(md5, fc, prefix, r.value.charImg, t)
                             && Attempt(md5, fc, prefix, t) == Success(CollisionPair(r.value.img, r.value.nop))
    ensures r.Failure? ==> r.error.CollisionFailed? || r.error == NoAcceptedPair
    ensures r.Failure? ==> Stopped(md5, fc, buf + AlignBytes(|buf|), GlyphRecord(hq, p, c), maxTries, r.error)
  {
    var charImg := GlyphRecord(hq, p, c);
    var align := AlignBytes(|buf|);
    AlignedLength(|buf|);
    var found, tries := FindCollision(md5, fc, buf + align, charImg, maxTries);
    if found.Failure? {
      assert found.error != NoAcceptedPair ==> tries < maxTries && Attempt(md5, fc, buf + align, tries).Failure?;
      return Failure(found.error);
    }
    var pair := found.value;
    r := Success(Step(p, c, charImg, align, pair.low, pair.high, Tail(charImg, pair.low, pair.high)));
  }

  /** Everything the loops have built: the prologue, the steps, the buffer
      (`generated_gif`) and the `alternatives` table. */
  datatype Built = Built(pro: seq<byte>, steps: seq<Step>, buf: seq<byte>, table: map<Key, Alternative>)

  /** Each of the first `n` steps holds the pair the retry loop settled
      on for the hidden stream before it plus its alignment bytes. */
  ghost predicate Retried(md5: Hash, fc: Fastcoll, pro: seq<byte>, steps: seq<Step>, n: nat)
    requires n <= |steps|
  {
    n == 0 ||
    (&& Retried(md5, fc, pro, steps, n - 1)
     && var prefix := Lay(pro, steps, n - 1, {}) + steps[n - 1].align;
        && |prefix| % 64 == 0
        && FirstAccepted(md5, fc, prefix, steps[n - 1].charImg, CollisionPair(steps[n - 1].img, steps[n - 1].nop)))
  }

  /** What the loops keep true of what they have built. */
  ghost predicate Sound(md5: Hash, fc: Fastcoll, hq: Hashquine, b: Built)
    requires Valid(hq)
  {
    && b.pro == Prologue(hq.background)
    && b.buf == Lay(b.pro, b.steps, |b.steps|, {})
    && b.table == Table(b.pro, b.steps, |b.steps|)
    && Paired(b.steps) && WellLaid(b.pro, b.steps, |b.steps|) && Certified(md5, b.pro, b.steps, |b.steps|)
    && AllDrawn(hq, b.steps) && Retried(md5, fc, b.pro, b.steps, |b.steps|)
  }

  /** What the loops guarantee of their result: one step per blank position
      and digit, in loop order. */
  ghost predicate Consistent(md5: Hash, fc: Fastcoll, hq: Hashquine, b: Built)
    requires Valid(hq)
  {
    Sound(md5, fc, hq, b) && KeysOf(b.steps) == KeysUpTo(hq.mask, |hq.mask|)
  }

  /** The loops built `cur` and then gave up at the step for `key`: the
      retry loop for that key's glyph record, after cur's stream, stopped
      with `e`. */
  ghost predicate StoppedAfter(md5: Hash, fc: Fastcoll, hq: Hashquine, maxTries: nat, cur: Built, key: Key, e: GenError)
    requires Valid(hq)
  {
    && Sound(md5, fc, hq, cur) && key.1 < 16 && LeftAt(hq, key.0) < 0x1_0000
    && Stopped(md5, fc, cur.buf + AlignBytes(|cur.buf|), GlyphRecord(hq, key.0, key.1), maxTries, e)
  }

  /** The loops built `cur`, every key before blank position p, and p's
      glyphs do not fit the 16-bit left edge (lines 116-117). */
  ghost predicate OverflowedAfter(md5: Hash, fc: Fastcoll, hq: Hashquine, cur: Built, p: nat)
    requires Valid(hq)
  {
    && p < |hq.mask| && Sound(md5, fc, hq, cur) && KeysOf(cur.steps) == KeysUpTo(hq.mask, p)
    && LeftsFit(hq, p) && hq.mask[p] == ' ' && LeftAt(hq, p) >= 0x1_0000
  }

  /** Lines 90-149: the prologue, then one step per blank position and
      digit, in loop order. Fails as the source does when `collide` fails
      or a glyph's left edge does not fit in 16 bits, and when a step finds
      no acceptable pair within `maxTries` runs. */
  method Assemble(md5: Hash, fc: Fastcoll, hq: Hashquine, maxTries: nat) returns (r: Result<Built, GenError>)
    requires Valid(hq)
    ensures r.Success? ==> Consistent(md5, fc, hq, r.value)
    ensures r.Success? ==> LeftsFit(hq, |hq.mask|)
    ensures r.Failure? && r.error == CoordinateOverflow ==>
              exists p :: 0 <= p < |hq.mask| && hq.mask[p] == ' ' && LeftAt(hq, p) >= 0x1_0000
    ensures r.Failure? ==> r.error != DigestNotFound
    ensures r.Failure? && r.error != CoordinateOverflow ==>
              exists cur: Built, key: Key :: && KeysOf(cur.steps) + [key] <= KeysUpTo(hq.mask, |hq.mask|)
                                        && StoppedAfter(md5, fc, hq, maxTries, cur, key, r.error)
    ensures r.Failure? && r.error == CoordinateOverflow ==> exists cur: Built, p: nat :: OverflowedAfter(md5, fc, hq, cur, p)
  {
    hide Sound, Lay, Table, WellLaid, Certified, Paired, AllDrawn, Retried, KeysUpTo, Valid, LeftsFit;
    hide StoppedAfter;
    StartSound(md5, fc, hq);
    var pro := Prologue(hq.background);
    var b := Built(pro, [], pro, map[]);
    var p := 0;
    while p < |hq.mask|
      invariant p <= |hq.mask|
      invariant Sound(md5, fc, hq, b)
      invariant KeysOf(b.steps) == KeysUpTo(hq.mask, p)
      invariant LeftsFit(hq, p)
    {
      var next := Advance(md5, fc, hq, b, p, maxTries);
      if next.Failure? {
        if next.error != CoordinateOverflow {
          ghost var cur: Built, key: Key :| && KeysOf(cur.steps) + [key] <= KeysUpTo(hq.mask, p + 1)
                                          && StoppedAfter(md5, fc, hq, maxTries, cur, key, next.error);
          KeysUpToPrefix(hq.mask, p + 1, |hq.mask|);
          PrefixTrans(KeysOf(cur.steps) + [key], KeysUpTo(hq.mask, p + 1), KeysUpTo(hq.mask, |hq.mask|));
        } else {
          assert OverflowedAfter(md5, fc, hq, b, p);
        }
        return Failure(next.error);
      }
      b := next.value;
      p := p + 1;
    }
    r := Success(b);
  }

  /** One pass of the outer loop (lines 111-149): nothing for a non-blank
      position, sixteen steps for a blank one. */
  method Advance(md5: Hash, fc: Fastcoll, hq: Hashquine, b: Built, p: nat, maxTries: nat)
    returns (r: Result<Built, GenError>)
    requires Valid(hq) && p < |hq.mask|
    requires Sound(md5, fc, hq, b) && KeysOf(b.steps) == KeysUpTo(hq.mask, p) && LeftsFit(hq, p)
    ensures r.Success? ==> Sound(md5, fc, hq, r.value) && KeysOf(r.value.steps) == KeysUpTo(hq.mask, p + 1)
    ensures r.Success? ==> LeftsFit(hq, p + 1)
    ensures r.Success? && hq.mask[p] != ' ' ==> r.value == b
    ensures r.Failure? && r.error == CoordinateOverflow ==> hq.mask[p] == ' ' && LeftAt(hq, p) >= 0x1_0000
    ensures r.Failure? ==> r.error != DigestNotFound
    ensures r.Failure? && r.error != CoordinateOverflow ==>
              exists cur: Built, key: Key :: && KeysOf(cur.steps) + [key] <= KeysUpTo(hq.mask, p + 1)
                                        && StoppedAfter(md5, fc, hq, maxTries, cur, key, r.error)
  {
    hide Sound, Lay, Table, WellLaid, Certified, Paired, AllDrawn, Retried, KeysUpTo, Valid, LeftsFit;
    hide StoppedAfter;
    KeysUpToNext(hq.mask, p);
    if hq.mask[p] == ' ' {
      if LeftAt(hq, p) >= 0x1_0000 {
        return Failure(CoordinateOverflow);
      }
      LeftsFitNext(hq, p);
      r := PlacePosition(md5, fc, hq, b, p, maxTries);
      if r.Failure? {
        ghost var cur: Built, c: nat :| && c < 16 && KeysOf(cur.steps) == KeysOf(b.steps) + DigitKeys(p, c)
                                      && StoppedAfter(md5, fc, hq, maxTries, cur, (p, c), r.error);
        NextKeyWithin(KeysOf(b.steps), p, c);
      }
    } else {
      LeftsFitNext(hq, p);
      r := Success(b);
    }
  }

  /** Every blank position before p has its glyph's left edge inside the
      16-bit field of the image descriptor (lines 116-117). */
  predicate LeftsFit(hq: Hashquine, p: nat)
    requires p <= |hq.mask|
  {
    forall q :: 0 <= q < p && hq.mask[q] == ' ' ==> LeftAt(hq, q) < 0x1_0000
  }

  /** Passing position p keeps the bound when p is not blank or fits. */
  lemma LeftsFitNext(hq: Hashquine, p: nat)
    requires p < |hq.mask| && LeftsFit(hq, p)
    requires hq.mask[p] == ' ' ==> LeftAt(hq, p) < 0x1_0000
    ensures LeftsFit(hq, p + 1)
  {
  }

  /** Before the loops: the prologue alone, no steps, an empty table. */
  lemma StartSound(md5: Hash, fc: Fastcoll, hq: Hashquine)
    requires Valid(hq)
    ensures var pro := Prologue(hq.background);
            Sound(md5, fc, hq, Built(pro, [], pro, map[])) && KeysOf([]) == KeysUpTo(hq.mask, 0) && LeftsFit(hq, 0)
  {
  }

  /** The digit loop at a blank position p (lines 113-149). */
  method PlacePosition(md5: Hash, fc: Fastcoll, hq: Hashquine, b: Built, p: nat, maxTries: nat)
    returns (r: Result<Built, GenError>)
    requires Valid(hq) && Sound(md5, fc, hq, b) && LeftAt(hq, p) < 0x1_0000
    ensures r.Success? ==> Sound(md5, fc, hq, r.value) && KeysOf(r.value.steps) == KeysOf(b.steps) + DigitKeys(p, 16)
    ensures r.Failure? ==> r.error.CollisionFailed? || r.error == NoAcceptedPair
    ensures r.Failure? ==>
              exists cur: Built, c: nat :: && c < 16 && KeysOf(cur.steps) == KeysOf(b.steps) + DigitKeys(p, c)
                                       && StoppedAfter(md5, fc, hq, maxTries, cur, (p, c), r.error)
  {
    hide Sound, Lay, Table, WellLaid, Certified, Paired, AllDrawn, Retried, KeysUpTo, Valid;
    var cur := b;
    var c := 0;
    while c < 16
      invariant c <= 16
      invariant Sound(md5, fc, hq, cur)
      invariant KeysOf(cur.steps) == KeysOf(b.steps) + DigitKeys(p, c)
    {
      var placed := PlaceDigit(md5, fc, hq, cur.buf, p, c, maxTries);
      if placed.Failure? {
        assert StoppedAfter(md5, fc, hq, maxTries, cur, (p, c), placed.error);
        return Failure(placed.error);
      }
      var st := placed.value;
      var next := Extend(md5, fc, hq, cur, st);
      DigitKeysStep(p, c);
      cur := next;
      c := c + 1;
    }
    r := Success(cur);
  }

  /** The loops are a function of fastcoll's runs: for the same hash,
      fastcoll and hashquine there is one consistent result. */
  lemma BuiltUnique(md5: Hash, fc: Fastcoll, hq: Hashquine, b1: Built, b2: Built)
    requires Valid(hq) && Consistent(md5, fc, hq, b1) && Consistent(md5, fc, hq, b2)
    ensures b1 == b2
  {
    hide Lay, Table, WellLaid, Certified, Paired, AllDrawn, Retried, KeysUpTo, Valid;
    var n := |b1.steps|;
    assert |KeysOf(b1.steps)| == |KeysOf(b2.steps)|;
    StepsAgree(md5, fc, hq, b1.pro, b1.steps, b2.steps, n);
    assert b1.steps == b2.steps;
  }

  /** Step by step, two step lists with the same keys, both laid, drawn
      and retried as the loops do it, agree. */
  lemma {:induction false} StepsAgree(md5: Hash, fc: Fastcoll, hq: Hashquine, pro: seq<byte>, s1: seq<Step>, s2: seq<Step>, n: nat)
    requires Valid(hq) && n <= |s1| == |s2| && KeysOf(s1) == KeysOf(s2)
    requires WellLaid(pro, s1, n) && WellLaid(pro, s2, n)
    requires Retried(md5, fc, pro, s1, n) && Retried(md5, fc, pro, s2, n)
    requires AllDrawn(hq, s1) && AllDrawn(hq, s2)
    ensures forall j :: 0 <= j < n ==> s1[j] == s2[j]
  {
    hide Valid, Lay, Feasible, Tail, FirstAccepted, Drawn, AlignBytes;
    if n > 0 {
      var k := n - 1;
      StepsAgree(md5, fc, hq, pro, s1, s2, k);
      LayAgrees(pro, s1, s2, k, {});
      assert KeysOf(s1)[k] == KeysOf(s2)[k];
      StepAgrees(md5, fc, hq, Lay(pro, s1, k, {}), s1[k], s2[k]);
    }
  }

  /** Two steps for the same key after the same stream, both laid, drawn
      and chosen as the loop body does it, are the same step. */
  lemma StepAgrees(md5: Hash, fc: Fastcoll, hq: Hashquine, buf: seq<byte>, st1: Step, st2: Step)
    requires Valid(hq) && KeyOf(st1) == KeyOf(st2) && Drawn(hq, st1) && Drawn(hq, st2)
    requires Feasible(st1.charImg, st1.img, st1.nop) && Feasible(st2.charImg, st2.img, st2.nop)
    requires st1.align == AlignBytes(|buf|) && st1.tail == Tail(st1.charImg, st1.img, st1.nop)
    requires st2.align == AlignBytes(|buf|) && st2.tail == Tail(st2.charImg, st2.img, st2.nop)
    requires |buf + st1.align| % 64 == 0
    requires FirstAccepted(md5, fc, buf + st1.align, st1.charImg, CollisionPair(st1.img, st1.nop))
    requires FirstAccepted(md5, fc, buf + st2.align, st2.charImg, CollisionPair(st2.img, st2.nop))
    ensures st1 == st2
  {
    FirstAcceptedUnique(md5, fc, buf + st1.align, st1.charImg,
                        CollisionPair(st1.img, st1.nop), CollisionPair(st2.img, st2.nop));
  }

  /** Recording step `st` (line 139) and appending its bytes (lines
      140-149). */
  function Extend(md5: Hash, fc: Fastcoll, hq: Hashquine, b: Built, st: Step): (r: Built)
    requires Valid(hq) && Sound(md5, fc, hq, b) && Accepted(md5, b.buf, st) && Drawn(hq, st)
    requires |b.buf + st.align| % 64 == 0 && FirstAccepted(md5, fc, b.buf + st.align, st.charImg, CollisionPair(st.img, st.nop))
    ensures Sound(md5, fc, hq, r) && r.pro == b.pro && r.steps == b.steps + [st]
    ensures KeysOf(r.steps) == KeysOf(b.steps) + [KeyOf(st)]
  {
    AppendStep(md5, b.pro, b.steps, st);
    AllDrawnAppend(hq, b.steps, st);
    RetriedAppendStep(md5, fc, b.pro, b.steps, st);
    Built(b.pro, b.steps + [st], b.buf + st.align + st.nop + st.tail,
          b.table[KeyOf(st) := Alternative(|b.buf + st.align|, st.img)])
  }

  /** Appending an accepted step extends every description of the stream
      by that step and leaves the earlier steps as they were. */
  lemma AppendStep(md5: Hash, pro: seq<byte>, steps: seq<Step>, st: Step)
    requires Paired(steps) && WellLaid(pro, steps, |steps|) && Certified(md5, pro, steps, |steps|)
    requires Accepted(md5, Lay(pro, steps, |steps|, {}), st)
    ensures var next := steps + [st];
            && Lay(pro, next, |next|, {}) == Lay(pro, steps, |steps|, {}) + st.align + st.nop + st.tail
            && Table(pro, next, |next|)
               == Table(pro, steps, |steps|)[KeyOf(st) := Alternative(|Lay(pro, steps, |steps|, {}) + st.align|, st.img)]
            && Paired(next) && WellLaid(pro, next, |next|) && Certified(md5, pro, next, |next|)
            && KeysOf(next) == KeysOf(steps) + [KeyOf(st)]
  {
    LayAppendStep(pro, steps, st);
    TableAppendStep(pro, steps, st);
    PairedAppend(steps, st);
    WellLaidAppendStep(pro, steps, st);
    CertifiedAppendStep(md5, pro, steps, st);
    KeysOfAppend(steps, st);
  }

  lemma LayAppendStep(pro: seq<byte>, steps: seq<Step>, st: Step)
    ensures Lay(pro, steps + [st], |steps| + 1, {}) == Lay(pro, steps, |steps|, {}) + st.align + st.nop + st.tail
  {
    var next := steps + [st];
    LayAppend(pro, steps, [st], |steps|, {});
    assert next[|steps|] == st;
    assert Lay(pro, next, |steps| + 1, {}) == Lay(pro, steps, |steps|, {}) + (st.align + st.nop + st.tail);
  }

  lemma TableAppendStep(pro: seq<byte>, steps: seq<Step>, st: Step)
    ensures Table(pro, steps + [st], |steps| + 1)
            == Table(pro, steps, |steps|)[KeyOf(st) := Alternative(|Lay(pro, steps, |steps|, {}) + st.align|, st.img)]
  {
    var next := steps + [st];
    LayAppend(pro, steps, [st], |steps|, {});
    TableAppend(pro, steps, [st], |steps|);
    assert next[|steps|] == st;
  }

  lemma PairedAppend(steps: seq<Step>, st: Step)
    requires Paired(steps) && |st.img| == COLLISION_LEN && |st.nop| == COLLISION_LEN
    ensures Paired(steps + [st])
  {
    var next := steps + [st];
    forall k | 0 <= k < |next| ensures |next[k].img| == COLLISION_LEN && |next[k].nop| == COLLISION_LEN {
      if k < |steps| {
        assert next[k] == steps[k];
      }
    }
  }

  lemma WellLaidAppendStep(pro: seq<byte>, steps: seq<Step>, st: Step)
    requires WellLaid(pro, steps, |steps|)
    requires Feasible(st.charImg, st.img, st.nop)
    requires st.align == AlignBytes(|Lay(pro, steps, |steps|, {})|) && st.tail == Tail(st.charImg, st.img, st.nop)
    ensures WellLaid(pro, steps + [st], |steps| + 1)
  {
    var next := steps + [st];
    LayAppend(pro, steps, [st], |steps|, {});
    WellLaidAppend(pro, steps, [st], |steps|);
    assert next[|steps|] == st;
    assert Laid(pro, next, |steps|);
  }

  lemma CertifiedAppendStep(md5: Hash, pro: seq<byte>, steps: seq<Step>, st: Step)
    requires Certified(md5, pro, steps, |steps|)
    requires Colliding(md5, Lay(pro, steps, |steps|, {}) + st.align, CollisionPair(st.img, st.nop))
    ensures Certified(md5, pro, steps + [st], |steps| + 1)
  {
    var next := steps + [st];
    LayAppend(pro, steps, [st], |steps|, {});
    CertifiedAppend(md5, pro, steps, [st], |steps|);
    assert next[|steps|] == st;
  }

  lemma RetriedAppendStep(md5: Hash, fc: Fastcoll, pro: seq<byte>, steps: seq<Step>, st: Step)
    requires Retried(md5, fc, pro, steps, |steps|)
    requires var prefix := Lay(pro, steps, |steps|, {}) + st.align;
             |prefix| % 64 == 0 && FirstAccepted(md5, fc, prefix, st.charImg, CollisionPair(st.img, st.nop))
    ensures Retried(md5, fc, pro, steps + [st], |steps| + 1)
  {
    var next := steps + [st];
    LayAppend(pro, steps, [st], |steps|, {});
    RetriedAppend(md5, fc, pro, steps, [st], |steps|);
    assert next[|steps|] == st;
  }

  /** Appending steps leaves the earlier steps' choices as they were. */
  lemma {:induction false} RetriedAppend(md5: Hash, fc: Fastcoll, pro: seq<byte>, steps: seq<Step>, more: seq<Step>, n: nat)
    requires n <= |steps|
    ensures Retried(md5, fc, pro, steps + more, n) == Retried(md5, fc, pro, steps, n)
  {
    hide FirstAccepted;
    if n > 0 {
      RetriedAppend(md5, fc, pro, steps, more, n - 1);
      LayAppend(pro, steps, more, n - 1, {});
      assert (steps + more)[n - 1] == steps[n - 1];
    }
  }

  lemma KeysOfAppend(steps: seq<Step>, st: Step)
    ensures KeysOf(steps + [st]) == KeysOf(steps) + [KeyOf(st)]
  {
    var next := steps + [st];
    assert forall k :: 0 <= k < |steps| ==> next[k] == steps[k];
  }

  lemma AllDrawnAppend(hq: Hashquine, steps: seq<Step>, st: Step)
    requires Valid(hq) && AllDrawn(hq, steps) && Drawn(hq, st)
    ensures AllDrawn(hq, steps + [st])
  {
    var next := steps + [st];
    forall k | 0 <= k < |next| ensures Drawn(hq, next[k]) {
      if k < |steps| {
        assert next[k] == steps[k];
      }
    }
  }

  /** Position p contributes its sixteen keys when blank, none otherwise. */
  lemma KeysUpToNext(mask: string, p: nat)
    requires p < |mask|
    ensures mask[p] == ' ' ==> KeysUpTo(mask, p + 1) == KeysUpTo(mask, p) + DigitKeys(p, 16)
    ensures mask[p] != ' ' ==> KeysUpTo(mask, p + 1) == KeysUpTo(mask, p)
  {
    assert KeysUpTo(mask, p) + [] == KeysUpTo(mask, p);
  }

  lemma DigitKeysStep(p: nat, c: nat)
    ensures DigitKeys(p, c + 1) == DigitKeys(p, c) + [(p, c)]
  {
  }

  /** The key after the first c digits of position p, added to the keys
      before p, stays among the keys up to and including p. */
  lemma NextKeyWithin(before: seq<Key>, p: nat, c: nat)
    requires c < 16
    ensures before + DigitKeys(p, c) + [(p, c)] <= before + DigitKeys(p, 16)
  {
    var a := before + DigitKeys(p, c) + [(p, c)];
    assert a == (before + DigitKeys(p, 16))[..|a|];
  }

  lemma PrefixTrans(a: seq<Key>, b: seq<Key>, c: seq<Key>)
    requires a <= b && b <= c
    ensures a <= c
  {
    assert c[..|a|] == c[..|b|][..|a|];
  }
}
