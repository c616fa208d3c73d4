/** The byte layout of one hashquine digit (generate.py, the body of the
    `for char in range(16)` loop): the alignment comment sub-block, the
    collision block, and the glyph record a comment sub-block hides unless
    the visible collision block is swapped in. */
module Layout {
  import opened Wrappers
  import opened Bytes
  import opened SubBlocks
  import opened Collide
  import Template

  /** Graphic Control Extension (section 23 of GIF89a) put before every
      image: block size 4, disposal "do not dispose", delay 2, no
      transparency, terminator. */
  const GRAPHIC_CONTROL_EXTENSION: seq<byte> := [0x21, 0xf9, 0x04, 0x04, 0x02, 0x00, 0x00, 0x00]
  /** Extension Introducer and Comment Label (section 24 of GIF89a). */
  const COMMENT_START: seq<byte> := [0x21, 0xfe]
  /** Collision bytes after the last differing one (`offset`, line 131). */
  const AFTER_DIFF: nat := COLLISION_LEN - COLLISION_LAST_DIFF - 1
  /** Bytes between the glyph record's neighbours that are not filler: the
      Block Terminator before it, and the comment start and filler size byte
      after it. */
  const FRAMING_LEN: nat := 4

  /** The alignment step (lines 121-123): a comment sub-block size byte and
      zero filler that bring the stream to a multiple of 64 bytes. */
  function AlignBytes(len: nat): (a: seq<byte>)
    ensures 1 <= |a| <= 64
  {
    var align := 64 - len % 64;
    [(align - 1 + COLLISION_LAST_DIFF) as byte] + Zeros(align - 1)
  }

  /** The alignment step aligns the stream, and its size byte, in
      COLLISION_LAST_DIFF..COLLISION_LAST_DIFF+63, opens a sub-block that
      ends exactly at collision byte 122: collision byte 123 is read as the
      next sub-block's size byte. */
  lemma AlignmentStep(len: nat, block: seq<byte>)
    requires |block| == COLLISION_LEN
    ensures (len + |AlignBytes(len)|) % 64 == 0
    ensures COLLISION_LAST_DIFF <= AlignBytes(len)[0] as int <= COLLISION_LAST_DIFF + 63
    ensures Chain((AlignBytes(len) + block)[..|AlignBytes(len)| + COLLISION_LAST_DIFF])
  {
    AlignedLength(len);
    AlignSizeByte(len);
    var a := AlignBytes(len);
    var data := Zeros(|a| - 1) + block[..COLLISION_LAST_DIFF];
    assert |data| == a[0] as int;
    assert (a + block)[..|a| + COLLISION_LAST_DIFF] == [a[0]] + data;
  }

  lemma AlignedLength(len: nat)
    ensures (len + |AlignBytes(len)|) % 64 == 0
  {
    var q := len / 64;
    assert len == 64 * q + len % 64;
    assert len + |AlignBytes(len)| == 64 * (q + 1);
  }

  /** The size byte counts the rest of the alignment filler plus the
      collision bytes before the last differing one. */
  lemma AlignSizeByte(len: nat)
    ensures AlignBytes(len)[0] as int == |AlignBytes(len)| - 1 + COLLISION_LAST_DIFF
  {
    var size := 64 - len % 64 - 1 + COLLISION_LAST_DIFF;
    assert AlignBytes(len)[0] == size as byte;
  }

  /** The Image Descriptor of a glyph: `b'\x2c%s\x00' % struct.pack('<HHHH',
      left, top, width, height)`. */
  function Descriptor(left: nat, top: nat, width: nat, height: nat): (d: seq<byte>)
    requires left < 0x1_0000 && top < 0x1_0000 && width < 0x1_0000 && height < 0x1_0000
    ensures |d| == Template.DESCRIPTOR_LEN
  {
    [Template.IMAGE_SEPARATOR] + PackU16(left) + PackU16(top) + PackU16(width) + PackU16(height) + [0]
  }

  /** A glyph descriptor is one read_gif would accept, and decodes back to
      its position and size. */
  lemma DescriptorDecodes(left: nat, top: nat, width: nat, height: nat)
    requires left < 0x1_0000 && top < 0x1_0000 && width < 0x1_0000 && height < 0x1_0000
    ensures var d := Descriptor(left, top, width, height);
            && Template.PlainDescriptor(d)
            && UnpackU16(d, 1) == left && UnpackU16(d, 3) == top
            && UnpackU16(d, 5) == width && UnpackU16(d, 7) == height
  {
    var d := Descriptor(left, top, width, height);
    UnpackPackU16(left, [Template.IMAGE_SEPARATOR], PackU16(top) + PackU16(width) + PackU16(height) + [0]);
    assert d == [Template.IMAGE_SEPARATOR] + PackU16(left) + (PackU16(top) + PackU16(width) + PackU16(height) + [0]);
    UnpackPackU16(top, [Template.IMAGE_SEPARATOR] + PackU16(left), PackU16(width) + PackU16(height) + [0]);
    assert d == [Template.IMAGE_SEPARATOR] + PackU16(left) + PackU16(top) + (PackU16(width) + PackU16(height) + [0]);
    UnpackPackU16(width, [Template.IMAGE_SEPARATOR] + PackU16(left) + PackU16(top), PackU16(height) + [0]);
    assert d == [Template.IMAGE_SEPARATOR] + PackU16(left) + PackU16(top) + PackU16(width) + (PackU16(height) + [0]);
    UnpackPackU16(height, [Template.IMAGE_SEPARATOR] + PackU16(left) + PackU16(top) + PackU16(width), [0]);
  }

  /** The glyph record `char_img` (lines 115-118): Graphic Control
      Extension, Image Descriptor, the glyph's image data. */
  function CharImage(left: nat, top: nat, width: nat, height: nat, glyph: seq<byte>): (c: seq<byte>)
    requires left < 0x1_0000 && top < 0x1_0000 && width < 0x1_0000 && height < 0x1_0000
    ensures |c| == |GRAPHIC_CONTROL_EXTENSION| + Template.DESCRIPTOR_LEN + |glyph|
  {
    GRAPHIC_CONTROL_EXTENSION + Descriptor(left, top, width, height) + glyph
  }

  /** `coll_p_img`: the zero filler after the visible block before its
      comment is closed. */
  function ImgSkip(img: seq<byte>): (skip: int)
    requires |img| == COLLISION_LEN
  {
    img[COLLISION_LAST_DIFF] as int - AFTER_DIFF
  }

  /** `pad_len`: the filler of the re-opened comment after the glyph. */
  function PadLen(charImg: seq<byte>, img: seq<byte>, nop: seq<byte>): (pad: int)
    requires |img| == COLLISION_LEN && |nop| == COLLISION_LEN
  {
    (nop[COLLISION_LAST_DIFF] as int - AFTER_DIFF) - ImgSkip(img) - |charImg| - FRAMING_LEN
  }

  /** The acceptance test of line 135, as written. */
  predicate FeasibleAsWritten(charImg: seq<byte>, img: seq<byte>, nop: seq<byte>) {
    && |img| == COLLISION_LEN && |nop| == COLLISION_LEN
    && ImgSkip(img) >= 0 && PadLen(charImg, img, nop) >= 0
  }

  /** The acceptance test the layout needs: the filler sub-block after the
      glyph must be non-empty, or its size byte is a Block Terminator. */
  predicate Feasible(charImg: seq<byte>, img: seq<byte>, nop: seq<byte>) {
    && |img| == COLLISION_LEN && |nop| == COLLISION_LEN
    && ImgSkip(img) >= 0 && PadLen(charImg, img, nop) >= 1
  }

  /** What follows the collision block (lines 142-149). */
  function Tail(charImg: seq<byte>, img: seq<byte>, nop: seq<byte>): (t: seq<byte>)
    requires FeasibleAsWritten(charImg, img, nop)
    ensures |t| == nop[COLLISION_LAST_DIFF] as int - AFTER_DIFF
  {
    var pad := PadLen(charImg, img, nop);
    Zeros(ImgSkip(img)) + [0] + charImg + COMMENT_START + [pad as byte] + Zeros(pad)
  }

  /** Everything one (position, digit) step appends to a stream of length
      `len`, with the visible or the hidden block in the collision slot. */
  function Segment(len: nat, charImg: seq<byte>, img: seq<byte>, nop: seq<byte>, visible: bool): (s: seq<byte>)
    requires FeasibleAsWritten(charImg, img, nop)
    ensures |s| == |AlignBytes(len)| + COLLISION_LEN + |Tail(charImg, img, nop)|
  {
    AlignBytes(len) + (if visible then img else nop) + Tail(charImg, img, nop)
  }

  /** Hidden framing: with `nop` in place the whole segment is comment
      sub-blocks (no terminator), so a decoder skips the glyph record and
      reads the byte after the segment as the next size byte. */
  lemma HiddenSegmentIsComment(len: nat, charImg: seq<byte>, img: seq<byte>, nop: seq<byte>)
    requires FeasibleAsWritten(charImg, img, nop)
    ensures Chain(Segment(len, charImg, img, nop, false))
  {
    var a := AlignBytes(len);
    var tail := Tail(charImg, img, nop);
    var s := Segment(len, charImg, img, nop, false);
    var k := |a| + COLLISION_LAST_DIFF;
    AlignmentStep(len, nop);
    assert s[..k] == (a + nop)[..k];
    var data := nop[COLLISION_LAST_DIFF + 1..] + tail;
    assert s[k..] == [nop[COLLISION_LAST_DIFF]] + data;
    OneSubBlock(nop[COLLISION_LAST_DIFF], data);
    ChainAppend(s[..k], s[k..]);
    assert s == s[..k] + s[k..];
  }

  /** Visible framing: with `img` in place the comment ends at the byte
      after the visible block's filler, the glyph record follows as real
      blocks, and a re-opened comment's sub-blocks run to the end of the
      segment, the same place the hidden segment ends. */
  lemma VisibleSegmentShowsGlyph(len: nat, charImg: seq<byte>, img: seq<byte>, nop: seq<byte>)
    requires Feasible(charImg, img, nop)
    ensures var s := Segment(len, charImg, img, nop, true);
            var t := |AlignBytes(len)| + COLLISION_LEN + ImgSkip(img);
            && |s| == |Segment(len, charImg, img, nop, false)|
            && Chain(s[..t]) && s[t] == 0
            && s[t + 1..t + 1 + |charImg|] == charImg
            && s[t + 1 + |charImg|..t + 3 + |charImg|] == COMMENT_START
            && Chain(s[t + 3 + |charImg|..])
  {
    var a := AlignBytes(len);
    var pad := PadLen(charImg, img, nop);
    var head := a + img + Zeros(ImgSkip(img));
    var filler := [pad as byte] + Zeros(pad);
    VisibleHeadIsComment(len, img);
    OneSubBlock(pad as byte, Zeros(pad));
    var s := Segment(len, charImg, img, nop, true);
    assert s == head + [0] + charImg + COMMENT_START + filler;
    GlyphBetweenComments(head, charImg, filler);
  }

  /** The alignment sub-block and the sub-block opened by the visible
      block's byte 123 cover everything up to the visible filler's end. */
  lemma VisibleHeadIsComment(len: nat, img: seq<byte>)
    requires |img| == COLLISION_LEN && ImgSkip(img) >= 0
    ensures Chain(AlignBytes(len) + img + Zeros(ImgSkip(img)))
  {
    var a := AlignBytes(len);
    var head := a + img + Zeros(ImgSkip(img));
    var k := |a| + COLLISION_LAST_DIFF;
    AlignmentStep(len, img);
    var p1 := (a + img)[..k];
    var data := img[COLLISION_LAST_DIFF + 1..] + Zeros(ImgSkip(img));
    var p2 := [img[COLLISION_LAST_DIFF]] + data;
    OneSubBlock(img[COLLISION_LAST_DIFF], data);
    ChainAppend(p1, p2);
    assert head == p1 + p2;
  }

  /** Reading off the parts of `head`, terminator, glyph record, comment
      start, `filler`. */
  lemma GlyphBetweenComments(head: seq<byte>, charImg: seq<byte>, filler: seq<byte>)
    ensures var s := head + [0] + charImg + COMMENT_START + filler;
            var t := |head|;
            && s[..t] == head && s[t] == 0
            && s[t + 1..t + 1 + |charImg|] == charImg
            && s[t + 1 + |charImg|..t + 3 + |charImg|] == COMMENT_START
            && s[t + 3 + |charImg|..] == filler
  {
  }

  /** What line 135 lets through: with a filler length of 0 the re-opened
      comment after a visible glyph is closed by its own size byte, and the
      next byte, the following step's alignment size byte (123..186), is
      read where a block introducer (0x21, 0x2C or 0x3B) must stand. */
  lemma EmptyFillerClosesComment()
    ensures var glyph: seq<byte> := [2, 0];
            var charImg := CharImage(0, 0, 1, 1, glyph);
            var img := Zeros(COLLISION_LEN)[COLLISION_LAST_DIFF := 4];
            var nop := Zeros(COLLISION_LEN)[COLLISION_LAST_DIFF := 28];
            && Template.WellFramedImageData(glyph)
            && FeasibleAsWritten(charImg, img, nop) && !Feasible(charImg, img, nop)
            && var s := Segment(0, charImg, img, nop, true);
               var next := s + AlignBytes(|s|);
               var u := |AlignBytes(0)| + COLLISION_LEN + ImgSkip(img) + 3 + |charImg|;
               && Skip(next, u) == Some(|s|)
               && next[|s|] !in {0x21, 0x2c, 0x3b}
  {
    var glyph: seq<byte> := [2, 0];
    assert Template.WellFramedImageData(glyph) by {
      assert glyph[1..|glyph| - 1] == [];
    }
    var charImg := CharImage(0, 0, 1, 1, glyph);
    var img := Zeros(COLLISION_LEN)[COLLISION_LAST_DIFF := 4];
    var nop := Zeros(COLLISION_LEN)[COLLISION_LAST_DIFF := 28];
    assert |charImg| == 20;
    assert PadLen(charImg, img, nop) == 0;
    var s := Segment(0, charImg, img, nop, true);
    var next := s + AlignBytes(|s|);
    var u := |AlignBytes(0)| + COLLISION_LEN + ImgSkip(img) + 3 + |charImg|;
    assert u == |s| - 1;
    assert next[u] == 0;
    AlignmentStep(|s|, img);
  }
}
