/** Template loading (generate.py, `Hashquine.__init__`): the background and
    the sixteen glyph images are read, and every glyph must have the width
    and height of the glyph for digit 0. The template files are given as
    byte sequences, indexed by hex digit value. */
module Loader {
  import opened Wrappers
  import opened Bytes
  import opened Template

  datatype LoadError =
    | BadBackground(error: FormatError)
    | BadGlyph(digit: nat, error: FormatError)
    | GlyphSizeMismatch(digit: nat)

  /** Hex digits already drawn in the background; a space marks a position
      whose glyph the hashquine draws itself. */
  const MD5_MASK: string := "           d5    dead           "
  /** `hash_img_coordinates`: the glyph row's top, and the left edge the
      first glyph's width is added to. */
  const HASH_TOP: nat := 102
  const HASH_LEFT: nat := 143

  /** The loaded generator: the background's pieces, the image data of the
      glyph for each hex digit, the common glyph size, and the settings. */
  datatype Hashquine = Hashquine(background: GifBlocks, glyphs: seq<seq<byte>>,
                                 charWidth: nat, charHeight: nat,
                                 mask: string, top: nat, left: nat)

  /** Width and height of an Image Descriptor: `struct.unpack('<HH', d[5:9])`. */
  function Dimensions(desc: seq<byte>): (nat, nat)
    requires |desc| >= 9
  {
    (UnpackU16(desc, 5), UnpackU16(desc, 7))
  }

  /** A glyph file that reads as a template and has the given size. */
  predicate GlyphFits(file: seq<byte>, size: (nat, nat)) {
    && ReadGif(file).Success?
    && |ReadGif(file).value.descriptor| >= 9
    && Dimensions(ReadGif(file).value.descriptor) == size
  }

  /** What the rest of the generator relies on after loading. */
  predicate Valid(hq: Hashquine) {
    && WellFormed(hq.background)
    && |hq.glyphs| == 16
    && (forall d :: 0 <= d < 16 ==> WellFramedImageData(hq.glyphs[d]))
    && hq.charWidth < 0x1_0000 && hq.charHeight < 0x1_0000
    && |hq.mask| == 32
    && hq.top < 0x1_0000
  }

  /** `glyphs` are the image data of files i.. in order, each of them a
      template of the given size. */
  predicate LoadedFrom(files: seq<seq<byte>>, i: nat, size: (nat, nat), glyphs: seq<seq<byte>>) {
    && i + |glyphs| == |files|
    && forall j :: i <= j < |files| ==>
         GlyphFits(files[j], size) && glyphs[j - i] == ReadGif(files[j]).value.imageData
  }

  /** The glyph loop of `__init__` from digit i on, against the size of
      glyph 0: the image data of each glyph, or the first failure. */
  function LoadGlyphs(files: seq<seq<byte>>, i: nat, size: (nat, nat)): (r: Result<seq<seq<byte>>, LoadError>)
    requires i <= |files|
    ensures r.Success? <==> forall j :: i <= j < |files| ==> GlyphFits(files[j], size)
    ensures r.Success? ==> LoadedFrom(files, i, size, r.value)
    ensures r.Failure? ==> r.error.BadGlyph? || r.error.GlyphSizeMismatch?
    decreases |files| - i
  {
    if i == |files| then Success([])
    else match ReadGif(files[i])
      case Failure(e) => Failure(BadGlyph(i, e))
      case Success(b) =>
        ReadGifSound(files[i]);
        if Dimensions(b.descriptor) != size then Failure(GlyphSizeMismatch(i))
        else match LoadGlyphs(files, i + 1, size)
          case Failure(e) => Failure(e)
          case Success(rest) =>
            LoadedPrepend(files, i, size, rest);
            Success([b.imageData] + rest)
  }

  /** The glyph of digit i in front of those after it. */
  lemma LoadedPrepend(files: seq<seq<byte>>, i: nat, size: (nat, nat), rest: seq<seq<byte>>)
    requires i < |files| && GlyphFits(files[i], size) && LoadedFrom(files, i + 1, size, rest)
    ensures LoadedFrom(files, i, size, [ReadGif(files[i]).value.imageData] + rest)
  {
    var glyphs := [ReadGif(files[i]).value.imageData] + rest;
    forall j | i + 1 <= j < |files|
      ensures GlyphFits(files[j], size) && glyphs[j - i] == ReadGif(files[j]).value.imageData
    {
      assert glyphs[j - i] == rest[j - (i + 1)];
    }
  }

  /** `Hashquine.__init__`: succeeds exactly when the background and every
      glyph read as templates and all glyphs share glyph 0's size. */
  function Load(background: seq<byte>, glyphFiles: seq<seq<byte>>): (r: Result<Hashquine, LoadError>)
    requires |glyphFiles| == 16
    ensures r.Success? <==>
              && ReadGif(background).Success?
              && ReadGif(glyphFiles[0]).Success?
              && forall d :: 0 <= d < 16 ==> GlyphFits(glyphFiles[d], Dimensions(ReadGif(glyphFiles[0]).value.descriptor))
    ensures r.Success? ==> Valid(r.value)
    ensures r.Success? ==> r.value.background == ReadGif(background).value
    ensures r.Success? ==>
              && (r.value.charWidth, r.value.charHeight) == Dimensions(ReadGif(glyphFiles[0]).value.descriptor)
              && r.value.mask == MD5_MASK && r.value.top == HASH_TOP && r.value.left == HASH_LEFT
    ensures r.Success? ==> forall d :: 0 <= d < 16 ==> r.value.glyphs[d] == ReadGif(glyphFiles[d]).value.imageData
  {
    match ReadGif(background)
    case Failure(e) => Failure(BadBackground(e))
    case Success(bg) =>
      ReadGifSound(background);
      match ReadGif(glyphFiles[0])
      case Failure(e) => Failure(BadGlyph(0, e))
      case Success(first) =>
        ReadGifSound(glyphFiles[0]);
        var size := Dimensions(first.descriptor);
        match LoadGlyphs(glyphFiles, 0, size)
        case Failure(e) => Failure(e)
        case Success(glyphs) =>
          GlyphsWellFramed(glyphFiles, glyphs, size);
          Success(Hashquine(bg, glyphs, size.0, size.1, MD5_MASK, HASH_TOP, HASH_LEFT))
  }

  /** Loaded glyph image data is well framed, as the template reader
      guarantees for each file. */
  lemma GlyphsWellFramed(files: seq<seq<byte>>, glyphs: seq<seq<byte>>, size: (nat, nat))
    requires LoadedFrom(files, 0, size, glyphs)
    ensures forall j :: 0 <= j < |glyphs| ==> WellFramedImageData(glyphs[j])
  {
    forall j | 0 <= j < |glyphs| ensures WellFramedImageData(glyphs[j]) {
      assert GlyphFits(files[j], size) && glyphs[j - 0] == ReadGif(files[j]).value.imageData;
      ReadGifSound(files[j]);
    }
  }
}
