/** The template reader: a parser for the constrained GIF subset the glyph
    and background images must use (generate.py, `Hashquine.read_gif`).
    Files are given as in-memory byte sequences. */
module Template {
  import opened Wrappers
  import opened Bytes
  import opened SubBlocks

  /** The assertion of read_gif that failed. */
  datatype FormatError =
    | BadHeader            // not GIF87a / GIF89a
    | BadScreenDescriptor  // not a 16-colour Global Color Table
    | BadImageDescriptor   // no Image Separator, or a Local Color Table / interlace flag
    | BadTrailer           // the byte after the image data is not 0x3B
    | Truncated            // the file ends inside a field

  /** The pieces read_gif returns: `header`, `lcd`, `gct`, `img_descriptor`
      and `img_data` (LZW minimum code size, sub-blocks, Block Terminator). */
  datatype GifBlocks = GifBlocks(header: seq<byte>, screen: seq<byte>, colorTable: seq<byte>,
                                 descriptor: seq<byte>, imageData: seq<byte>)

  const GIF87A: seq<byte> := [0x47, 0x49, 0x46, 0x38, 0x37, 0x61]
  const GIF89A: seq<byte> := [0x47, 0x49, 0x46, 0x38, 0x39, 0x61]
  /** Last three bytes of the Logical Screen Descriptor: packed fields 0xE3
      (Global Color Table present, 2^(3+1) = 16 entries), background colour
      index, pixel aspect ratio. */
  const SCREEN_TAIL: seq<byte> := [0xe3, 0x10, 0x00]
  const IMAGE_SEPARATOR: byte := 0x2c
  const TRAILER: byte := 0x3b

  const HEADER_LEN := 6
  const SCREEN_LEN := 7
  const COLOR_TABLE_LEN := 16 * 3
  const DESCRIPTOR_LEN := 10
  /** Offsets of the fields inside a template file. */
  const SCREEN_AT := HEADER_LEN
  const TABLE_AT := SCREEN_AT + SCREEN_LEN
  const DESCRIPTOR_AT := TABLE_AT + COLOR_TABLE_LEN
  const DATA_AT := DESCRIPTOR_AT + DESCRIPTOR_LEN

  predicate IsSignature(h: seq<byte>) {
    h == GIF87A || h == GIF89A
  }

  /** Image data as read_gif accepts it: the LZW minimum code size byte, a
      run of sub-blocks, and the Block Terminator. */
  predicate WellFramedImageData(d: seq<byte>) {
    |d| >= 2 && d[|d| - 1] == 0 && Chain(d[1..|d| - 1])
  }

  /** An Image Descriptor read_gif accepts: Image Separator first, packed
      fields zero (no Local Color Table, not interlaced). */
  predicate PlainDescriptor(desc: seq<byte>) {
    |desc| == DESCRIPTOR_LEN && desc[0] == IMAGE_SEPARATOR && desc[9] == 0
  }

  /** The pieces of a template read_gif accepts. */
  predicate WellFormed(b: GifBlocks) {
    && IsSignature(b.header)
    && |b.screen| == SCREEN_LEN && b.screen[4..] == SCREEN_TAIL
    && |b.colorTable| == COLOR_TABLE_LEN
    && PlainDescriptor(b.descriptor)
    && WellFramedImageData(b.imageData)
  }

  /** The file the pieces were read from, up to and including the trailer. */
  function Serialize(b: GifBlocks): (data: seq<byte>) {
    b.header + b.screen + b.colorTable + b.descriptor + b.imageData + [TRAILER]
  }

  /** `Hashquine.read_gif` over the file's bytes. Each assertion of the
      source is one error; reading past the end of the file is `Truncated`.
      Bytes after the trailer are never read. */
  function ReadGif(data: seq<byte>): (r: Result<GifBlocks, FormatError>)
    ensures r.Failure? && r.error == BadHeader <==> |data| < HEADER_LEN || !IsSignature(data[..HEADER_LEN])
  {
    if |data| < HEADER_LEN || !IsSignature(data[..HEADER_LEN]) then Failure(BadHeader)
    else if |data| < TABLE_AT then Failure(Truncated)
    else if data[TABLE_AT - 3..TABLE_AT] != SCREEN_TAIL then Failure(BadScreenDescriptor)
    else if |data| < DATA_AT then Failure(Truncated)
    else if data[DESCRIPTOR_AT] != IMAGE_SEPARATOR || data[DATA_AT - 1] != 0 then Failure(BadImageDescriptor)
    else if |data| <= DATA_AT then Failure(Truncated)
    else match Skip(data, DATA_AT + 1)
      case None => Failure(Truncated)
      case Some(k) =>
        if k >= |data| || data[k] != TRAILER then Failure(BadTrailer)
        else
          var b := GifBlocks(data[..SCREEN_AT], data[SCREEN_AT..TABLE_AT], data[TABLE_AT..DESCRIPTOR_AT],
                             data[DESCRIPTOR_AT..DATA_AT], data[DATA_AT..k]);
          Success(b)
  }

  /** Soundness of read_gif: what it accepts is well formed, and the pieces
      it returns are, in order, the start of the file. */
  lemma ReadGifSound(data: seq<byte>)
    requires ReadGif(data).Success?
    ensures WellFormed(ReadGif(data).value)
    ensures Serialize(ReadGif(data).value) <= data
  {
    var k := ReadGifCuts(data);
    var b := ReadGif(data).value;
    ImageDataFramed(data, k);
    assert b.screen[4..] == data[TABLE_AT - 3..TABLE_AT];
    CutsConcatenate(data, k);
  }

  /** What an accepted file passed: the checks on its fixed-size fields,
      and a walk of the image data that ends at k, where the trailer
      stands. The pieces are cut at those positions. */
  lemma ReadGifCuts(data: seq<byte>) returns (k: nat)
    requires ReadGif(data).Success?
    ensures DATA_AT < k < |data| && data[k] == TRAILER && Skip(data, DATA_AT + 1) == Some(k)
    ensures IsSignature(data[..HEADER_LEN]) && data[TABLE_AT - 3..TABLE_AT] == SCREEN_TAIL
    ensures data[DESCRIPTOR_AT] == IMAGE_SEPARATOR && data[DATA_AT - 1] == 0
    ensures ReadGif(data).value
            == GifBlocks(data[..SCREEN_AT], data[SCREEN_AT..TABLE_AT], data[TABLE_AT..DESCRIPTOR_AT],
                         data[DESCRIPTOR_AT..DATA_AT], data[DATA_AT..k])
  {
    k := Skip(data, DATA_AT + 1).value;
  }

  /** The image data read_gif cuts out is well framed. */
  lemma ImageDataFramed(data: seq<byte>, k: nat)
    requires DATA_AT < k <= |data| && Skip(data, DATA_AT + 1) == Some(k)
    ensures WellFramedImageData(data[DATA_AT..k])
  {
    hide Skip, Chain;
    SkipIsChain(data, DATA_AT + 1);
    var inner := data[DATA_AT + 1..k - 1];
    assert Chain(inner);
    var d := data[DATA_AT..k];
    SliceOfSlice(data, DATA_AT, k);
    assert d[1..|d| - 1] == inner;
    assert d[|d| - 1] == 0;
  }

  lemma SliceOfSlice(data: seq<byte>, i: nat, k: nat)
    requires i + 2 <= k <= |data|
    ensures data[i..k][1..k - i - 1] == data[i + 1..k - 1]
  {
    var d := data[i..k];
    var a := d[1..k - i - 1];
    var b := data[i + 1..k - 1];
    forall m | 0 <= m < |a| ensures a[m] == b[m] {
      assert a[m] == d[m + 1] == data[i + m + 1];
    }
    assert a == b;
  }

  /** The five fields and the trailer, cut from the file, glue back into
      its first k + 1 bytes. */
  lemma CutsConcatenate(data: seq<byte>, k: nat)
    requires DATA_AT < k < |data| && data[k] == TRAILER
    ensures data[..SCREEN_AT] + data[SCREEN_AT..TABLE_AT] + data[TABLE_AT..DESCRIPTOR_AT]
            + data[DESCRIPTOR_AT..DATA_AT] + data[DATA_AT..k] + [TRAILER] == data[..k + 1]
  {
    assert data[..k + 1] == data[..k] + [TRAILER];
    assert data[..k] == data[..DATA_AT] + data[DATA_AT..k];
    assert data[..DATA_AT] == data[..DESCRIPTOR_AT] + data[DESCRIPTOR_AT..DATA_AT];
    assert data[..DESCRIPTOR_AT] == data[..TABLE_AT] + data[TABLE_AT..DESCRIPTOR_AT];
    assert data[..TABLE_AT] == data[..SCREEN_AT] + data[SCREEN_AT..TABLE_AT];
  }

  /** Completeness of read_gif: every well-formed template, followed by
      anything at all, is accepted and split back into the same pieces. */
  lemma ReadGifComplete(b: GifBlocks, rest: seq<byte>)
    requires WellFormed(b)
    ensures ReadGif(Serialize(b) + rest) == Success(b)
  {
    var data := Serialize(b) + rest;
    var k := DATA_AT + |b.imageData| - 1;
    assert data[..SCREEN_AT] == b.header;
    assert data[SCREEN_AT..TABLE_AT] == b.screen;
    assert data[TABLE_AT..DESCRIPTOR_AT] == b.colorTable;
    assert data[DESCRIPTOR_AT..DATA_AT] == b.descriptor;
    assert data[DATA_AT..k + 1] == b.imageData;
    assert data[TABLE_AT - 3..TABLE_AT] == b.screen[4..];
    assert data[DATA_AT + 1..k] == b.imageData[1..|b.imageData| - 1];
    SkipFindsTerminator(data, DATA_AT + 1, k);
    assert data[k + 1] == TRAILER;
  }
}
