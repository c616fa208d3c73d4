# GIF MD5 hashquine generator, modelled in Dafny

The generator (`generate.py`, class `Hashquine`, with `collide.py`) builds
a GIF89a file that shows its own MD5 digest. It works in four stages:

1. **Read the templates.** It reads a background image and sixteen glyph
   images, one per hex digit. It checks each one's fixed-size fields and
   walks its image data sub-blocks.
2. **Build one long comment.** For every blank position of the display
   mask and every hex digit it aligns the stream to 64 bytes and asks
   fastcoll for an MD5 collision pair. It keeps the first pair that passes
   the acceptance test. It then appends the hidden block, filler, the
   glyph's image record and a re-opened comment. The visible block is
   recorded in the `alternatives` table.
3. **Brute-force the end bytes.** It tries a 32-bit counter in a final
   comment sub-block until the digest matches the mask's fixed digits.
4. **Show the digest.** It swaps in, at each blank position, the visible
   block for the digest's digit there. Swapping colliding blocks keeps the
   digest.

Modules follow the program's structure:

| module | what it models |
|---|---|
| `Wrappers`, `Bytes` | result types; zero filler and `struct` packing |
| `SubBlocks` | GIF data sub-blocks and the walker that skips them |
| `Digests` | digests, hex digits, the mask match, and the chaining assumption about MD5 |
| `Template` | `read_gif` |
| `Loader` | `__init__`: loading and the glyph size check |
| `Collide` | `collide.collide` |
| `Layout` | the byte layout of one step: alignment, glyph record, acceptance test, filler |
| `Keys` | the keys of the `alternatives` table and the loops' visiting order |
| `Stream` | the stream as data: prologue, steps, slots, table, digest invariance |
| `Assemble` | the two nested loops with the retry loop |
| `Finish` | the brute force and the substitution |
| `Quine` | `generate` end to end, and what its output shows |

Some things are function-valued parameters, never bodies:

- MD5 is `Hash = seq<byte> -> Digest`.
- fastcoll is `Fastcoll = (seq<byte>, nat) -> (seq<byte>, seq<byte>)`. The
  number is the attempt number within one retry loop, standing for
  fastcoll's randomness.

One fact about MD5 is stated as an explicit assumption: two colliding
blocks after the same 64-byte-aligned prefix leave MD5 in the same internal
state (`Digests.CollisionsChain`). Every lemma that needs it takes it as a
hypothesis; nothing else depends on it.

## Model

| member | source | states |
|---|---|---|
| Template.ReadGif | generate.py:64-66 | Rejects the file with the header error exactly when its first six bytes are missing or are neither `GIF87a` nor `GIF89a` |
| Template.ReadGifSound | generate.py:63-81 | A file read_gif accepts yields a well-formed template: signature, screen descriptor ending `e3 10 00`, 48-byte colour table, image descriptor starting `0x2c` with a zero last byte, and image data that is the LZW byte, sub-blocks and a terminator; the pieces, with the trailer `0x3b`, are the start of the file |
| Template.ReadGifComplete | generate.py:63-81 | Every well-formed template, followed by any bytes, is accepted and split back into exactly its pieces (the reader inverts serialisation) |
| Loader.LoadGlyphs | generate.py:49-55 | The glyph loop from digit i succeeds exactly when every later glyph reads and has glyph 0's size; it then returns each glyph's image data in digit order; a failure is a read error or a size mismatch |
| Loader.Load | generate.py:46-55 | Loading succeeds exactly when the background and every glyph read and all glyphs share glyph 0's width and height; the result holds the background's pieces, each digit's image data, glyph 0's width and height as the glyph size, the fixed mask and the hash row's top and left edge, and all are well framed |
| Bytes.UnpackPackU16 | generate.py:116-117 | A 16-bit field packed little-endian anywhere in a byte string unpacks back to its value |
| Bytes.PackU32Injective | generate.py:154-157 | Distinct 32-bit counters pack to distinct bytes |
| Collide.Collide | collide.py:64-70 | Returns a pair exactly when fastcoll's blocks differ, hash alike after the prefix, are both 128 bytes and differ at byte 123; the pair is those two blocks, ordered so the first has the smaller byte 123 |
| Layout.AlignmentStep | generate.py:120-123 | The alignment bytes bring the stream to a multiple of 64; their size byte is in 123..186; with a 128-byte block after them they form one comment sub-block ending just before collision byte 123 |
| Layout.DescriptorDecodes | generate.py:115-118 | A glyph's image descriptor is one read_gif accepts and unpacks to its left, top, width and height |
| Layout.HiddenSegmentIsComment | generate.py:138-149 | With the hidden block in its slot, everything a step appends, glyph record included, is comment sub-blocks with no terminator |
| Layout.VisibleSegmentShowsGlyph | generate.py:130-149 | With the visible block and a passing pair, the segment has the hidden one's length: comment sub-blocks up to a terminator, the glyph record, then a re-opened comment whose sub-blocks run to the segment's end |
| Layout.EmptyFillerClosesComment | generate.py:134-135 | A concrete pair the source accepts with `pad_len == 0`: the re-opened comment closes at once and the byte after it is not a block introducer |
| Keys.KeysUpToMembers | generate.py:110-114 | The loops visit exactly the keys (blank position, digit 0..15) |
| Keys.KeysUpToSorted | generate.py:110-114 | The loops visit keys in strictly increasing (position, digit) order, so none twice |
| Keys.KeysUpToPrefix | generate.py:110-114 | The keys visited before position p come first among those visited before any later position |
| Keys.KeysUpToCount | generate.py:110-114 | The loops make sixteen steps per blank position |
| Stream.Prologue | generate.py:90-106 | The prologue ends by opening the comment that every later step continues |
| Stream.PrologueBlocks | generate.py:90-106 | For a well-formed background, the prologue is the background's header, screen descriptor and colour table; then a Comment Extension whose one sub-block holds the 102-byte descriptive comment and which a terminator closes; then the Graphic Control Extension, the background's Image Descriptor and image data; then the opened comment |
| Stream.LaySlot | generate.py:139-140 | Each step's 128-byte slot sits at its recorded offset and holds the visible block exactly when the step's key is shown |
| Stream.SlotAligned | generate.py:121-129 | Every collision block starts on a 64-byte boundary, as collide requires of its prefix |
| Stream.SlotsIncrease | generate.py:139-149 | The slots come in step order and do not overlap |
| Stream.TableLookup | generate.py:139 | The table maps a step's key to its slot offset and visible block |
| Stream.TableKeys | generate.py:139 | The table has no key that is not a step's |
| Stream.HiddenBodyIsComment | generate.py:106-149 | After the prologue, the stream the loops build is one run of comment sub-blocks |
| Stream.ShowingKeepsState | generate.py:174-177 | Under the chaining assumption, showing any set of visible blocks leaves MD5 in the state of the hidden stream |
| Assemble.FindCollision | generate.py:125-137 | Every run before the deciding one returned a pair that failed the test; success returns the deciding run's pair, which collides and passes the test; failure is collide's error on that run, or no passing pair within the attempt budget |
| Assemble.FirstAcceptedUnique | generate.py:125-137 | The retry loop's choice is determined by fastcoll's runs: only one pair is the first to pass |
| Assemble.LeftAtIsLinear | generate.py:109-111 | Position p's glyph has its left edge at `left + (p + 1) * width`, blank or not |
| Assemble.PlaceDigit | generate.py:114-137 | A step holds the digit's glyph record at its position's left edge, the alignment for the stream, and fastcoll's first passing pair within the attempt budget; a failure is `CollisionFailed` carrying the error of a run of `collide` that failed after every earlier pair was rejected, or `NoAcceptedPair` when all `maxTries` pairs were rejected |
| Assemble.StoppedExcludesAccepted | generate.py:125-137 | When fastcoll has a run whose pair is the first to pass, the retry loop can stop only on the attempt budget, never on a failure of `collide` |
| Assemble.Extend | generate.py:139-149 | Recording a step and appending the hidden block and tail extends the stream, the table and the key list by exactly that step |
| Assemble.PlacePosition | generate.py:113-149 | A blank position appends sixteen steps, for digits 0..15 in order; on failure, some digit c's retry loop gave up after a sound build holding the digits before c |
| Assemble.Advance | generate.py:110-149 | One outer pass adds nothing for a fixed position and sixteen steps for a blank one; it fails on an oversized left edge only at a blank position, and otherwise only when the retry loop for some key up to this position gave up after a sound build of the keys before it |
| Assemble.Assemble | generate.py:88-149 | On success: one step per (blank position, digit) in loop order, each laid out, drawn and taken from fastcoll as the loop body does; `CoordinateOverflow` only after a sound build of every key before a blank position whose left edge does not fit 16 bits; `CollisionFailed` and `NoAcceptedPair` only when, after a sound build of the keys before some key, that key's retry loop gave up |
| Assemble.BuiltUnique | generate.py:88-149 | For the same MD5, fastcoll runs and templates, the loops have only one consistent result |
| Finish.EndBytesCloseComment | generate.py:154-157 | The end bytes are one 4-byte sub-block holding the counter, a terminator, and the trailer |
| Finish.EndBytesInjective | generate.py:153-157 | Distinct counters give distinct end bytes |
| Finish.MaskAgrees | generate.py:160-163 | The scan accepts exactly when each non-space mask character is the digest's hex digit there |
| Digests.UnmatchableMask | generate.py:160-163 | A mask character that is neither a space nor a lower-case hex digit is never matched |
| Finish.FindGarbage | generate.py:151-167 | Returns the least counter below 2^32 whose end bytes make the digest match the mask, or none when no counter does |
| Digests.HexRebuildsBytes | generate.py:170-173 | The two hex digits of each digest byte, read back with `int(c, 16)`, rebuild the byte |
| Finish.DigitKey | generate.py:173 | The table key at position q is q and the digest's digit there |
| Finish.Splice | generate.py:174-177 | Splicing a block inside the file keeps its length, places the block at the offset and changes no other byte |
| Finish.Substitute | generate.py:170-177 | The substitution succeeds exactly when every blank position's (position, digest digit) key is in the table |
| Finish.OrderedKeysDistinct | generate.py:110-114 | Steps in loop order have distinct keys covering every (blank position, digit) |
| Finish.ShowOne | generate.py:174-177 | Showing one more key changes the stream by splicing that step's visible block at its recorded offset |
| Finish.SubstituteShows | generate.py:170-177 | On the loops' stream plus end bytes, the substitution succeeds and yields the same layout with exactly the digest's keys shown |
| Quine.Generate | generate.py:83-179 | On success the output is built from a consistent loop result and the least hitting counter, showing the hidden file's digest; `DigestNotFound` only when no counter hits; `CoordinateOverflow`, `CollisionFailed` and `NoAcceptedPair` exactly where the loops stop, as for `Assemble` |
| Quine.ProducedUnique | generate.py:83-179 | The output is determined by MD5, fastcoll's runs and the templates |
| Quine.ShowingKeepsDigest | generate.py:169-178 | Under the chaining assumption, showing blocks does not change the file's digest |
| Quine.OutputMatchesMask | generate.py:169-178 | Under the chaining assumption, the output's digest is the one its blocks spell out, and it matches the mask |
| Quine.OutputShowsDigest | generate.py:170-177 | Each step belongs to a blank position and a digit; its slot holds the visible block exactly when that digit is the digest's digit there |
| Quine.OutputKeepsOtherBytes | generate.py:170-177 | The substitution keeps the file's length, and every byte outside the 128-byte slots of the steps showing the digest's digits is the hidden file's byte |
| Quine.OutputDrawsDigit | generate.py:114-149 | Each step's bytes in the output are its segment, visible exactly for the digest's digit; its glyph record is that digit's glyph at the position's left edge |
| Quine.HiddenFileIsOneComment | generate.py:106-165 | A decoder walks the file before substitution from the prologue's comment over every glyph record to the end bytes' terminator, then reaches the trailer |

## Left out

- FindCollision: the source's retry loop (generate.py:125) is `while True`. The model stops after `maxTries` runs with `NoAcceptedPair`, because an unbounded search over fastcoll's runs has no terminating model.
- FindCollision: it accepts a pair only when `pad_len >= 1`, where line 135 accepts `pad_len >= 0`. The as-written test is `Layout.FeasibleAsWritten`; see Findings for why `pad_len == 0` breaks the file.
- PlaceDigit: calls `FindCollision`, so it stops after `maxTries` runs with `NoAcceptedPair` and returns only pairs with `pad_len >= 1`, where line 135 also keeps `pad_len == 0`.
- PlacePosition: inherits from `PlaceDigit` the `maxTries` cap with `NoAcceptedPair` and the corrected acceptance test (`pad_len >= 1`).
- Advance: inherits from `PlacePosition` the `maxTries` cap with `NoAcceptedPair` and the corrected acceptance test (`pad_len >= 1`).
- Extend: requires a step whose pair passes the corrected acceptance test (`pad_len >= 1`); lines 139-149 append any pair line 135 accepts, `pad_len == 0` included.
- Assemble: `maxTries` and `NoAcceptedPair` carry over from `FindCollision`, and so does the corrected acceptance test.
- Generate: `maxTries` and `NoAcceptedPair` carry over from `FindCollision`, and so does the corrected acceptance test.
- VisibleSegmentShowsGlyph: requires the corrected test (`pad_len >= 1`), because with `pad_len == 0` the visible layout it states does not hold (see Findings).
- ReadGif: reading past the end of the file gives `Truncated`. Python fails differently: an `IndexError`, a failed assertion, or, inside the sub-block loop of generate.py:75-79 where `read` at end of file returns nothing, a loop that never ends. The model treats all of these as one error.
- Collide: the temporary files, the subprocess call and the file reads of collide.py:42-62 are left out. fastcoll's two outputs, with the prefix already stripped, are the parameter's value.
- Collide: a failed assertion in `collide` ends generation in the source (`AssertionError`, not retried). The model follows the code: `CollisionFailed` stops `Generate`.
- MD5 is a parameter. The property that colliding blocks leave MD5 in the same state is the assumption `CollisionsChain`; `OutputMatchesMask`, `ShowingKeepsDigest` and `ShowingKeepsState` hold relative to it.
- The brute force's `current_md5.copy()` and `update(end)` (generate.py:151-159) are modelled as the digest of the concatenation.
- Image data is not LZW-decoded; only its sub-block framing is modelled.
- Timing and progress output (`time.time()`, `print`, generate.py:36, 43, 126-128, 137, 152, 169, 178) have no effect on the output and are left out.
- Creating the `tmp` directory (generate.py:42-44) and the `run` method, which writes the output file, are I/O and are left out.
- Templates are passed as byte strings, not read from `template_dir`.
- Load: the packing of `top`, `char_width` and `char_height` in generate.py:116-117 cannot overflow. `top` is 102 and the sizes were unpacked from 16-bit fields, so only the left edge is checked (`CoordinateOverflow`).

## Findings

| source | as written | input that shows it | evidently intended | confidence | as-written member | corrected member |
|---|---|---|---|---|---|---|
| generate.py:134-135 | A collision pair is accepted when `coll_p_img >= 0 and pad_len >= 0`. With `pad_len == 0`, line 148 writes a size byte of 0: a Block Terminator that closes the re-opened comment at once. A decoder then reads the next step's alignment size byte (123..186) or the end bytes' `04` where a block introducer (`0x21`, `0x2c` or `0x3b`) must stand. | A 20-byte glyph record, visible block byte 123 = 4, hidden block byte 123 = 28: `coll_p_img = 0`, `pad_len = 24 - 0 - 20 - 4 = 0` | `pad_len >= 1`, so the re-opened comment has a non-empty filler sub-block and runs to the end of the hidden block's sub-block | high; not executed | Layout.EmptyFillerClosesComment | Layout.VisibleSegmentShowsGlyph |
