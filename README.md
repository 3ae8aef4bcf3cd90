# pngr in Dafny

A model of pngr, a small PNG reader, and proofs about it. The model covers:

- `PngReader`, which validates the 8-byte PNG signature, frames the file into chunks (length, type, data, CRC) with a single cursor and a saved resume point, and looks ahead for more chunks.
- `PngChunk` and its getters, and `IHDR`, which decodes the image header into the chunk's Meta dictionary.
- `PngData`, which collects chunks, and its colour-type table.
- From `pngr_test.py`:
  - the buffered chunk serialiser `gen_func` and its guard `dothething`;
  - the draft image decoder, which the file keeps inside a string literal. It cuts the decompressed stream into scanlines and reverses the five scanline filters of section 6 of RFC 2083 in place, top to bottom and left to right.

Modules:

- `Bytes`: bytes, big-endian integers, Python slicing.
- `Results`: Option and Result.
- `PngChunks`: reads, chunk records, IHDR, chunk framing and chunk images.
- `PngReading`: the `PngReader` class.
- `PngImageData`: the `PngData` class and the colour types.
- `ChunkSerialiser`: `gen_func`, `dothething`.
- `Scanlines`: geometry and the split.
- `Filters`: the predictors and the row-level reconstruction and filtering functions.
- `Unfiltering`: the in-place unfilter loops over byte arrays, and the image-level round trip.

An open file is modelled by its bytes. A Python exception is modelled as a `Failure`/`None` result. A call to `isinstance` is modelled by the `Object` datatype.

The model follows the code wherever it differs from the PNG format's requirements, except for the corrections listed under Findings (the Paeth estimate, the bytes per pixel and the stride, which `DecodeScanlines` takes from the standard):

- A truncated file yields a short chunk, not an error.
- CRCs are never checked.
- IHDR reads Interlace from the last data byte and raises IndexError on fewer than 10 bytes. It does not validate the header.
- A filter-type byte outside 0–4 leaves its line unchanged rather than being rejected.

## Model

| member | source | states |
|---|---|---|
| `Bytes.BigEndian` | pngr.py:144 | `int.from_bytes(s, 'big')` of k bytes is below 256^k |
| `Bytes.ToBigEndian` | pngr_test.py:111 | `n.to_bytes(k, 'big')` is exactly k bytes long |
| `Bytes.ToBigEndianOfBigEndian` | pngr.py:144 | `int.from_bytes(s, 'big')` loses nothing: written back at the same width it gives `s` again |
| `Bytes.BigEndianOfToBigEndian` | pngr_test.py:111 | `n.to_bytes(k, 'big')` read back with `from_bytes` gives `n` whenever `n` fits `k` bytes |
| `Bytes.PySlice` | pngr_test.py:111-119 | Python slicing, for every sign of the two bounds: a negative bound counts from the end, every bound is clamped into the sequence, and bounds that cross give the empty slice |
| `PngChunks.ReadAt` | pngr.py:97-102 | `read(n)` yields the next `min(n, bytes left)` bytes of the file from the cursor, or none past the end |
| `PngChunks.ReadEnd` | pngr.py:97-102 | after `read(n)` the cursor has moved on by exactly the number of bytes read, so never past the end of the file |
| `PngChunks.IsValid` | pngr.py:59-69 | a file is valid exactly when it has at least 8 bytes and they are the PNG signature |
| `PngChunks.NewChunk` | pngr.py:142-149 | the stored Length is below 256^w for w length bytes; Type, Data and CRC are kept as read; Meta starts empty |
| `PngChunks.NewChunkLength` | pngr.py:144 | the stored Length, encoded big-endian at the width it was read with, gives the length bytes back |
| `PngChunks.Properties` | pngr.py:143-148 | the properties dictionary has exactly the keys Length, Type, Data, CRC, Meta, holding the stored length, type bytes, data bytes, CRC bytes and Meta dictionary |
| `PngChunks.GetProperty` | pngr.py:152-155 | a lookup succeeds exactly for the five property names (KeyError otherwise) and returns the stored Length, Type, Data, CRC or Meta |
| `PngChunks.GetMeta` | pngr.py:165-168 | a lookup succeeds exactly for the keys in Meta (KeyError otherwise) and returns that entry |
| `PngChunks.DecodeIhdr` | pngr.py:176-189 | a non-chunk raises PngError; fewer than 10 data bytes raise IndexError; otherwise Width and Height are the big-endian values of data bytes 0–3 and 4–7, Bit depth and Color type are bytes 8 and 9, Interlace is the last byte, and every other field and Meta entry is kept |
| `PngChunks.HeaderRoundTrip` | pngr.py:183-189 | IHDR applied to the 13-byte encoding of any header recovers its width, height, bit depth, colour type and interlace |
| `PngChunks.FrameStart` | pngr.py:93-94 | reading starts at the cursor, except that at offset 0 it starts at offset 8, past the signature |
| `PngChunks.Frame` | pngr.py:96-104 | the four reads of a chunk end between the start and the end of the file; they consume 12 + Length bytes or stop at the end of the file; the data never exceeds Length |
| `PngChunks.FrameAdvance` | pngr.py:97-103 | with enough bytes left, a frame consumes 12 + L bytes (L the big-endian value of its first four) and holds exactly the type, data and CRC bytes in between |
| `PngChunks.FrameOfImage` | pngr.py:97-103 | framing inverts the chunk image: wherever a chunk image sits in a file, a frame read at its start gives back that chunk and stops right after it |
| `PngReading.PngReader.Open` | pngr.py:72-75 | an opened reader holds the file, its first 8 bytes as the signature, and both cursor and resume point at 0 |
| `PngReading.PngReader.Create` | pngr.py:37-46 | construction fails with PngError exactly when the file is not valid; otherwise it gives a fresh reader at offset 0 |
| `PngReading.PngReader.Read` | pngr.py:97-102 | a read returns the bytes `ReadAt` gives and moves the cursor past exactly those bytes |
| `PngReading.PngReader.Resume` | pngr.py:84-86 | the cursor returns to the saved resume point |
| `PngReading.PngReader.NextChunk` | pngr.py:91-111 | the returned chunk and the new cursor are the frame read from `FrameStart` of the old cursor; the resume point is the new cursor |
| `PngReading.PngReader.HasMore` | pngr.py:115-121 | the answer is yes exactly when at least 12 bytes remain after the cursor; the cursor ends at the resume point |
| `PngReading.PngReader.HasMoreChunk` | pngr.py:113-121 | corrected lookahead: yes exactly when 12 bytes remain from where `next_chunk` will start reading |
| `PngReading.HasMoreCountsSignature` | pngr.py:115-121 | a valid 12-byte file gets a yes from `has_more` at offset 0, yet the chunk `next_chunk` then reads is cut short |
| `PngReading.HasMoreChunkSound` | pngr.py:91-121 | after a yes from the corrected lookahead, the next frame has a full 4-byte type, its Length is the big-endian value of four bytes of the file, and the cursor moves past at least those 8 bytes |
| `PngImageData.ColorTypeInfo` | pngr.py:245-249 | a lookup succeeds exactly for colour types 0, 2, 3, 4 and 6; it gives 1–4 channels; only type 3 requires a palette; types 0 and 4 forbid one |
| `PngImageData.PngData.constructor` | pngr.py:254-260 | a new PngData has no chunks and no IHDR/PLTE positions; it holds the signature only when asked to |
| `PngImageData.PngData.AddChunk` | pngr.py:262-269 | a non-chunk raises PngError and changes nothing; a chunk is appended at the end; earlier chunks are never altered |
| `ChunkSerialiser.SampleChunk` | pngr_test.py:101 | `mylist` is a well-formed chunk with a 28-byte image that starts with the length bytes 0, 0, 0, 25; its Length does not match its 16 data bytes |
| `ChunkSerialiser.GenFunc` | pngr_test.py:103-123 | the pieces yielded, joined in order, are the chunk's byte image; every piece but the last holds exactly `buf` bytes; the last holds 1 to `buf` bytes |
| `ChunkSerialiser.FillPiece` | pngr_test.py:107-122 | one piece is the image bytes from the current offset on; it is `buf` bytes long, or shorter only when it reaches the end of the image |
| `ChunkSerialiser.ReadRegion` | pngr_test.py:109-120 | one pass of the region dispatch yields 1 to `toread` image bytes from the offset; a short read stops at a region boundary or at the end of the image |
| `ChunkSerialiser.LengthRegion` | pngr_test.py:110-111 | a read in the length region yields image bytes without leaving the region; a short read ends at the region's end |
| `ChunkSerialiser.KindRegion` | pngr_test.py:112-113 | a read in the type region yields image bytes without leaving the region; a short read ends at the region's end |
| `ChunkSerialiser.DataRegion` | pngr_test.py:114-115 | a read in the data region yields image bytes without leaving the region; a short read ends at the region's end |
| `ChunkSerialiser.CrcRegion` | pngr_test.py:116-117 | a CRC read addressed from the end of the image, stopping short of the end, yields exactly `toread` image bytes |
| `ChunkSerialiser.CrcTail` | pngr_test.py:118-120 | reading the rest of the CRC yields the image up to its end |
| `ChunkSerialiser.DoTheThing` | pngr_test.py:125-130 | a buffer below 4 yields nothing; otherwise the pieces join to the sample chunk's image; every piece has 1 to `buffer` bytes |
| `Scanlines.BytesPerPixel` | pngr_test.py:28-29 | the filter lookback is the pixel's bits rounded up to whole bytes: exactly 1 for pixels of 8 bits or fewer |
| `Scanlines.Stride` | pngr_test.py:38-39 | a scanline holds the row's bits rounded up to whole bytes |
| `Scanlines.DraftPixelDepth` | pngr_test.py:28-29 | the draft's pixel depth counts only whole bytes per sample: 8 times it is the pixel's bits rounded down by up to 7 bits per channel, and exact when the bit depth is a multiple of 8 |
| `Scanlines.Lines` | pngr_test.py:38-39 | the split gives the stream length divided by stride + 1, rounded up, lines |
| `Scanlines.DraftPixelDepthWholeBytes` | pngr_test.py:28-29 | at bit depths 8 and 16 the draft's pixel depth is the bytes per pixel, and its line length is the stride plus the filter-type byte |
| `Scanlines.DraftPixelDepthSubByte` | pngr_test.py:28-29 | below 8 bits per sample the draft's pixel depth is 0, while the bytes per pixel are at least 1 |
| `Unfiltering.DraftSubByteRowsEmpty` | pngr_test.py:28-48 | below 8 bits per sample (reached by colour type 2) the draft's split cuts the stream into one-byte lines, each only a filter type, so every reconstructed row is empty |
| `Scanlines.LinesJoin` | pngr_test.py:37-39 | the split loses nothing: the lines joined are the stream; every line holds 1 to stride + 1 bytes; all but the last hold stride + 1 |
| `Scanlines.LinesAreFramed` | pngr_test.py:37-39 | split lines are never empty, and none is longer than a line above it |
| `Scanlines.LinesOfConcat` | pngr_test.py:37-39 | splitting a join of full-length lines gives those lines back |
| `Scanlines.SplitLines` | pngr_test.py:37-39 | the split loop's list of slices is `Lines` of the stream |
| `Filters.PaethPredictor` | pngr_test.py:67-93 | the corrected predictor always picks one of left, above and upper-left |
| `Filters.PaethNearest` | pngr_test.py:84-93 | the corrected predictor is nearest to a + b − c, with ties broken in the order left, above, upper-left |
| `Filters.DraftPaethPredictor` | pngr_test.py:84-93 | the draft predictor, with `math.abs` read as the built-in `abs`, still picks one of left, above and upper-left |
| `Filters.Predict` | pngr_test.py:44-93 | type 0 and unknown types predict 0; Sub, Up and Paeth predict one of left, above and upper-left; Average predicts a value between left and above |
| `Filters.DraftPaethDisagrees` | pngr_test.py:84-93 | with left 0 and above = upper-left = 10 the draft predicts 10 and the standard predicts 0, so a byte filtered by the standard comes back 10 too high |
| `Filters.Recon` | pngr_test.py:43-94 | a reconstructed row has as many bytes as its filtered row |
| `Filters.NoneUnchanged` | pngr_test.py:44-45 | type 0, and any type outside 1–4, leaves the bytes as they are |
| `Filters.SubAddsLeft` | pngr_test.py:46-48 | Sub keeps the first bpp bytes and adds the reconstructed byte bpp to the left to every later one, mod 256 |
| `Filters.UpAddsAbove` | pngr_test.py:49-55 | Up adds the byte above, or 0 on the first row, mod 256 |
| `Filters.AverageAddsMean` | pngr_test.py:56-66 | Average adds the floor of the mean of left and above (missing ones count as 0), mod 256 |
| `Filters.PaethAddsPredictor` | pngr_test.py:67-94 | Paeth adds the corrected predictor of left, above and upper-left (missing ones count as 0), mod 256 |
| `Filters.ReconOfFilter` | pngr_test.py:42-96 | unfiltering inverts the standard's filtering for every filter type, row and row above |
| `Unfiltering.UnfilterRow` | pngr_test.py:43-95 | a reconstructed line loses its filter-type byte and keeps its length otherwise |
| `Unfiltering.UnfilterAll` | pngr_test.py:42-96 | there is one reconstructed row per line |
| `Unfiltering.UnfilterAllOfFilterAll` | pngr_test.py:42-96 | unfiltering every line inverts filtering every row, whatever filter type each line was given |
| `Unfiltering.ScanlinesRoundTrip` | pngr_test.py:37-96 | rows of stride bytes, filtered, joined, then split and unfiltered as the draft does, come back unchanged |
| `Unfiltering.UnfilterLine` | pngr_test.py:43-94 | the in-place loop over a line's byte array keeps its filter-type byte and turns the rest into the reconstructed row |
| `Unfiltering.UnfilterSub` | pngr_test.py:46-48 | the Sub loop from 1 + bpp on reconstructs the row in place |
| `Unfiltering.UnfilterFromAbove` | pngr_test.py:49-94 | the Up, Average and Paeth loops reconstruct the row in place |
| `Unfiltering.UnfilterCopy` | pngr_test.py:43-95 | copying a line into a byte array, unfiltering it and dropping the first byte gives its reconstructed row |
| `Unfiltering.UnfilterLines` | pngr_test.py:42-96 | the loop over all lines replaces each line by its row reconstructed against the already reconstructed row above |
| `Unfiltering.UnfilterAllLengths` | pngr_test.py:95-96 | every reconstructed row is its line without the filter-type byte |
| `Unfiltering.DecodedRowLengths` | pngr_test.py:37-39 | the split joins back to the stream; every decoded row holds at most stride bytes, and every one but the last exactly stride |
| `Unfiltering.DecodeScanlines` | pngr_test.py:36-96 | the decoded rows are the unfiltered split of the stream; the split joins back to the stream; every row but the last holds exactly stride bytes and the last at most that |

## Left out

- Opening and closing files (`open_png`, `close_png`, `__enter__`, `__exit__`) is left out. A file is its bytes, and the "is the file open" guards in `resume` are assumed to hold.
- zlib decompression of the IDAT data is left out. The decompressed stream is an input of `DecodeScanlines`.
- Printing in `dothething` is left out. `DoTheThing` returns the pieces instead.
- The texts of PngError messages are left out.
- `PngChunk.__init__` decodes Type as UTF-8 and can raise UnicodeDecodeError. The model keeps Type as its raw bytes.
- The IDAT, PLTE and IEND subclasses and the `chunktypes` table are left out. The IDAT constructor is the same `isinstance` check as `DecodeIhdr`, and the table is never consulted by `add_chunk`.
- The properties dictionary is shared between an IHDR and the chunk it was built from. Width, Height and, with 9 data bytes, Bit depth are written before a short payload raises IndexError. The model returns a new chunk, and a failed IHDR changes nothing.
- The generator of `gen_func` is left out. Its pieces come as one list, in order.
- The draft decoder's header loop is left out. It reads Width, Height, Bit depth and Color type through `get_meta`. It sets the channel count only for colour type 2; any other type would raise NameError. `DecodeScanlines` takes width, bit depth and channel count as parameters.
- CRC computation, chunk-order rules, Adam7 interlacing and unpacking of sub-byte samples are not done by the source, and are not modelled.
- `ChunkSerialiser.GenFunc` requires `buf >= 1`. With a smaller buffer the source yields empty pieces forever.
- `ChunkSerialiser.GenFunc` requires a 4-byte type, a 4-byte CRC and a length below 2^32. Otherwise `to_bytes(4)` raises, and the negative-offset CRC slices would read other bytes.
- `Unfiltering.UnfilterLines` requires the lines to be framed: none empty, none longer than a line above. This holds of every split (`Scanlines.LinesAreFramed`). It keeps the draft's reads of the row above inside that row, where Python would otherwise raise IndexError.
- `Filters.PaethPredictor` uses the standard's estimate `a + b - c`, not the draft's `a + b + c`. `Scanlines.BytesPerPixel` rounds up to at least one byte, not the draft's `(bit_depth // 8) * channels`. `Scanlines.Stride` rounds the row's bits up to whole bytes, not the draft's `px_depth * px_w`. These corrections are listed under Findings.
- `Filters.DraftPaethPredictor` reads the draft's `math.abs` as the built-in `abs`. The AttributeError that the draft as written raises at that call, on every Paeth line, is not modelled.
- `Scanlines.SplitLines` clamps its offset to the stream length after the last slice. Python's `range` simply stops there; the lines produced are the same.

## Findings

| source | as written | input that shows it | evidently intended | confidence | as-written member | corrected member |
|---|---|---|---|---|---|---|
| pngr_test.py:84-87 | Paeth estimate `p = prev + prior + prevpri`, and `math.abs`, which does not exist (the as-written member reads it as the built-in `abs`; the AttributeError is not modelled) | left 0, above 10, upper-left 10: the draft picks 10 where the standard picks 0 | `p = a + b - c` with the absolute value, as in section 6.6 of RFC 2083 | not executed | `Filters.DraftPaethPredictor`, `Filters.DraftPaethDisagrees` | `Filters.PaethPredictor`, `Filters.PaethNearest` |
| pngr_test.py:28-29 | pixel depth `(bit_depth // 8) * ch_count` | an IHDR of colour type 2 (the only type for which the draft sets its channel count; others stop at the undefined name) with bit depth 1, 2 or 4 — not a legal truecolour header, which allows only depths 8 and 16, so on legal files the defect shows only once colour types 0 and 3 get a channel count — gives pixel depth 0, so the split step `px_depth * px_w + 1` is 1: every line is a single filter-type byte, the Sub loop's `range(1, 1)` is empty, and every row comes out empty | bytes per pixel rounded up, at least 1, and lines of the row's bits rounded up to whole bytes plus the filter-type byte | not executed | `Scanlines.DraftPixelDepthSubByte`, `Unfiltering.DraftSubByteRowsEmpty` | `Scanlines.BytesPerPixel`, `Scanlines.Stride` |
| pngr.py:115-121 | `has_more` reads 12 bytes from the cursor even at offset 0, where `next_chunk` first skips the 8-byte signature | the signature followed by 4 zero bytes: `has_more` says yes, and the chunk then read is cut short after 4 bytes | count the 12 bytes from where the next chunk starts | not executed | `PngReading.HasMoreCountsSignature` | `PngReading.PngReader.HasMoreChunk`, `PngReading.HasMoreChunkSound` |
