/** Scanline geometry and the split of the decompressed image stream into
    filtered scanlines (pngr_test.py, section 6 of RFC 2083). */
module Scanlines {
  import opened Bytes

  /** Bytes per complete pixel, rounded up and at least one: the distance the
      filters look back to find the corresponding byte of the previous pixel. */
  function BytesPerPixel(bitDepth: nat, channels: nat): (bpp: nat)
    ensures bpp >= 1
    ensures bitDepth * channels <= 8 ==> bpp == 1
    ensures 8 * bpp >= bitDepth * channels
    ensures bitDepth * channels > 8 ==> 8 * (bpp - 1) < bitDepth * channels
  {
    Max(1, (bitDepth * channels + 7) / 8)
  }

  /** Bytes of pixel data in one scanline of width pixels: the bits of the row
      rounded up to whole bytes (the filter-type byte not included). */
  function Stride(width: nat, bitDepth: nat, channels: nat): (stride: nat)
    ensures 8 * stride >= width * (bitDepth * channels)
    ensures 8 * stride < width * (bitDepth * channels) + 8
  {
    (width * (bitDepth * channels) + 7) / 8
  }

  /** The draft's pixel depth, `(bit_depth // 8) * channels`. */
  function DraftPixelDepth(bitDepth: nat, channels: nat): (depth: nat)
    ensures 8 * depth <= bitDepth * channels <= 8 * depth + 7 * channels
    ensures bitDepth % 8 == 0 ==> 8 * depth == bitDepth * channels
  {
    var q, m := bitDepth / 8, bitDepth % 8;
    assert bitDepth * channels == 8 * (q * channels) + m * channels by {
      assert bitDepth == 8 * q + m;
    }
    assert m * channels <= 7 * channels;
    q * channels
  }

  /** For whole-byte samples the draft's pixel depth is the bytes per pixel,
      and its line length `px_depth * width + 1` is the stride plus the
      filter-type byte. */
  lemma DraftPixelDepthWholeBytes(bitDepth: nat, channels: nat, width: nat)
    requires bitDepth == 8 || bitDepth == 16
    requires channels >= 1
    ensures DraftPixelDepth(bitDepth, channels) == BytesPerPixel(bitDepth, channels)
    ensures DraftPixelDepth(bitDepth, channels) * width + 1 == Stride(width, bitDepth, channels) + 1
  {
    var k := bitDepth / 8;
    assert bitDepth * channels == 8 * (k * channels);
    assert width * (bitDepth * channels) == 8 * (k * channels * width);
  }

  /** For sub-byte samples the draft's pixel depth is 0, where at least one
      byte is meant: its split step `px_depth * px_w + 1` is 1, so every line
      is a single filter-type byte (see `Unfiltering.DraftSubByteRowsEmpty`). */
  lemma DraftPixelDepthSubByte(bitDepth: nat, channels: nat)
    requires bitDepth < 8
    ensures DraftPixelDepth(bitDepth, channels) == 0
    ensures BytesPerPixel(bitDepth, channels) >= 1
  {
  }

  /** The stream cut into scanlines of stride + 1 bytes (filter-type byte and
      pixel bytes); the last one holds whatever is left. */
  function Lines(stream: seq<Byte>, stride: nat): (lines: seq<seq<Byte>>)
    ensures |lines| == (|stream| + stride) / (stride + 1)
    decreases |stream|
  {
    if stream == [] then []
    else
      var n := Min(stride + 1, |stream|);
      LinesCountStep(|stream|, stride);
      [stream[..n]] + Lines(stream[n..], stride)
  }

  /** One line of the split accounts for one in the count of lines, the
      stream length divided by stride + 1 and rounded up. */
  lemma LinesCountStep(len: nat, stride: nat)
    requires len >= 1
    ensures (len + stride) / (stride + 1) == 1 + (len - Min(stride + 1, len) + stride) / (stride + 1)
  {
    var d := stride + 1;
    if len <= d {
      DivIs(len + stride, d, 1);
      DivIs(len - len + stride, d, 0);
    } else {
      var rest := len - d + stride;
      var q := rest / d;
      DivIs(rest, d, q);
      DivIs(rest + d, d, q + 1);
    }
  }

  /** Multiplication by a natural number is monotonic. */
  lemma MulMono(a: nat, b: nat, d: nat)
    requires a <= b
    ensures a * d <= b * d
  {
    var k := b - a;
    assert b * d == a * d + k * d;
  }

  /** x / d is q when x lies in [q * d, q * d + d). */
  lemma DivIs(x: nat, d: nat, q: nat)
    requires d > 0 && q * d <= x < q * d + d
    ensures x / d == q
  {
    var r := x / d;
    assert x == r * d + x % d;
    if r > q {
      MulMono(q + 1, r, d);
    } else if r < q {
      MulMono(r + 1, q, d);
    }
  }

  /** Scanlines as the split produces them: none empty, and none longer than
      the one before, so the row above always covers the row being unfiltered. */
  predicate LinesFramed(lines: seq<seq<Byte>>)
  {
    (forall k :: 0 <= k < |lines| ==> |lines[k]| >= 1)
    && (forall j, k :: 0 <= j <= k < |lines| ==> |lines[k]| <= |lines[j]|)
  }

  /** The split loses nothing: the lines joined are the stream, every line but
      the last is a full stride + 1 bytes, and the last holds 1 to stride + 1. */
  lemma {:induction false} LinesJoin(stream: seq<Byte>, stride: nat)
    ensures Concat(Lines(stream, stride)) == stream
    ensures forall k :: 0 <= k < |Lines(stream, stride)| ==> 1 <= |Lines(stream, stride)[k]| <= stride + 1
    ensures forall k :: 0 <= k < |Lines(stream, stride)| - 1 ==> |Lines(stream, stride)[k]| == stride + 1
    decreases |stream|
  {
    var lines := Lines(stream, stride);
    if stream != [] {
      var n := Min(stride + 1, |stream|);
      var rest := Lines(stream[n..], stride);
      LinesJoin(stream[n..], stride);
      assert lines == [stream[..n]] + rest;
      assert Concat(lines) == stream by {
        assert Concat(lines) == stream[..n] + Concat(rest);
        assert stream == stream[..n] + stream[n..];
      }
      forall k | 0 <= k < |lines| ensures 1 <= |lines[k]| <= stride + 1 {
        if k > 0 {
          assert lines[k] == rest[k - 1];
        }
      }
      forall k | 0 <= k < |lines| - 1 ensures |lines[k]| == stride + 1 {
        if k > 0 {
          assert lines[k] == rest[k - 1];
        } else {
          assert rest != [];
        }
      }
    }
  }

  /** The split's lines are framed: none empty, none longer than one above. */
  lemma LinesAreFramed(stream: seq<Byte>, stride: nat)
    ensures LinesFramed(Lines(stream, stride))
  {
    var lines := Lines(stream, stride);
    LinesJoin(stream, stride);
    forall j, k | 0 <= j <= k < |lines| ensures |lines[k]| <= |lines[j]| {
      if j < |lines| - 1 {
        assert |lines[j]| == stride + 1;
      }
    }
  }

  /** Splitting a join of full-length lines gives those lines back. */
  lemma {:induction false} LinesOfConcat(lines: seq<seq<Byte>>, stride: nat)
    requires forall k :: 0 <= k < |lines| ==> |lines[k]| == stride + 1
    ensures Lines(Concat(lines), stride) == lines
    decreases |lines|
  {
    if lines != [] {
      var s := Concat(lines);
      assert s == lines[0] + Concat(lines[1..]);
      assert s[..stride + 1] == lines[0];
      assert s[stride + 1..] == Concat(lines[1..]);
      LinesOfConcat(lines[1..], stride);
      assert lines == [lines[0]] + lines[1..];
    }
  }

  /** The draft's split loop: slices of stride + 1 bytes taken at offsets 0,
      stride + 1, 2 * (stride + 1), ... while the offset is inside the stream. */
  method SplitLines(stream: seq<Byte>, stride: nat) returns (lines: seq<seq<Byte>>)
    ensures lines == Lines(stream, stride)
  {
    lines := [];
    var i := 0;
    while i < |stream|
      invariant i <= |stream|
      invariant lines + Lines(stream[i..], stride) == Lines(stream, stride)
      decreases |stream| - i
    {
      ghost var n := Min(stride + 1, |stream| - i);
      LinesFrom(stream, stride, i);
      AppendAssoc(lines, [stream[i..i + n]], Lines(stream[i + n..], stride));
      lines := lines + [stream[i..Min(i + stride + 1, |stream|)]];
      i := i + stride + 1;
      if i > |stream| {
        i := |stream|;
      }
    }
  }

  /** The lines from offset i on: one line of up to stride + 1 bytes, then
      the lines after it. */
  lemma LinesFrom(stream: seq<Byte>, stride: nat, i: nat)
    requires i < |stream|
    ensures var n := Min(stride + 1, |stream| - i);
      Lines(stream[i..], stride) == [stream[i..i + n]] + Lines(stream[i + n..], stride)
  {
    var n := Min(stride + 1, |stream| - i);
    assert stream[i..][..n] == stream[i..i + n];
    assert stream[i..][n..] == stream[i + n..];
  }
}
