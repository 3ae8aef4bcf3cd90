/** The draft unfilter loop of pngr_test.py: each scanline copied into a byte
    array, reconstructed in place left to right from the row above, stripped
    of its filter-type byte and stored back in place of the filtered line. */
module Unfiltering {
  import opened Bytes
  import opened Scanlines
  import opened Filters

  /** The reconstructed row of one filtered line: its first byte is the
      filter type, the rest the filtered bytes. (An empty line, which the
      split never produces, gives an empty row.) */
  function UnfilterRow(line: seq<Byte>, prior: seq<Byte>, bpp: nat): (row: seq<Byte>)
    ensures line != [] ==> |row| == |line| - 1
  {
    if line == [] then [] else Recon(line[0], line[1..], prior, bpp)
  }

  /** The reconstructed rows of a list of filtered lines, top to bottom: each
      row is reconstructed from the reconstructed row above it ([] for the
      first). */
  function UnfilterAll(lines: seq<seq<Byte>>, bpp: nat): (rows: seq<seq<Byte>>)
    ensures |rows| == |lines|
    decreases |lines|
  {
    if lines == [] then []
    else
      var n := |lines| - 1;
      var done := UnfilterAll(lines[..n], bpp);
      done + [UnfilterRow(lines[n], if n == 0 then [] else done[n - 1], bpp)]
  }

  /** The filtered lines of a list of rows under the standard's filters: each
      line is its filter type followed by the row filtered against the
      original row above it. */
  function FilterAll(types: seq<Byte>, rows: seq<seq<Byte>>, bpp: nat): (lines: seq<seq<Byte>>)
    requires |types| == |rows|
    ensures |lines| == |rows|
  {
    seq(|rows|, k requires 0 <= k < |rows| => FilterLine(types, rows, bpp, k))
  }

  /** Filtered line k: its filter type, then row k filtered against row k - 1. */
  function FilterLine(types: seq<Byte>, rows: seq<seq<Byte>>, bpp: nat, k: nat): seq<Byte>
    requires |types| == |rows| && k < |rows|
  {
    [types[k]] + Filter(types[k], rows[k], if k == 0 then [] else rows[k - 1], bpp)
  }

  /** Unfiltering every line inverts filtering every row, whatever filter type
      each line was given. */
  lemma {:induction false} UnfilterAllOfFilterAll(types: seq<Byte>, rows: seq<seq<Byte>>, bpp: nat)
    requires |types| == |rows| && bpp >= 1
    ensures UnfilterAll(FilterAll(types, rows, bpp), bpp) == rows
    decreases |rows|
  {
    var lines := FilterAll(types, rows, bpp);
    if rows != [] {
      var n := |rows| - 1;
      FilterAllPrefix(types, rows, bpp, n);
      UnfilterAllOfFilterAll(types[..n], rows[..n], bpp);
      var prior := if n == 0 then [] else rows[n - 1];
      FilterAllAt(types, rows, bpp, n);
      assert lines[n][0] == types[n];
      assert lines[n][1..] == Filter(types[n], rows[n], prior, bpp);
      ReconOfFilter(types[n], rows[n], prior, bpp);
      assert UnfilterAll(lines, bpp) == rows[..n] + [rows[n]];
      FrontLast(rows);
    }
  }

  /** Line k of the filtered lines. */
  lemma FilterAllAt(types: seq<Byte>, rows: seq<seq<Byte>>, bpp: nat, k: nat)
    requires |types| == |rows| && k < |rows|
    ensures FilterAll(types, rows, bpp)[k]
         == [types[k]] + Filter(types[k], rows[k], if k == 0 then [] else rows[k - 1], bpp)
  {
    assert FilterAll(types, rows, bpp)[k] == FilterLine(types, rows, bpp, k);
  }

  /** Filtering the first n rows gives the first n filtered lines. */
  lemma FilterAllPrefix(types: seq<Byte>, rows: seq<seq<Byte>>, bpp: nat, n: nat)
    requires |types| == |rows| && n <= |rows|
    ensures FilterAll(types, rows, bpp)[..n] == FilterAll(types[..n], rows[..n], bpp)
  {
    var lines := FilterAll(types, rows, bpp);
    var short := FilterAll(types[..n], rows[..n], bpp);
    forall k | 0 <= k < n ensures lines[k] == short[k] {
      FilterAllAt(types, rows, bpp, k);
      FilterAllAt(types[..n], rows[..n], bpp, k);
    }
  }

  /** The decoder recovers the image: rows of stride bytes, filtered by the
      standard with any filter types, joined into one stream, then split and
      unfiltered as the draft does, come back unchanged. */
  lemma ScanlinesRoundTrip(types: seq<Byte>, rows: seq<seq<Byte>>, stride: nat, bpp: nat)
    requires |types| == |rows| && bpp >= 1
    requires forall k :: 0 <= k < |rows| ==> |rows[k]| == stride
    ensures UnfilterAll(Lines(Concat(FilterAll(types, rows, bpp)), stride), bpp) == rows
  {
    var lines := FilterAll(types, rows, bpp);
    forall k | 0 <= k < |lines| ensures |lines[k]| == stride + 1 {
      FilterAllAt(types, rows, bpp, k);
    }
    LinesOfConcat(lines, stride);
    UnfilterAllOfFilterAll(types, rows, bpp);
  }

  /** One pass of the draft's loop body over line l (filter-type byte first),
      in place: l[0] is kept, and l[1..] becomes the reconstructed row. */
  method UnfilterLine(l: array<Byte>, prior: seq<Byte>, bpp: nat)
    requires l.Length >= 1 && bpp >= 1
    modifies l
    ensures l[0] == old(l[0])
    ensures l[1..] == Recon(old(l[0]), old(l[1..]), prior, bpp)
  {
    var ft := l[0];
    if ft == 1 {
      UnfilterSub(l, prior, bpp);
    } else if 2 <= ft <= 4 {
      UnfilterFromAbove(l, prior, bpp);
    } else {
      // None, and any type the draft does not know: the line stays as it is.
      NoneUnchanged(ft, l[1..], prior, bpp);
    }
  }

  /** The Sub branch: bytes from 1 + bpp on get the byte bpp to their left
      added; the first bpp bytes have nothing to their left and stay. */
  method UnfilterSub(l: array<Byte>, prior: seq<Byte>, bpp: nat)
    requires l.Length >= 1 && bpp >= 1 && l[0] == 1
    modifies l
    ensures l[0] == old(l[0])
    ensures l[1..] == Recon(1, old(l[1..]), prior, bpp)
  {
    ghost var raw := l[1..];
    ghost var out := Recon(1, raw, prior, bpp);
    var j := Min(1 + bpp, l.Length);
    forall k | 1 <= k < j ensures l[k] == out[k - 1] {
      SubAddsLeft(raw, prior, bpp, k - 1);
    }
    while j < l.Length
      invariant 1 <= j <= l.Length && (j < 1 + bpp ==> j == l.Length)
      invariant l[0] == 1
      invariant forall k :: 1 <= k < j ==> l[k] == out[k - 1]
      invariant forall k :: j <= k < l.Length ==> l[k] == raw[k - 1]
    {
      SubAddsLeft(raw, prior, bpp, j - 1);
      l[j] := (l[j] as int + l[j - bpp]) % 256;
      j := j + 1;
    }
    assert forall k :: 0 <= k < |out| ==> l[1..][k] == out[k];
  }

  /** The Up, Average and Paeth branches: every byte gets the prediction from
      left, above and above-left added, each taken as 0 where it is missing
      (left of the first pixel, or above the first row). */
  method UnfilterFromAbove(l: array<Byte>, prior: seq<Byte>, bpp: nat)
    requires l.Length >= 1 && bpp >= 1 && 2 <= l[0] <= 4
    modifies l
    ensures l[0] == old(l[0])
    ensures l[1..] == Recon(old(l[0]), old(l[1..]), prior, bpp)
  {
    ghost var raw := l[1..];
    var ft := l[0];
    ghost var out := Recon(ft, raw, prior, bpp);
    var j := 1;
    while j < l.Length
      invariant 1 <= j <= l.Length
      invariant l[0] == ft
      invariant forall k :: 1 <= k < j ==> l[k] == out[k - 1]
      invariant forall k :: j <= k < l.Length ==> l[k] == raw[k - 1]
    {
      var left := if j < 1 + bpp then 0 else l[j - bpp];
      var above := if j - 1 < |prior| then prior[j - 1] else 0;
      var upLeft := if j < 1 + bpp || j - 1 - bpp >= |prior| then 0 else prior[j - 1 - bpp];
      ReconAt(ft, raw, prior, bpp, j - 1);
      assert left == ByteAt(out, j - 1 - bpp);
      l[j] := (l[j] as int + Predict(ft, left, above, upLeft)) % 256;
      j := j + 1;
    }
    assert forall k :: 0 <= k < |out| ==> l[1..][k] == out[k];
  }

  /** The loop body on one line: a fresh byte array copy of the line is
      unfiltered in place and returned without its filter-type byte. */
  method UnfilterCopy(line: seq<Byte>, prior: seq<Byte>, bpp: nat) returns (row: seq<Byte>)
    requires |line| >= 1 && bpp >= 1
    ensures row == UnfilterRow(line, prior, bpp)
  {
    var l := new Byte[|line|](k requires 0 <= k < |line| => line[k]);
    assert l[..] == line;
    UnfilterLine(l, prior, bpp);
    row := l[1..];
  }

  /** The draft's loop over all lines: line i is unfiltered against the
      already reconstructed line i - 1 and replaced by its reconstructed row. */
  method UnfilterLines(lines: array<seq<Byte>>, bpp: nat)
    requires bpp >= 1 && LinesFramed(lines[..])
    modifies lines
    ensures lines[..] == UnfilterAll(old(lines[..]), bpp)
  {
    ghost var filtered := lines[..];
    ghost var want := UnfilterAll(filtered, bpp);
    var i := 0;
    while i < lines.Length
      invariant 0 <= i <= lines.Length
      invariant forall k :: 0 <= k < i ==> lines[k] == want[k]
      invariant forall k :: i <= k < lines.Length ==> lines[k] == filtered[k]
    {
      var prior := if i == 0 then [] else lines[i - 1];
      var row := UnfilterCopy(lines[i], prior, bpp);
      UnfilterAllAt(filtered, bpp, i);
      lines[i] := row;
      i := i + 1;
    }
    assert forall k :: 0 <= k < |want| ==> lines[..][k] == want[k];
  }

  /** The first n reconstructed rows depend on the first n lines only. */
  lemma {:induction false} UnfilterAllPrefix(lines: seq<seq<Byte>>, bpp: nat, n: nat)
    requires n <= |lines|
    ensures UnfilterAll(lines, bpp)[..n] == UnfilterAll(lines[..n], bpp)
    decreases |lines|
  {
    if n < |lines| {
      var m := |lines| - 1;
      UnfilterAllPrefix(lines[..m], bpp, n);
      assert lines[..m][..n] == lines[..n];
    } else {
      assert lines[..n] == lines;
    }
  }

  /** Row k is line k unfiltered against row k - 1 (nothing for the first). */
  lemma UnfilterAllAt(lines: seq<seq<Byte>>, bpp: nat, k: nat)
    requires k < |lines|
    ensures
      var rows := UnfilterAll(lines, bpp);
      rows[k] == UnfilterRow(lines[k], if k == 0 then [] else rows[k - 1], bpp)
  {
    var rows := UnfilterAll(lines, bpp);
    UnfilterAllPrefix(lines, bpp, k + 1);
    assert lines[..k + 1][..k] == lines[..k];
    if k > 0 {
      UnfilterAllPrefix(lines, bpp, k);
    }
  }

  /** Every reconstructed row is one byte shorter than its line: the
      filter-type byte goes, every other byte stays. */
  lemma UnfilterAllLengths(lines: seq<seq<Byte>>, bpp: nat)
    requires forall k :: 0 <= k < |lines| ==> |lines[k]| >= 1
    ensures forall k :: 0 <= k < |lines| ==> |UnfilterAll(lines, bpp)[k]| == |lines[k]| - 1
  {
    forall k | 0 <= k < |lines| ensures |UnfilterAll(lines, bpp)[k]| == |lines[k]| - 1 {
      UnfilterAllAt(lines, bpp, k);
    }
  }

  /** The draft's split below 8 bits per sample: with its pixel depth 0 the
      step is one byte, so the stream is cut into one-byte lines that hold
      only a filter type, and every reconstructed row comes out empty,
      whatever bytes per pixel the filters use. The draft sets its channel
      count only for colour type 2 (three channels), so an IHDR of colour
      type 2 at bit depth 1, 2 or 4 reaches this split; for the other
      colour types the draft stops earlier, at the undefined channel count. */
  lemma DraftSubByteRowsEmpty(stream: seq<Byte>, width: nat, bitDepth: nat, channels: nat, bpp: nat)
    requires bitDepth < 8
    ensures var lines := Lines(stream, DraftPixelDepth(bitDepth, channels) * width);
      Concat(lines) == stream
      && (forall k :: 0 <= k < |lines| ==> |lines[k]| == 1)
      && (forall k :: 0 <= k < |lines| ==> UnfilterAll(lines, bpp)[k] == [])
  {
    DraftPixelDepthSubByte(bitDepth, channels);
    var lines := Lines(stream, 0);
    LinesJoin(stream, 0);
    UnfilterAllLengths(lines, bpp);
  }

  /** The draft pipeline from the decompressed stream: cut it into lines of
      stride + 1 bytes and unfilter them, with the bytes per pixel and the
      stride worked out from the header (rounded up, at least one byte).
      Every row but the last has stride bytes, the last at most that. */
  method DecodeScanlines(stream: seq<Byte>, width: nat, bitDepth: nat, channels: nat)
    returns (rows: seq<seq<Byte>>)
    ensures rows == UnfilterAll(Lines(stream, Stride(width, bitDepth, channels)),
                                BytesPerPixel(bitDepth, channels))
    ensures Concat(Lines(stream, Stride(width, bitDepth, channels))) == stream
    ensures forall k :: 0 <= k < |rows| ==> |rows[k]| <= Stride(width, bitDepth, channels)
    ensures forall k :: 0 <= k < |rows| - 1 ==> |rows[k]| == Stride(width, bitDepth, channels)
  {
    var bpp := BytesPerPixel(bitDepth, channels);
    var stride := Stride(width, bitDepth, channels);
    var split := SplitLines(stream, stride);
    LinesAreFramed(stream, stride);
    var lines := new seq<Byte>[|split|](k requires 0 <= k < |split| => split[k]);
    assert lines[..] == split;
    UnfilterLines(lines, bpp);
    rows := lines[..];
    DecodedRowLengths(stream, stride, bpp);
  }

  /** The rows decoded from a split stream: every one holds at most stride
      bytes, and every one but the last exactly stride. */
  lemma DecodedRowLengths(stream: seq<Byte>, stride: nat, bpp: nat)
    ensures Concat(Lines(stream, stride)) == stream
    ensures var rows := UnfilterAll(Lines(stream, stride), bpp);
      (forall k :: 0 <= k < |rows| ==> |rows[k]| <= stride)
      && (forall k :: 0 <= k < |rows| - 1 ==> |rows[k]| == stride)
  {
    var split := Lines(stream, stride);
    LinesJoin(stream, stride);
    UnfilterAllLengths(split, bpp);
  }
}
