/** The five scanline filters of section 6 of RFC 2083: the reconstruction the
    draft unfilter loop of pngr_test.py performs, the forward filters as the
    standard defines them, and the round trip between the two. */
module Filters {
  import opened Bytes

  /** A byte of a row, or 0 where the index falls outside it (the pixel left
      of the first one, or the row above the first row). */
  function ByteAt(row: seq<Byte>, k: int): Byte
  {
    if 0 <= k < |row| then row[k] else 0
  }

  /** Addition modulo 256. */
  function Add(x: Byte, y: Byte): Byte { (x + y) % 256 }

  /** Subtraction modulo 256. */
  function Minus(x: Byte, y: Byte): Byte { (x - y) % 256 }

  lemma AddMinus(x: Byte, y: Byte)
    ensures Add(Minus(x, y), y) == x
  {
    if x >= y {
      assert Minus(x, y) == x - y;
    } else {
      assert Minus(x, y) == x - y + 256;
    }
  }

  function Abs(x: int): nat { if x < 0 then -x else x }

  /** The Paeth predictor of section 6.6 of RFC 2083: of left (a), above (b)
      and upper left (c), the one nearest to a + b - c, ties broken in the
      order a, b, c. */
  function PaethPredictor(a: Byte, b: Byte, c: Byte): (r: Byte)
    ensures r == a || r == b || r == c
  {
    var p := a + b - c;
    var pa, pb, pc := Abs(p - a), Abs(p - b), Abs(p - c);
    if pa <= pb && pa <= pc then a
    else if pb <= pc then b
    else c
  }

  /** The Paeth predictor is nearest to the initial estimate a + b - c among
      a, b and c, and it passes over a only for one strictly nearer, and
      picks c over b only when c is strictly nearer. */
  lemma PaethNearest(a: Byte, b: Byte, c: Byte)
    ensures var r := PaethPredictor(a, b, c);
      && Abs(a + b - c - r) <= Abs(b - c)
      && Abs(a + b - c - r) <= Abs(a - c)
      && Abs(a + b - c - r) <= Abs(a + b - 2 * c)
      && (r != a ==> Abs(a + b - c - r) < Abs(b - c))
      && (r == c && c != b ==> Abs(a + b - c - r) < Abs(a - c))
  {
  }

  /** The draft's Paeth predictor: p = a + b + c, then the same choice, with
      its `math.abs` read as Python's built-in `abs` (the `math` module has no
      `abs`, so the draft as written stops there with an AttributeError). */
  function DraftPaethPredictor(a: Byte, b: Byte, c: Byte): (r: Byte)
    ensures r == a || r == b || r == c
  {
    var p := a + b + c;
    var pa, pb, pc := Abs(p - a), Abs(p - b), Abs(p - c);
    if pa <= pb && pa <= pc then a
    else if pb <= pc then b
    else c
  }

  /** With nothing to the left and 10 above and above-left, the draft predicts
      10 where the standard predicts 0, so a byte filtered by the standard is
      reconstructed 10 too high. */
  lemma DraftPaethDisagrees()
    ensures DraftPaethPredictor(0, 10, 10) == 10
    ensures PaethPredictor(0, 10, 10) == 0
    ensures Add(Minus(7, PaethPredictor(0, 10, 10)), DraftPaethPredictor(0, 10, 10)) == 17
  {
  }

  /** What filter type ft adds back to a byte, from the byte to its left (a),
      above (b) and above-left (c). Types outside 0..4 add nothing: the draft
      leaves such a line as it is. */
  function Predict(ft: Byte, a: Byte, b: Byte, c: Byte): (r: Byte)
    ensures ft == 0 || ft > 4 ==> r == 0
    ensures ft == 1 || ft == 2 || ft == 4 ==> r == a || r == b || r == c
    ensures ft == 3 ==> a <= r <= b || b <= r <= a
  {
    if ft == 1 then a
    else if ft == 2 then b
    else if ft == 3 then (a + b) / 2
    else if ft == 4 then PaethPredictor(a, b, c)
    else 0
  }

  /** The reconstructed row: raw holds the filtered bytes of one scanline
      (without its filter-type byte), prior the reconstructed row above ([] on
      the first row), bpp the bytes per pixel. Byte x is raw[x] plus the
      prediction from the already reconstructed bytes, left to right. */
  function Recon(ft: Byte, raw: seq<Byte>, prior: seq<Byte>, bpp: nat): (out: seq<Byte>)
    ensures |out| == |raw|
    decreases |raw|
  {
    if raw == [] then []
    else
      var x := |raw| - 1;
      var done := Recon(ft, raw[..x], prior, bpp);
      done + [Add(raw[x], Predict(ft, ByteAt(done, x - bpp), ByteAt(prior, x), ByteAt(prior, x - bpp)))]
  }

  /** The forward filter of the standard: each byte minus the prediction from
      the original bytes to its left, above and above-left. */
  function Filter(ft: Byte, row: seq<Byte>, prior: seq<Byte>, bpp: nat): (raw: seq<Byte>)
    ensures |raw| == |row|
  {
    seq(|row|, x requires 0 <= x < |row| =>
      Minus(row[x], Predict(ft, ByteAt(row, x - bpp), ByteAt(prior, x), ByteAt(prior, x - bpp))))
  }

  /** Reconstruction never revises a byte: the first k bytes of a row depend
      on the first k filtered bytes only. */
  lemma {:induction false} ReconPrefix(ft: Byte, raw: seq<Byte>, prior: seq<Byte>, bpp: nat, k: nat)
    requires k <= |raw|
    ensures Recon(ft, raw, prior, bpp)[..k] == Recon(ft, raw[..k], prior, bpp)
    decreases |raw|
  {
    if k < |raw| {
      var x := |raw| - 1;
      ReconPrefix(ft, raw[..x], prior, bpp, k);
      assert raw[..x][..k] == raw[..k];
    } else {
      assert raw[..k] == raw;
    }
  }

  /** Byte x of a reconstructed row is its filtered byte plus the prediction
      from the reconstructed byte bpp to its left and the row above. */
  lemma ReconAt(ft: Byte, raw: seq<Byte>, prior: seq<Byte>, bpp: nat, x: nat)
    requires bpp >= 1 && x < |raw|
    ensures
      var out := Recon(ft, raw, prior, bpp);
      out[x] == Add(raw[x], Predict(ft, ByteAt(out, x - bpp), ByteAt(prior, x), ByteAt(prior, x - bpp)))
  {
    var out := Recon(ft, raw, prior, bpp);
    ReconPrefix(ft, raw, prior, bpp, x + 1);
    ReconPrefix(ft, raw, prior, bpp, x);
    assert raw[..x + 1][..x] == raw[..x];
    assert out[..x + 1][..x] == out[..x];
  }

  /** Filter type 0 (None), and any type the draft does not know, leaves the
      bytes unchanged. */
  lemma {:induction false} NoneUnchanged(ft: Byte, raw: seq<Byte>, prior: seq<Byte>, bpp: nat)
    requires ft == 0 || ft > 4
    ensures Recon(ft, raw, prior, bpp) == raw
    decreases |raw|
  {
    if raw != [] {
      var x := |raw| - 1;
      var done := Recon(ft, raw[..x], prior, bpp);
      assert done == raw[..x] by {
        NoneUnchanged(ft, raw[..x], prior, bpp);
      }
      assert Predict(ft, ByteAt(done, x - bpp), ByteAt(prior, x), ByteAt(prior, x - bpp)) == 0;
      assert Recon(ft, raw, prior, bpp) == done + [raw[x]];
      FrontLast(raw);
    }
  }

  /** Filter type 1 (Sub): the first bpp bytes are unchanged, every later one
      gets the reconstructed byte bpp to its left added, modulo 256. */
  lemma SubAddsLeft(raw: seq<Byte>, prior: seq<Byte>, bpp: nat, x: nat)
    requires bpp >= 1 && x < |raw|
    ensures
      var out := Recon(1, raw, prior, bpp);
      out[x] == if x < bpp then raw[x] else (raw[x] as int + out[x - bpp]) % 256
  {
    ReconAt(1, raw, prior, bpp, x);
  }

  /** Filter type 2 (Up): every byte gets the byte in the same column of the
      row above added, modulo 256, 0 on the first row. */
  lemma UpAddsAbove(raw: seq<Byte>, prior: seq<Byte>, bpp: nat, x: nat)
    requires bpp >= 1 && x < |raw|
    ensures
      var out := Recon(2, raw, prior, bpp);
      out[x] == (raw[x] as int + if x < |prior| then prior[x] else 0) % 256
  {
    ReconAt(2, raw, prior, bpp, x);
  }

  /** Filter type 3 (Average): every byte gets the floor of the mean of the
      byte to its left and the byte above added, modulo 256, a missing one
      counting as 0. */
  lemma AverageAddsMean(raw: seq<Byte>, prior: seq<Byte>, bpp: nat, x: nat)
    requires bpp >= 1 && x < |raw|
    ensures
      var out := Recon(3, raw, prior, bpp);
      var left := if x < bpp then 0 else out[x - bpp];
      var above := if x < |prior| then prior[x] else 0;
      out[x] == (raw[x] as int + (left as int + above) / 2) % 256
  {
    ReconAt(3, raw, prior, bpp, x);
  }

  /** Filter type 4 (Paeth): every byte gets the Paeth predictor of left,
      above and above-left added, modulo 256, a missing one counting as 0. */
  lemma PaethAddsPredictor(raw: seq<Byte>, prior: seq<Byte>, bpp: nat, x: nat)
    requires bpp >= 1 && x < |raw|
    ensures
      var out := Recon(4, raw, prior, bpp);
      var left := if x < bpp then 0 else out[x - bpp];
      var above := if x < |prior| then prior[x] else 0;
      var upLeft := if x < bpp || x - bpp >= |prior| then 0 else prior[x - bpp];
      out[x] == (raw[x] as int + PaethPredictor(left, above, upLeft)) % 256
  {
    ReconAt(4, raw, prior, bpp, x);
  }

  /** Unfiltering inverts filtering: for every filter type, every row and
      every row above, reconstructing the filtered row gives the row back. */
  lemma {:induction false} ReconOfFilter(ft: Byte, row: seq<Byte>, prior: seq<Byte>, bpp: nat)
    requires bpp >= 1
    ensures Recon(ft, Filter(ft, row, prior, bpp), prior, bpp) == row
    decreases |row|
  {
    if row != [] {
      var x := |row| - 1;
      var raw := Filter(ft, row, prior, bpp);
      var done := Recon(ft, raw[..x], prior, bpp);
      assert done == row[..x] by {
        FilterPrefix(ft, row, prior, bpp, x);
        ReconOfFilter(ft, row[..x], prior, bpp);
      }
      assert Add(raw[x], Predict(ft, ByteAt(done, x - bpp), ByteAt(prior, x), ByteAt(prior, x - bpp))) == row[x] by {
        var p := Predict(ft, ByteAt(row, x - bpp), ByteAt(prior, x), ByteAt(prior, x - bpp));
        assert ByteAt(done, x - bpp) == ByteAt(row, x - bpp);
        assert raw[x] == Minus(row[x], p);
        AddMinus(row[x], p);
      }
      assert Recon(ft, raw, prior, bpp) == done + [row[x]];
      FrontLast(row);
    }
  }

  /** The first x filtered bytes depend on the first x bytes of the row only. */
  lemma FilterPrefix(ft: Byte, row: seq<Byte>, prior: seq<Byte>, bpp: nat, x: nat)
    requires x <= |row|
    ensures Filter(ft, row, prior, bpp)[..x] == Filter(ft, row[..x], prior, bpp)
  {
    var raw := Filter(ft, row, prior, bpp);
    var short := Filter(ft, row[..x], prior, bpp);
    forall i | 0 <= i < x ensures raw[i] == short[i] {
      assert ByteAt(row[..x], i - bpp) == ByteAt(row, i - bpp);
    }
  }
}
