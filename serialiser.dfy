/** The buffered chunk serialiser of pngr_test.py (`gen_func`, `dothething`):
    the byte image of a chunk handed out in pieces of a fixed buffer size. */
module ChunkSerialiser {
  import opened Bytes
  import opened PngChunks

  /** `mylist`: length 25, type "WORD", 16 zero data bytes, CRC "foop". Its
      length field, 25, does not match the 16 data bytes. */
  function SampleChunk(): (f: ChunkFields)
    ensures f.WellFormed() && |ChunkImage(f)| == 28
    ensures ChunkImage(f)[..4] == [0, 0, 0, 25]
    ensures f.length != |f.data|
  {
    var f := ChunkFields(25, [0x57, 0x4F, 0x52, 0x44], seq(16, _ => 0), [0x66, 0x6F, 0x6F, 0x70]);
    assert ChunkImage(f)[..4] == ToBigEndian(25, 4);
    f
  }

  /** `gen_func(buf)` over the fields f: every piece it yields, in order. Each
      piece holds buf bytes of the chunk image, except that the last one holds
      what is left. */
  method GenFunc(f: ChunkFields, buf: int) returns (pieces: seq<seq<Byte>>)
    requires f.WellFormed() && buf >= 1
    ensures Concat(pieces) == ChunkImage(f)
    ensures |pieces| >= 1
    ensures forall k :: 0 <= k < |pieces| - 1 ==> |pieces[k]| == buf
    ensures 1 <= |pieces[|pieces| - 1]| <= buf
  {
    ghost var image := ChunkImage(f);
    var num := 0;
    var l := 12 + |f.data|;
    pieces := [];
    while num < l
      invariant 0 <= num <= l == |image|
      invariant Concat(pieces) == image[..num]
      invariant forall k :: 0 <= k < |pieces| ==> 1 <= |pieces[k]| <= buf
      invariant num < l ==> forall k :: 0 <= k < |pieces| ==> |pieces[k]| == buf
      invariant num == l ==> |pieces| >= 1 && forall k :: 0 <= k < |pieces| - 1 ==> |pieces[k]| == buf
      decreases l - num
    {
      var result;
      ghost var first := num;
      result, num := FillPiece(f, num, buf);
      ConcatSnoc(pieces, result);
      SliceJoin(image, 0, first, num);
      pieces := pieces + [result];
    }
    assert image[..num] == image;
  }

  /** The inner loop of `gen_func`: starting at offset num of the image, fill
      one piece of up to buf bytes region by region (length, type, data, CRC),
      the CRC region being addressed by negative offsets from the end of the
      image. Returns the piece and the offset after it. */
  method FillPiece(f: ChunkFields, num: int, buf: int) returns (result: seq<Byte>, next: int)
    requires f.WellFormed() && buf >= 1 && 0 <= num < 12 + |f.data|
    ensures num < next <= 12 + |f.data|
    ensures result == ChunkImage(f)[num..next]
    ensures |result| == buf || (|result| < buf && next == 12 + |f.data|)
  {
    ghost var image := ChunkImage(f);
    var lengthBytes := ToBigEndian(f.length, 4);
    var l := 12 + |f.data|;
    var toread := buf;
    result, next := [], num;
    while toread > 0
      invariant num <= next <= l
      invariant result == image[num..next]
      invariant |result| <= buf
      invariant toread > 0 ==> next < l && |result| + toread == buf
      invariant toread <= 0 ==> 1 <= |result| && (|result| == buf || next == l)
      decreases toread
    {
      var before := |result|;
      var piece, stop := ReadRegion(f, lengthBytes, next, toread);
      if stop {
        toread := 0;
      }
      AppendSlice(image, num, next, result, piece);
      result := result + piece;
      next := next + |result| - before;
      toread := toread - (|result| - before);
    }
  }

  /** One pass of the inner loop's region dispatch at offset num: the bytes
      read (at least one, at most toread, the image bytes from num on), and
      whether the read ran to the end of the CRC, which ends the piece. A read
      that stops short of toread bytes without ending the piece stops at a
      region boundary before the end of the image. */
  method ReadRegion(f: ChunkFields, lengthBytes: seq<Byte>, num: int, toread: int)
    returns (piece: seq<Byte>, stop: bool)
    requires f.WellFormed() && lengthBytes == ToBigEndian(f.length, 4)
    requires 0 <= num < 12 + |f.data| && toread >= 1
    ensures 1 <= |piece| <= toread && num + |piece| <= 12 + |f.data|
    ensures piece == ChunkImage(f)[num..num + |piece|]
    ensures stop ==> num + |piece| == 12 + |f.data|
    ensures !stop ==> |piece| == toread || num + |piece| < 12 + |f.data|
    ensures !stop && |piece| < toread ==> num + |piece| in {4, 8, 8 + |f.data|}
  {
    var l := 12 + |f.data|;
    stop := false;
    if num < 4 {
      piece := PySlice(lengthBytes, num, num + toread);
      LengthRegion(f, num, toread, piece);
    } else if num >= 4 && num < 8 {
      piece := PySlice(f.kind, num - 4, num - 4 + toread);
      KindRegion(f, num, toread, piece);
    } else if num >= 8 && num < l - 4 {
      piece := PySlice(f.data, num - 8, num - 8 + toread);
      DataRegion(f, num, toread, piece);
    } else if num - l + toread < 0 {
      piece := PySlice(f.crc, num - l, num - l + toread);
      CrcRegion(f, num, toread, piece);
    } else {
      piece := PySlice(f.crc, num - l, |f.crc|);
      CrcTail(f, num, toread, piece);
      stop := true;
    }
  }

  /** A read at offset num of the length region yields the image bytes from
      num on, at least one and at most toread of them, without leaving the
      region; a short read ends exactly at the end of the region. */
  lemma LengthRegion(f: ChunkFields, num: int, toread: int, piece: seq<Byte>)
    requires f.WellFormed() && 0 <= num < 4 && toread >= 1
    requires piece == PySlice(ToBigEndian(f.length, 4), num, num + toread)
    ensures 1 <= |piece| <= toread && num + |piece| <= 4
      && piece == ChunkImage(f)[num..num + |piece|]
    ensures |piece| < toread ==> num + |piece| == 4
  {
    var image := ChunkImage(f);
    assert image[..4] == ToBigEndian(f.length, 4);
  }

  /** The same for the type region, addressed from offset 4. */
  lemma KindRegion(f: ChunkFields, num: int, toread: int, piece: seq<Byte>)
    requires f.WellFormed() && 4 <= num < 8 && toread >= 1
    requires piece == PySlice(f.kind, num - 4, num - 4 + toread)
    ensures 1 <= |piece| <= toread && num + |piece| <= 8
      && piece == ChunkImage(f)[num..num + |piece|]
    ensures |piece| < toread ==> num + |piece| == 8
  {
    var image := ChunkImage(f);
    assert image[4..8] == f.kind;
  }

  /** The same for the data region, addressed from offset 8. */
  lemma DataRegion(f: ChunkFields, num: int, toread: int, piece: seq<Byte>)
    requires f.WellFormed() && 8 <= num < 8 + |f.data| && toread >= 1
    requires piece == PySlice(f.data, num - 8, num - 8 + toread)
    ensures 1 <= |piece| <= toread && num + |piece| <= 8 + |f.data|
      && piece == ChunkImage(f)[num..num + |piece|]
    ensures |piece| < toread ==> num + |piece| == 8 + |f.data|
  {
    var image := ChunkImage(f);
    assert image[8..8 + |f.data|] == f.data;
  }

  /** A read inside the CRC region, addressed by negative offsets from the end
      of the image, that stops short of the end yields exactly toread bytes. */
  lemma CrcRegion(f: ChunkFields, num: int, toread: int, piece: seq<Byte>)
    requires f.WellFormed() && 8 + |f.data| <= num < 12 + |f.data| && toread >= 1
    requires num - (12 + |f.data|) + toread < 0
    requires piece == PySlice(f.crc, num - (12 + |f.data|), num - (12 + |f.data|) + toread)
    ensures |piece| == toread && piece == ChunkImage(f)[num..num + |piece|]
  {
    var image := ChunkImage(f);
    assert image[8 + |f.data|..] == f.crc;
  }

  /** A read of the rest of the CRC region yields the image up to its end, at
      most toread bytes. */
  lemma CrcTail(f: ChunkFields, num: int, toread: int, piece: seq<Byte>)
    requires f.WellFormed() && 8 + |f.data| <= num < 12 + |f.data| && toread >= 1
    requires num - (12 + |f.data|) + toread >= 0
    requires piece == PySlice(f.crc, num - (12 + |f.data|), |f.crc|)
    ensures 1 <= |piece| <= toread && num + |piece| == 12 + |f.data| && piece == ChunkImage(f)[num..]
  {
    var image := ChunkImage(f);
    assert image[8 + |f.data|..] == f.crc;
  }

  /** `dothething(buffer)`: nothing for a buffer smaller than 4, otherwise the
      pieces of the sample chunk (printing is left to the caller). */
  method DoTheThing(buffer: int) returns (pieces: seq<seq<Byte>>)
    ensures buffer < 4 ==> pieces == []
    ensures buffer >= 4 ==> Concat(pieces) == ChunkImage(SampleChunk()) && |pieces| >= 1
    ensures forall k :: 0 <= k < |pieces| ==> 1 <= |pieces[k]| <= buffer
  {
    if buffer < 4 {
      return [];
    }
    pieces := GenFunc(SampleChunk(), buffer);
  }
}
