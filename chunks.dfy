/** Chunk records of pngr.py (PngChunk, IHDR) and the byte layout of a chunk
    (section 3.2 of RFC 2083): the framing function the reader follows and the
    image the serialiser emits. */
module PngChunks {
  import opened Bytes
  import opened Results

  /** The exceptions the core raises: its own PngError, and the IndexError a
      too-short IHDR payload provokes. Message texts are not modelled. */
  datatype Error = PngError | IndexError

  /** The fixed 8-byte PNG signature `89 50 4E 47 0D 0A 1A 0A`. */
  const Signature: seq<Byte> := [0x89, 0x50, 0x4E, 0x47, 0x0D, 0x0A, 0x1A, 0x0A]

  /** Python's `f.read(n)` with the cursor at p: at most n bytes, fewer at the end of the file. */
  function ReadAt(file: seq<Byte>, p: nat, n: nat): (r: seq<Byte>)
    ensures |r| == Max(0, Min(n, |file| - p))
    ensures p < |file| ==> r == file[p..p + |r|]
  {
    if p >= |file| then [] else file[p..Min(p + n, |file|)]
  }

  /** Where the cursor stands after `f.read(n)` from p: n bytes on, or at the
      end of the file if fewer remain (a cursor past the end stays put). */
  function ReadEnd(file: seq<Byte>, p: nat, n: nat): (q: nat)
    ensures p <= q <= Max(p, |file|)
    ensures q == p + |ReadAt(file, p, n)|
  {
    if p >= |file| then p else Min(p + n, |file|)
  }

  /** `PngReader.is_valid`: read the first 8 bytes and compare them with the signature. */
  function IsValid(file: seq<Byte>): (valid: bool)
    ensures valid <==> |file| >= 8 && file[..8] == Signature
  {
    ReadAt(file, 0, 8) == Signature
  }

  /** A value held in a chunk's `properties` dictionary. */
  datatype Value = Int(n: nat) | ByteString(b: seq<Byte>) | Dict(m: map<string, nat>)

  /** A PngChunk: Length, Type, Data and CRC as read, and the Meta dictionary
      that typed views such as IHDR fill in. */
  datatype Chunk = Chunk(length: nat, kind: seq<Byte>, data: seq<Byte>, crc: seq<Byte>, meta: map<string, nat>)

  /** A Python value handed to a constructor that checks `isinstance(x, PngChunk)`. */
  datatype Object = ChunkObject(chunk: Chunk) | OtherObject(typeName: string)

  /** `PngChunk.__init__` from the four byte strings the reader read. */
  function NewChunk(lengthBytes: seq<Byte>, kind: seq<Byte>, data: seq<Byte>, crc: seq<Byte>): (c: Chunk)
    ensures c.length < Pow256(|lengthBytes|)
    ensures c.kind == kind && c.data == data && c.crc == crc && c.meta == map[]
  {
    Chunk(BigEndian(lengthBytes), kind, data, crc, map[])
  }

  /** The Length a PngChunk stores is the unsigned value of its length bytes:
      written back big-endian at the same width, it gives those bytes again. */
  lemma NewChunkLength(lengthBytes: seq<Byte>, kind: seq<Byte>, data: seq<Byte>, crc: seq<Byte>)
    ensures
      var c := NewChunk(lengthBytes, kind, data, crc);
      c.length < Pow256(|lengthBytes|) && ToBigEndian(c.length, |lengthBytes|) == lengthBytes
  {
    ToBigEndianOfBigEndian(lengthBytes);
  }

  /** The keys of the `properties` dictionary. */
  const PropertyNames: set<string> := {"Length", "Type", "Data", "CRC", "Meta"}

  /** The `properties` dictionary itself (what `get_property()` returns without a name). */
  function Properties(c: Chunk): (props: map<string, Value>)
    ensures props.Keys == PropertyNames
    ensures props["Length"] == Int(c.length) && props["Type"] == ByteString(c.kind)
    ensures props["Data"] == ByteString(c.data) && props["CRC"] == ByteString(c.crc)
    ensures props["Meta"] == Dict(c.meta)
  {
    map["Length" := Int(c.length), "Type" := ByteString(c.kind), "Data" := ByteString(c.data),
        "CRC" := ByteString(c.crc), "Meta" := Dict(c.meta)]
  }

  /** `get_property(name)`: the named property, None where Python raises KeyError. */
  function GetProperty(c: Chunk, name: string): (r: Option<Value>)
    ensures r.Some? <==> name in PropertyNames
    ensures name == "Length" ==> r == Some(Int(c.length))
    ensures name == "Type" ==> r == Some(ByteString(c.kind))
    ensures name == "Data" ==> r == Some(ByteString(c.data))
    ensures name == "CRC" ==> r == Some(ByteString(c.crc))
    ensures name == "Meta" ==> r == Some(Dict(c.meta))
  {
    var props := Properties(c);
    if name in props then Some(props[name]) else None
  }

  /** `get_meta(name)`: the named Meta entry, None where Python raises KeyError. */
  function GetMeta(c: Chunk, name: string): (r: Option<nat>)
    ensures r.Some? <==> name in c.meta
    ensures r.Some? ==> r.value == c.meta[name]
  {
    if name in c.meta then Some(c.meta[name]) else None
  }

  /** The IHDR fields a header holds (section 4.1.1 of RFC 2083). */
  datatype Header = Header(width: nat, height: nat, bitDepth: Byte, colorType: Byte,
                           compression: Byte, filter: Byte, interlace: Byte)
  {
    predicate Fits() { width < Pow256(4) && height < Pow256(4) }
  }

  /** The 13-byte IHDR payload of a header. */
  function EncodeHeader(h: Header): (data: seq<Byte>)
    requires h.Fits()
    ensures |data| == 13
  {
    ToBigEndian(h.width, 4) + ToBigEndian(h.height, 4)
      + [h.bitDepth, h.colorType, h.compression, h.filter, h.interlace]
  }

  /** The Meta keys IHDR fills in. */
  const HeaderKeys: set<string> := {"Width", "Height", "Bit depth", "Color type", "Interlace"}

  /** A Meta dictionary with the five IHDR entries set and every other entry kept. */
  function WithHeaderFields(meta: map<string, nat>, width: nat, height: nat, bitDepth: Byte,
                            colorType: Byte, interlace: Byte): (m: map<string, nat>)
    ensures m.Keys == meta.Keys + HeaderKeys
    ensures m["Width"] == width && m["Height"] == height && m["Bit depth"] == bitDepth
    ensures m["Color type"] == colorType && m["Interlace"] == interlace
    ensures forall k :: k in meta && k !in HeaderKeys ==> m[k] == meta[k]
  {
    meta["Width" := width]["Height" := height]["Bit depth" := bitDepth]
        ["Color type" := colorType]["Interlace" := interlace]
  }

  /** `IHDR.__init__`: the generic chunk with Width, Height, Bit depth, Color
      type and Interlace added to its Meta dictionary. */
  function DecodeIhdr(obj: Object): (r: Result<Chunk, Error>)
    ensures obj.OtherObject? ==> r == Failure(PngError)
    ensures obj.ChunkObject? ==> (r.Success? <==> |obj.chunk.data| >= 10)
    ensures r.Failure? && obj.ChunkObject? ==> r.error == IndexError
    ensures r.Success? ==>
      var c := obj.chunk;
      r.value.(meta := c.meta) == c
      && r.value.meta.Keys == c.meta.Keys + HeaderKeys
      && r.value.meta["Width"] < Pow256(4) && ToBigEndian(r.value.meta["Width"], 4) == c.data[..4]
      && r.value.meta["Height"] < Pow256(4) && ToBigEndian(r.value.meta["Height"], 4) == c.data[4..8]
      && r.value.meta["Bit depth"] == c.data[8] && r.value.meta["Color type"] == c.data[9]
      && r.value.meta["Interlace"] == c.data[|c.data| - 1]
      && (forall k :: k in c.meta && k !in HeaderKeys ==> r.value.meta[k] == c.meta[k])
  {
    match obj
    case OtherObject(_) => Failure(PngError)
    case ChunkObject(c) =>
      if |c.data| < 10 then Failure(IndexError)
      else
        ToBigEndianOfBigEndian(c.data[..4]);
        ToBigEndianOfBigEndian(c.data[4..8]);
        var meta := WithHeaderFields(c.meta, BigEndian(c.data[..4]), BigEndian(c.data[4..8]),
                                     c.data[8], c.data[9], c.data[|c.data| - 1]);
        Success(c.(meta := meta))
  }

  /** Decoding the IHDR payload of a header recovers every field that IHDR reads. */
  lemma HeaderRoundTrip(h: Header, kind: seq<Byte>, crc: seq<Byte>)
    requires h.Fits()
    ensures
      var r := DecodeIhdr(ChunkObject(NewChunk(ToBigEndian(13, 4), kind, EncodeHeader(h), crc)));
      r.Success?
      && r.value.meta == map["Width" := h.width, "Height" := h.height, "Bit depth" := h.bitDepth,
                             "Color type" := h.colorType, "Interlace" := h.interlace]
  {
    var data := EncodeHeader(h);
    assert data[..4] == ToBigEndian(h.width, 4);
    assert data[4..8] == ToBigEndian(h.height, 4);
    BigEndianOfToBigEndian(h.width, 4);
    BigEndianOfToBigEndian(h.height, 4);
  }

  /** The four fields of a chunk as written to a file. */
  datatype ChunkFields = ChunkFields(length: nat, kind: seq<Byte>, data: seq<Byte>, crc: seq<Byte>)
  {
    /** A length that fits 4 bytes, a 4-byte type and a 4-byte CRC. */
    predicate WellFormed() { length < Pow256(4) && |kind| == 4 && |crc| == 4 }
  }

  /** The byte image of a chunk: 4-byte big-endian length, type, data, CRC. */
  function ChunkImage(f: ChunkFields): (image: seq<Byte>)
    requires f.WellFormed()
    ensures |image| == 12 + |f.data|
  {
    ToBigEndian(f.length, 4) + f.kind + f.data + f.crc
  }

  /** A chunk read by `next_chunk`, and the cursor after it. */
  datatype Framed = Framed(chunk: Chunk, end: nat)

  /** Where `next_chunk` starts reading: the signature is skipped at offset 0. */
  function FrameStart(pos: nat): (start: nat)
    ensures pos == 0 ==> start == |Signature|
    ensures pos != 0 ==> start == pos
  {
    if pos == 0 then |Signature| else pos
  }

  /** The reads of `next_chunk` from offset start: 4 length bytes, 4 type
      bytes, as many data bytes as the length says and 4 CRC bytes, each read
      cut short at the end of the file. */
  function Frame(file: seq<Byte>, start: nat): (r: Framed)
    ensures start <= r.end <= Max(start, |file|)
    ensures r.end == start + 12 + r.chunk.length || r.end == Max(start, |file|)
    ensures |r.chunk.data| <= r.chunk.length
  {
    var lengthBytes := ReadAt(file, start, 4);
    var p1 := ReadEnd(file, start, 4);
    var kind := ReadAt(file, p1, 4);
    var p2 := ReadEnd(file, p1, 4);
    var data := ReadAt(file, p2, BigEndian(lengthBytes));
    var p3 := ReadEnd(file, p2, BigEndian(lengthBytes));
    var crc := ReadAt(file, p3, 4);
    Framed(NewChunk(lengthBytes, kind, data, crc), ReadEnd(file, p3, 4))
  }

  /** With enough bytes left, a frame consumes exactly 12 + L bytes, where L is
      the big-endian value of the first four, and holds the bytes in between. */
  lemma FrameAdvance(file: seq<Byte>, start: nat)
    requires start + 4 <= |file|
    requires start + 12 + BigEndian(file[start..start + 4]) <= |file|
    ensures
      var len := BigEndian(file[start..start + 4]);
      var r := Frame(file, start);
      r.end == start + 12 + len
      && r.chunk == Chunk(len, file[start + 4..start + 8], file[start + 8..start + 8 + len],
                          file[start + 8 + len..start + 12 + len], map[])
  {
  }

  /** The chunk a set of fields describes, as PngChunk would hold it. */
  function ChunkOf(f: ChunkFields): Chunk
  {
    Chunk(f.length, f.kind, f.data, f.crc, map[])
  }

  /** Framing inverts the byte image: wherever a chunk's image sits in a file,
      reading a frame at its first byte gives back the chunk and stops just
      after it, provided the length field matches the data. */
  lemma FrameOfImage(prefix: seq<Byte>, f: ChunkFields, rest: seq<Byte>)
    requires f.WellFormed() && f.length == |f.data|
    ensures Frame(prefix + ChunkImage(f) + rest, |prefix|) == Framed(ChunkOf(f), |prefix| + 12 + |f.data|)
  {
    var image := ChunkImage(f);
    var file := prefix + image + rest;
    var s, len := |prefix|, |f.data|;
    var lengthBytes := ToBigEndian(f.length, 4);
    assert file[s..s + 4] == lengthBytes && file[s + 4..s + 8] == f.kind
        && file[s + 8..s + 8 + len] == f.data && file[s + 8 + len..s + 12 + len] == f.crc by {
      PartsOfJoin(lengthBytes, f.kind, f.data, f.crc);
      SliceOfMiddle(prefix, image, rest, 0, 4);
      SliceOfMiddle(prefix, image, rest, 4, 8);
      SliceOfMiddle(prefix, image, rest, 8, 8 + len);
      SliceOfMiddle(prefix, image, rest, 8 + len, 12 + len);
    }
    BigEndianOfToBigEndian(f.length, 4);
    FrameOfFields(file, s, f);
  }

  /** A file holding the fields of f at offset s, the length field holding
      the length of the data, frames to the chunk of f. */
  lemma FrameOfFields(file: seq<Byte>, s: nat, f: ChunkFields)
    requires s + 12 + |f.data| <= |file| && f.length == |f.data|
    requires BigEndian(file[s..s + 4]) == f.length
    requires file[s + 4..s + 8] == f.kind && file[s + 8..s + 8 + |f.data|] == f.data
    requires file[s + 8 + |f.data|..s + 12 + |f.data|] == f.crc
    ensures Frame(file, s) == Framed(ChunkOf(f), s + 12 + |f.data|)
  {
    var len := |f.data|;
    assert ReadAt(file, s, 4) == file[s..s + 4] && ReadEnd(file, s, 4) == s + 4;
    assert ReadAt(file, s + 4, 4) == f.kind && ReadEnd(file, s + 4, 4) == s + 8;
    assert ReadAt(file, s + 8, len) == f.data && ReadEnd(file, s + 8, len) == s + 8 + len;
    assert ReadAt(file, s + 8 + len, 4) == f.crc && ReadEnd(file, s + 8 + len, 4) == s + 12 + len;
  }
}
