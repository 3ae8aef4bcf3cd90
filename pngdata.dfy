/** `PngData` of pngr.py: the chunks of one image, appended in reading order,
    and the static colour-type table. */
module PngImageData {
  import opened Bytes
  import opened Results
  import opened PngChunks

  /** Whether a PLTE chunk must appear (True), must not appear (False) or may
      appear (None) for a colour type. */
  datatype PaletteRule = Required | Forbidden | Optional

  /** Channels per pixel and the palette rule of one colour type. */
  datatype ColorInfo = ColorInfo(channels: nat, palette: PaletteRule)

  /** `PngData.colortypes`. */
  const ColorTypes: map<int, ColorInfo> :=
    map[0 := ColorInfo(1, Forbidden),
        2 := ColorInfo(3, Optional),
        3 := ColorInfo(1, Required),
        4 := ColorInfo(2, Forbidden),
        6 := ColorInfo(4, Optional)]

  /** `colortypes[t]`: None where the dictionary lookup raises KeyError. */
  function ColorTypeInfo(colorType: int): (r: Option<ColorInfo>)
    ensures r.Some? <==> colorType in {0, 2, 3, 4, 6}
    ensures r.Some? ==> 1 <= r.value.channels <= 4
    ensures r.Some? ==> (r.value.palette == Required <==> colorType == 3)
    ensures r.Some? ==> (r.value.palette == Forbidden <==> colorType == 0 || colorType == 4)
    ensures r.Some? ==> (r.value.channels == 1 <==> colorType == 0 || colorType == 3)
    ensures r.Some? ==> (r.value.channels == 3 <==> colorType == 2)
    ensures r.Some? ==> (r.value.channels == 2 <==> colorType == 4)
  {
    if colorType in ColorTypes then Some(ColorTypes[colorType]) else None
  }

  class PngData {
    /** The PNG signature, or None when constructed without it. */
    var signature: Option<seq<Byte>>
    /** The chunks added so far, in order. */
    var chunks: seq<Chunk>
    /** Positions of the IHDR and PLTE chunks; never set by the source yet. */
    var ihdrPos: Option<nat>
    var pltePos: Option<nat>

    /** `PngData(add_sig)`: no chunks yet, the signature kept only on request. */
    constructor (addSig: bool)
      ensures signature == (if addSig then Some(Signature) else None)
      ensures chunks == [] && ihdrPos == None && pltePos == None
    {
      signature := if addSig then Some(Signature) else None;
      chunks := [];
      ihdrPos := None;
      pltePos := None;
    }

    /** `add_chunk`: raises PngError for anything but a chunk; otherwise appends it. */
    method AddChunk(obj: Object) returns (err: Option<Error>)
      modifies this`chunks
      ensures obj.OtherObject? ==> err == Some(PngError) && chunks == old(chunks)
      ensures obj.ChunkObject? ==> err == None && chunks == old(chunks) + [obj.chunk]
      ensures |chunks| <= |old(chunks)| + 1 && chunks[..|old(chunks)|] == old(chunks)
    {
      if obj.OtherObject? {
        return Some(PngError);
      }
      chunks := chunks + [obj.chunk];
      return None;
    }
  }
}
