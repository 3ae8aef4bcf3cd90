/** `PngReader` of pngr.py: a single cursor over the bytes of an open PNG
    file, and the resume point saved after each successful read. */
module PngReading {
  import opened Bytes
  import opened Results
  import opened PngChunks

  class PngReader {
    /** The bytes of the file. */
    const file: seq<Byte>
    /** `png_sig`: the first bytes of the file, read by `is_valid`. */
    const pngSig: seq<Byte>
    /** `png.tell()`: the file cursor. */
    var pos: nat
    /** `last_pos`: the cursor after the last successful open or `next_chunk`. */
    var lastPos: nat

    ghost predicate Valid()
      reads this
    {
      |file| >= |Signature| && pos <= |file| && lastPos <= |file|
    }

    /** `__init__` followed by `open_png`: a reader only exists for a file that
        passed `is_valid`, and it starts at offset 0. */
    constructor Open(file: seq<Byte>)
      requires IsValid(file)
      ensures Valid() && this.file == file && pngSig == file[..8]
      ensures pos == 0 && lastPos == 0
    {
      this.file := file;
      pngSig := ReadAt(file, 0, 8);
      pos := 0;
      lastPos := 0;
    }

    /** `PngReader(path)`: raises PngError unless the file starts with the signature. */
    static method Create(file: seq<Byte>) returns (r: Result<PngReader, Error>)
      ensures r.Failure? <==> !IsValid(file)
      ensures r.Failure? ==> r.error == PngError
      ensures r.Success? ==> fresh(r.value) && r.value.Valid() && r.value.file == file
                             && r.value.pos == 0 && r.value.lastPos == 0
    {
      if !IsValid(file) {
        return Failure(PngError);
      }
      var reader := new PngReader.Open(file);
      return Success(reader);
    }

    /** `png.read(n)`: at most n bytes from the cursor, which moves past them. */
    method Read(n: nat) returns (bytes: seq<Byte>)
      requires Valid()
      modifies this`pos
      ensures Valid()
      ensures bytes == ReadAt(file, old(pos), n) && pos == ReadEnd(file, old(pos), n)
      ensures pos == old(pos) + |bytes|
    {
      bytes := file[pos..Min(pos + n, |file|)];
      pos := pos + |bytes|;
    }

    /** `resume`: move the cursor back to the saved resume point. */
    method Resume()
      requires Valid()
      modifies this`pos
      ensures Valid() && pos == lastPos
    {
      pos := lastPos;
    }

    /** `next_chunk`: skip the signature when at offset 0, read one frame, and
        save the cursor after it as the new resume point. */
    method NextChunk() returns (c: PngChunks.Chunk)
      requires Valid()
      modifies this`pos, this`lastPos
      ensures Valid()
      ensures Framed(c, pos) == Frame(file, FrameStart(old(pos)))
      ensures lastPos == pos
    {
      if pos == 0 {
        pos := |Signature|;
      }
      ghost var start := pos;
      var lengthBytes := Read(4);
      var kind := Read(4);
      var data := Read(BigEndian(lengthBytes));
      var crc := Read(4);
      lastPos := pos;
      c := NewChunk(lengthBytes, kind, data, crc);
    }

    /** `has_more`: look 12 bytes ahead of the cursor, then seek back to the
        resume point. */
    method HasMore() returns (more: bool)
      requires Valid()
      modifies this`pos
      ensures Valid()
      ensures more <==> |file| - old(pos) >= 12
      ensures pos == lastPos
      ensures old(pos) == lastPos ==> pos == old(pos)
    {
      var ahead := Read(12);
      if |ahead| < 12 {
        pos := lastPos;
        return false;
      } else {
        pos := lastPos;
        return true;
      }
    }

    /** `has_more` as the comment above it intends: at least 12 bytes (the
        smallest chunk) remain where `next_chunk` will start reading. */
    method HasMoreChunk() returns (more: bool)
      requires Valid()
      modifies this`pos
      ensures Valid()
      ensures more <==> |file| - FrameStart(old(pos)) >= 12
      ensures pos == lastPos
      ensures old(pos) == lastPos ==> pos == old(pos)
    {
      if pos == 0 {
        pos := |Signature|;
      }
      var ahead := Read(12);
      pos := lastPos;
      more := |ahead| == 12;
    }
  }

  /** A file holding the signature and four more bytes: at offset 0, `has_more`
      finds 12 bytes ahead (it counts the signature), yet the frame
      `next_chunk` then reads from offset 8 is cut short by the end of the file. */
  lemma HasMoreCountsSignature()
    ensures
      var file := Signature + [0, 0, 0, 0];
      IsValid(file) && |file| - 0 >= 12
      && !(|file| - FrameStart(0) >= 12)
      && Frame(file, FrameStart(0)).end < FrameStart(0) + 12
  {
    var file := Signature + [0, 0, 0, 0];
    assert file[..8] == Signature;
  }

  /** Once `has_more_chunk` says yes, the frame `next_chunk` reads holds a full
      4-byte type, its Length is the value of four bytes of the file, and the
      cursor moves past at least those eight bytes. */
  lemma HasMoreChunkSound(file: seq<Byte>, pos: nat)
    requires |file| - FrameStart(pos) >= 12
    ensures |Frame(file, FrameStart(pos)).chunk.kind| == 4
    ensures Frame(file, FrameStart(pos)).chunk.length
      == BigEndian(file[FrameStart(pos)..FrameStart(pos) + 4])
    ensures Frame(file, FrameStart(pos)).end >= FrameStart(pos) + 8
  {
  }
}
