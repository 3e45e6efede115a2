/**
 * The repair engine: one ordered pass of corrections over the bytes of a BMP
 * file (pixel offset, DIB header size, file size, width from height, height
 * from width, then truncation of trailing bytes).
 *
 * Fix is the pass as a function of the input bytes; Repair performs it in
 * place on a byte array and is proved to compute Fix.
 */
module RepairEngine {
  import opened HeaderView

  /** Where pixel data starts in a true-colour file: 14-byte file header plus 40-byte info header. */
  const TrueColorOffset: nat := 54

  /** Size of a BITMAPINFOHEADER, the only DIB header the repair supports. */
  const InfoHeaderSize: nat := 40

  /** The file starts with the ASCII signature "BM". */
  predicate HasSignature(s: seq<Byte>)
  {
    |s| >= 2 && s[0] == 0x42 && s[1] == 0x4D
  }

  /** The state the pass threads through its steps: the buffer and the header as last decoded or set. */
  datatype Work = Work(buf: seq<Byte>, hdr: Header)
  {
    /** Bytes from the pixel offset to the end of the buffer; negative when the offset lies past the end. */
    function PixelBytes(): int
    {
      |buf| - hdr.offset
    }
  }

  /** What a successful pass yields: the repaired bytes, the final header, the pixel byte count
      and whether the file is shorter than its header says (the truncation warning). */
  datatype Repaired = Repaired(buf: seq<Byte>, hdr: Header, pixelBytes: int, missingPixels: bool)

  /** Stores v in field f of the buffer and of the header, or fails as the packed write does. */
  function Store(w: Work, f: Field, v: int): Result<Work>
  {
    if Packable(w.buf, At(f), v) then Ok(Work(WriteU32(w.buf, At(f), v), w.hdr.With(f, v)))
    else Err(StructError)
  }

  /** Step 1: a true-colour image has no palette, so its pixels start right after the headers. */
  function CorrectOffset(w: Work): Result<Work>
  {
    if w.hdr.bpp > 8 && w.hdr.offset != TrueColorOffset then Store(w, PixelOffset, TrueColorOffset)
    else Ok(w)
  }

  /** Step 2: the DIB header is a BITMAPINFOHEADER. */
  function CorrectDibSize(w: Work): Result<Work>
  {
    if w.hdr.dibSize != InfoHeaderSize then Store(w, DibSize, InfoHeaderSize) else Ok(w)
  }

  /** Step 3: the file size field is the length of the buffer. */
  function CorrectFileSize(w: Work): Result<Work>
  {
    if w.hdr.fileSize != |w.buf| then Store(w, FileSize, |w.buf|) else Ok(w)
  }

  /** Step 4: trusting the height, the width whose padded rows the pixel bytes divide into. */
  function InferWidth(w: Work): Result<Work>
    requires w.hdr.bpp / 8 != 0
  {
    var px := w.PixelBytes();
    if w.hdr.height != 0 && px % w.hdr.height == 0 then
      var rowBytes := px / w.hdr.height;
      if rowBytes % 4 == 0 then
        var width := rowBytes / (w.hdr.bpp / 8);
        if width != 0 && width != w.hdr.width then Store(w, Width, width) else Ok(w)
      else Ok(w)
    else Ok(w)
  }

  /** Step 5: trusting the width, the number of rows the pixel bytes hold. */
  function InferHeight(w: Work): Result<Work>
  {
    var px := w.PixelBytes();
    var rowBytes := RowStride(w.hdr.width, w.hdr.bpp);
    if rowBytes != 0 && px % rowBytes == 0 then
      var height := px / rowBytes;
      if height != 0 && height != w.hdr.height then Store(w, Height, height) else Ok(w)
    else Ok(w)
  }

  /** The length of a file whose pixel array exactly fills the declared rectangle. */
  function Expected(h: Header): nat
  {
    h.offset + RowStride(h.width, h.bpp) * h.height
  }

  /** Step 6: drop the bytes past the declared pixel array and record the new length,
      or flag a file that is too short. */
  function Truncate(w: Work): Result<Repaired>
  {
    var expected := Expected(w.hdr);
    if |w.buf| > expected then
      var cut :- Store(Work(w.buf[..expected], w.hdr), FileSize, expected);
      Ok(Repaired(cut.buf, cut.hdr, cut.PixelBytes(), false))
    else
      Ok(Repaired(w.buf, w.hdr, w.PixelBytes(), |w.buf| < expected))
  }

  /** The whole pass over the bytes of a file. */
  function Fix(input: seq<Byte>): Result<Repaired>
  {
    if !HasSignature(input) then Err(NotBmp)
    else if |input| < HeaderBytes then Err(StructError)
    else
      var w3 :- Correct(Work(input, ParseHeader(input)));
      if w3.hdr.bpp / 8 == 0 then Err(InvalidBpp) else Reshape(w3)
  }

  /** Steps 1 to 3, which need no pixel geometry. */
  function Correct(w: Work): Result<Work>
  {
    var w1 :- CorrectOffset(w);
    var w2 :- CorrectDibSize(w1);
    CorrectFileSize(w2)
  }

  /** Steps 4 to 6, once the bits-per-pixel guard has passed. */
  function Reshape(w: Work): Result<Repaired>
    requires w.hdr.bpp / 8 != 0
  {
    var w4 :- InferWidth(w);
    var w5 :- InferHeight(w4);
    Truncate(w5)
  }

  /** The pass as the tool runs it: a fresh bytearray patched in place, a header updated
      field by field, and a slice taken when truncating. */
  method Repair(input: seq<Byte>) returns (r: Result<Repaired>)
    ensures r == Fix(input)
  {
    if !HasSignature(input) {
      return Err(NotBmp);
    }
    if |input| < HeaderBytes {
      return Err(StructError);
    }
    var buf := new Byte[|input|](i requires 0 <= i < |input| => input[i]);
    assert buf[..] == input;
    var hdr := ParseHeader(buf[..]);
    var corrected := CorrectInPlace(buf, hdr);
    if corrected.Err? {
      return Err(corrected.error);
    }
    hdr := corrected.value;
    var bppBytes := hdr.bpp / 8;
    if bppBytes == 0 {
      return Err(InvalidBpp);
    }
    r := ReshapeInPlace(buf, hdr);
  }

  /** Steps 1 to 3 of Repair, patching the array and returning the header as corrected. */
  method CorrectInPlace(buf: array<Byte>, hdr0: Header) returns (r: Result<Header>)
    requires buf.Length >= HeaderBytes
    modifies buf
    ensures r.Ok? ==> Correct(Work(old(buf[..]), hdr0)) == Ok(Work(buf[..], r.value))
    ensures r.Err? ==> Correct(Work(old(buf[..]), hdr0)) == Err(r.error)
  {
    var hdr := hdr0;
    ghost var w0 := Work(buf[..], hdr);
    if hdr.bpp > 8 && hdr.offset != TrueColorOffset {
      PatchU32(buf, At(PixelOffset), TrueColorOffset);
      hdr := hdr.(offset := TrueColorOffset);
    }
    ghost var w1 := Work(buf[..], hdr);
    assert CorrectOffset(w0) == Ok(w1);

    if hdr.dibSize != InfoHeaderSize {
      PatchU32(buf, At(DibSize), InfoHeaderSize);
      hdr := hdr.(dibSize := InfoHeaderSize);
    }
    ghost var w2 := Work(buf[..], hdr);
    assert CorrectDibSize(w1) == Ok(w2);

    if hdr.fileSize != buf.Length {
      if !Packable(buf[..], At(FileSize), buf.Length) {
        assert CorrectFileSize(w2) == Err(StructError);
        return Err(StructError);
      }
      PatchU32(buf, At(FileSize), buf.Length);
      hdr := hdr.(fileSize := buf.Length);
    }
    assert CorrectFileSize(w2) == Ok(Work(buf[..], hdr));
    r := Ok(hdr);
  }

  /** Steps 4 to 6 of Repair, on the patched array and the header corrected so far. */
  method ReshapeInPlace(buf: array<Byte>, hdr0: Header) returns (r: Result<Repaired>)
    requires hdr0.bpp / 8 != 0
    modifies buf
    ensures r == Reshape(Work(old(buf[..]), hdr0))
  {
    var hdr := hdr0;
    ghost var w3 := Work(buf[..], hdr);
    var bppBytes := hdr.bpp / 8;
    if hdr.height != 0 && (buf.Length - hdr.offset) % hdr.height == 0 {
      var rowBytes := (buf.Length - hdr.offset) / hdr.height;
      if rowBytes % 4 == 0 {
        var width := rowBytes / bppBytes;
        if width != 0 && width != hdr.width {
          if !Packable(buf[..], At(Width), width) {
            assert InferWidth(w3) == Err(StructError);
            return Err(StructError);
          }
          PatchU32(buf, At(Width), width);
          hdr := hdr.(width := width);
        }
      }
    }
    ghost var w4 := Work(buf[..], hdr);
    assert InferWidth(w3) == Ok(w4);

    var rowSize := RowStride(hdr.width, hdr.bpp);
    if rowSize != 0 && (buf.Length - hdr.offset) % rowSize == 0 {
      var height := (buf.Length - hdr.offset) / rowSize;
      if height != 0 && height != hdr.height {
        if !Packable(buf[..], At(Height), height) {
          assert InferHeight(w4) == Err(StructError);
          return Err(StructError);
        }
        PatchU32(buf, At(Height), height);
        hdr := hdr.(height := height);
      }
    }
    ghost var w5 := Work(buf[..], hdr);
    assert InferHeight(w4) == Ok(w5);
    r := TruncateInPlace(buf, hdr);
  }

  /** Step 6 of Repair: a shorter copy when the buffer runs past the declared pixel array. */
  method TruncateInPlace(buf: array<Byte>, hdr0: Header) returns (r: Result<Repaired>)
    ensures r == Truncate(Work(buf[..], hdr0))
  {
    var hdr := hdr0;
    var expected := hdr.offset + RowStride(hdr.width, hdr.bpp) * hdr.height;
    if buf.Length > expected {
      var cut := new Byte[expected](i requires 0 <= i < expected && i < buf.Length reads buf => buf[i]);
      assert cut[..] == buf[..][..expected];
      if !Packable(cut[..], At(FileSize), cut.Length) {
        return Err(StructError);
      }
      PatchU32(cut, At(FileSize), cut.Length);
      hdr := hdr.(fileSize := cut.Length);
      r := Ok(Repaired(cut[..], hdr, cut.Length - hdr.offset, false));
    } else {
      r := Ok(Repaired(buf[..], hdr, buf.Length - hdr.offset, buf.Length < expected));
    }
  }
}
