/**
 * The tool's --brute run: the repair pass followed by variant generation on the
 * repaired bytes, the repaired header and the pixel byte count the pass returns.
 */
module FixThenVariants {
  import opened HeaderView
  import opened RepairEngine
  import opened RepairProperties
  import opened VariantGenerator

  /** The variants generated from the result of a pass. */
  function VariantsOf(r: Repaired): Result<seq<Variant>>
  {
    Variants(r.buf, r.hdr, r.pixelBytes)
  }

  /** Generation after a successful pass succeeds whenever the repaired file still holds the
      width and height fields. */
  lemma VariantsAfterFix(s: seq<Byte>, r: Repaired)
    requires Fix(s) == Ok(r) && |r.buf| >= At(Height) + 4
    ensures VariantsOf(r).Ok?
  {
    FixRestoresHeader(s, r);
    FixTruncation(s, r);
    var px := r.pixelBytes;
    if px >= 0 {
      VariantsSucceed(r.buf, r.hdr, px);
    } else {
      FixSettlesHeight(s, r);
      FixNegativePixels(s, r);
      var rb := RowStride(r.hdr.width, r.hdr.bpp);
      if rb != 0 && px % rb == 0 {
        QuotientBracket(px, rb);
      }
      assert HeightVariant(r.buf, r.hdr, px) == Ok([]);
      assert WidthVariant(r.buf, r.hdr, px) == Ok([]);
    }
  }

  /** After a successful pass the height variant can only propose an empty picture: it is
      generated only when there are no pixel bytes, and then holds height 0. */
  lemma HeightVariantAfterFix(s: seq<Byte>, r: Repaired, v: Variant)
    requires Fix(s) == Ok(r) && VariantsOf(r).Ok? && v in VariantsOf(r).value && v.dim == VaryHeight
    ensures r.pixelBytes == 0 && v.value == 0 && r.hdr.height != 0
  {
    HeightVariantSound(r.buf, r.hdr, r.pixelBytes, v);
    HeightVariantValue(r.buf, r.hdr, r.pixelBytes);
    FixSettlesHeight(s, r);
    EmptyRows(r.pixelBytes, RowStride(r.hdr.width, r.hdr.bpp), r.hdr.height, v.value);
  }

  /** A row count that is neither the settled height nor zero cannot divide the pixel bytes. */
  lemma EmptyRows(px: int, rs: nat, height: nat, n: int)
    requires rs != 0 && px % rs == 0 && n == px / rs && n != height
    requires px / rs == height || px == 0
    ensures px == 0 && n == 0
  {
  }

  /** A 30-byte 8-bit file whose pixels start at offset 1, with width 1 and height 4 (16 bytes
      of pixel rows): 13 bytes longer than its header declares, and with a file size field of 1. */
  function ShortRowsExample(): (s: seq<Byte>)
    ensures |s| == HeaderBytes && HasSignature(s)
  {
    [0x42, 0x4D, 1, 0, 0, 0, 0, 0, 0, 0, 1, 0, 0, 0, 40, 0, 0, 0, 1, 0, 0, 0, 4, 0, 0, 0, 1, 0, 8, 0]
  }

  lemma ShortRowsHeader()
    ensures ParseHeader(ShortRowsExample()) == Header(1, 1, 40, 1, 4, 8)
  {
    var s := ShortRowsExample();
    assert s[2] == 1 && s[3] == 0 && s[4] == 0 && s[5] == 0;
    assert s[10] == 1 && s[11] == 0 && s[12] == 0 && s[13] == 0;
    assert s[14] == 40 && s[15] == 0 && s[16] == 0 && s[17] == 0;
    assert s[18] == 1 && s[19] == 0 && s[20] == 0 && s[21] == 0;
    assert s[22] == 4 && s[23] == 0 && s[24] == 0 && s[25] == 0;
    assert s[28] == 8 && s[29] == 0;
  }

  /** Steps 4 to 6 on the example once its file size is corrected: 29 pixel bytes fit no whole
      number of 4-byte rows, so neither dimension changes, and the buffer is cut to 17 bytes. */
  lemma ShortRowsReshape(w: Work)
    requires w.hdr == Header(30, 1, 40, 1, 4, 8) && |w.buf| == HeaderBytes
    ensures Reshape(w) == Ok(Repaired(WriteU32(w.buf[..17], At(FileSize), 17), w.hdr.(fileSize := 17), 16, false))
  {
    assert RowStride(1, 8) == 4;
    assert InferWidth(w) == Ok(w);
    assert InferHeight(w) == Ok(w);
  }

  /** The width variant of the cut example needs bytes 18 to 21, which it no longer has. */
  lemma ShortRowsVariants(buf: seq<Byte>, hdr: Header)
    requires |buf| == 17 && hdr == Header(17, 1, 40, 1, 4, 8)
    ensures Variants(buf, hdr, 16) == Err(StructError)
  {
    assert RowStride(1, 8) == 4;
    assert HeightVariant(buf, hdr, 16) == Ok([]);
  }

  /** A file that is longer than its header declares is cut below the end of the width field,
      and the width variant of the result then fails to store width 4: generation raises a
      struct error on a file the pass repaired. */
  lemma VariantsFailAfterTruncation()
    ensures Fix(ShortRowsExample()).Ok?
    ensures var r := Fix(ShortRowsExample()).value;
            |r.buf| == 17 && VariantsOf(r) == Err(StructError)
  {
    var s := ShortRowsExample();
    ShortRowsHeader();
    var h := ParseHeader(s);
    var w3 := Work(WriteU32(s, At(FileSize), 30), h.(fileSize := 30));
    assert Correct(Work(s, h)) == Ok(w3);
    ShortRowsReshape(w3);
    var r := Repaired(WriteU32(w3.buf[..17], At(FileSize), 17), w3.hdr.(fileSize := 17), 16, false);
    FixOf(s, w3, Ok(r));
    ShortRowsVariants(r.buf, r.hdr);
  }
}
