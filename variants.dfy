/**
 * Dimension variants of a repaired file: when the repaired picture still looks
 * distorted, one copy of it with the height the width's rows account for and one
 * with the width the height's rows account for, each with its file size field
 * set to the length of the copy.
 *
 * Variants is the generation as a function of the repaired bytes, the repaired
 * header and the pixel byte count; BruteVariants builds each copy in a fresh
 * byte array and is proved to compute Variants.
 */
module VariantGenerator {
  import opened HeaderView

  /** Which dimension a variant changes. */
  datatype Dimension = VaryHeight | VaryWidth

  /** One generated copy: its bytes, the dimension it changes and the value stored there. */
  datatype Variant = Variant(buf: seq<Byte>, dim: Dimension, value: int)

  /** The header field a dimension lives in. */
  function FieldOf(d: Dimension): (f: Field)
    ensures f == Width || f == Height
    ensures (f == Height) == (d == VaryHeight)
  {
    match d
    case VaryHeight => Height
    case VaryWidth => Width
  }

  /** A copy of the repaired bytes with v in the dimension's field and the copy's length in the
      file size field, or the struct error the first write that does not fit raises. */
  function Retag(fixed: seq<Byte>, d: Dimension, v: int): (r: Result<seq<Byte>>)
    ensures r.Ok? <==> At(FieldOf(d)) + 4 <= |fixed| && 0 <= v < TWO32 && |fixed| < TWO32
    ensures r.Err? ==> r.error == StructError
    ensures r.Ok? ==>
              |r.value| == |fixed| && ReadU32(r.value, At(FieldOf(d))) == v &&
              ReadU32(r.value, At(FileSize)) == |fixed| &&
              forall i ::
                0 <= i < |fixed| && !(At(FieldOf(d)) <= i < At(FieldOf(d)) + 4) && !(At(FileSize) <= i < At(FileSize) + 4)
                ==> r.value[i] == fixed[i]
  {
    var f := FieldOf(d);
    if !Packable(fixed, At(f), v) then Err(StructError)
    else
      var nb := WriteU32(fixed, At(f), v);
      if !Packable(nb, At(FileSize), |nb|) then Err(StructError)
      else
        var r := WriteU32(nb, At(FileSize), |nb|);
        assert r[At(f)..At(f) + 4] == nb[At(f)..At(f) + 4];
        Ok(r)
  }

  /** The height variant: the number of rows of the current width the pixel bytes hold, when it
      is whole and differs from the header's height. */
  function HeightVariant(fixed: seq<Byte>, hdr: Header, px: int): Result<seq<Variant>>
  {
    var rowBytes := RowStride(hdr.width, hdr.bpp);
    if rowBytes != 0 && px % rowBytes == 0 && px / rowBytes != hdr.height then
      var nb :- Retag(fixed, VaryHeight, px / rowBytes);
      Ok([Variant(nb, VaryHeight, px / rowBytes)])
    else Ok([])
  }

  /** The width variant: the pixels per row when the pixel bytes split into the header's number
      of rows of a 4-byte-aligned length, when it differs from the header's width. */
  function WidthVariant(fixed: seq<Byte>, hdr: Header, px: int): Result<seq<Variant>>
  {
    if hdr.height != 0 && px % hdr.height == 0 && (px / hdr.height) % 4 == 0 then
      if hdr.bpp / 8 == 0 then Err(DivisionByZero)
      else
        var w := px / hdr.height / (hdr.bpp / 8);
        if w != hdr.width then
          var nb :- Retag(fixed, VaryWidth, w);
          Ok([Variant(nb, VaryWidth, w)])
        else Ok([])
    else Ok([])
  }

  /** The variants in the order they are generated: height first, then width. */
  function Variants(fixed: seq<Byte>, hdr: Header, px: int): Result<seq<Variant>>
  {
    var hs :- HeightVariant(fixed, hdr, px);
    var ws :- WidthVariant(fixed, hdr, px);
    Ok(hs + ws)
  }

  /** A fresh copy of the repaired bytes patched as Retag describes. */
  method Retagged(fixed: seq<Byte>, d: Dimension, v: int) returns (r: Result<seq<Byte>>)
    ensures r == Retag(fixed, d, v)
  {
    var nb := new Byte[|fixed|](i requires 0 <= i < |fixed| => fixed[i]);
    assert nb[..] == fixed;
    if !Packable(nb[..], At(FieldOf(d)), v) {
      return Err(StructError);
    }
    PatchU32(nb, At(FieldOf(d)), v);
    if !Packable(nb[..], At(FileSize), nb.Length) {
      return Err(StructError);
    }
    PatchU32(nb, At(FileSize), nb.Length);
    r := Ok(nb[..]);
  }

  /** The generation as the tool runs it: a list that each branch appends its copy to. */
  method BruteVariants(fixed: seq<Byte>, hdr: Header, px: int) returns (r: Result<seq<Variant>>)
    ensures r == Variants(fixed, hdr, px)
  {
    var hs := HeightBranch(fixed, hdr, px);
    if hs.Err? {
      return Err(hs.error);
    }
    var variants := hs.value;
    var ws := WidthBranch(fixed, hdr, px);
    if ws.Err? {
      return Err(ws.error);
    }
    variants := variants + ws.value;
    r := Ok(variants);
  }

  /** The height branch of BruteVariants. */
  method HeightBranch(fixed: seq<Byte>, hdr: Header, px: int) returns (r: Result<seq<Variant>>)
    ensures r == HeightVariant(fixed, hdr, px)
  {
    var rowBytes := RowStride(hdr.width, hdr.bpp);
    if rowBytes != 0 && px % rowBytes == 0 {
      var h := px / rowBytes;
      if h != hdr.height {
        var nb := Retagged(fixed, VaryHeight, h);
        if nb.Err? {
          return Err(nb.error);
        }
        return Ok([Variant(nb.value, VaryHeight, h)]);
      }
    }
    r := Ok([]);
  }

  /** The width branch of BruteVariants; the pixel size in bytes divides the row length. */
  method WidthBranch(fixed: seq<Byte>, hdr: Header, px: int) returns (r: Result<seq<Variant>>)
    ensures r == WidthVariant(fixed, hdr, px)
  {
    var bppBytes := hdr.bpp / 8;
    if hdr.height != 0 && px % hdr.height == 0 {
      var rows := px / hdr.height;
      if rows % 4 == 0 {
        if bppBytes == 0 {
          return Err(DivisionByZero);
        }
        var w := rows / bppBytes;
        if w != hdr.width {
          var nb := Retagged(fixed, VaryWidth, w);
          if nb.Err? {
            return Err(nb.error);
          }
          return Ok([Variant(nb.value, VaryWidth, w)]);
        }
      }
    }
    r := Ok([]);
  }

  // ------------------------------------------------------------------
  // What the variants are
  // ------------------------------------------------------------------

  /** v is a copy of the repaired bytes that differs from them only in its dimension's field,
      which holds a value other than the header's, and in the file size field, which holds the
      copy's length. */
  predicate IsVariantOf(v: Variant, fixed: seq<Byte>, hdr: Header)
  {
    var f := FieldOf(v.dim);
    |v.buf| == |fixed| && At(f) + 4 <= |fixed| &&
    ReadU32(v.buf, At(f)) == v.value && v.value != hdr.Get(f) &&
    ReadU32(v.buf, At(FileSize)) == |fixed| &&
    forall i ::
      0 <= i < |fixed| && !(At(f) <= i < At(f) + 4) && !(At(FileSize) <= i < At(FileSize) + 4)
      ==> v.buf[i] == fixed[i]
  }

  /** A successful copy holding a value other than the header's is a variant. */
  lemma RetagIsVariant(fixed: seq<Byte>, hdr: Header, d: Dimension, v: int)
    requires Retag(fixed, d, v).Ok? && v != hdr.Get(FieldOf(d))
    ensures IsVariantOf(Variant(Retag(fixed, d, v).value, d, v), fixed, hdr)
  {
  }

  lemma HeightVariantShape(fixed: seq<Byte>, hdr: Header, px: int)
    requires HeightVariant(fixed, hdr, px).Ok?
    ensures var hs := HeightVariant(fixed, hdr, px).value;
            |hs| <= 1 && forall i :: 0 <= i < |hs| ==> hs[i].dim == VaryHeight && IsVariantOf(hs[i], fixed, hdr)
  {
    var rowBytes := RowStride(hdr.width, hdr.bpp);
    if rowBytes != 0 && px % rowBytes == 0 && px / rowBytes != hdr.height {
      RetagIsVariant(fixed, hdr, VaryHeight, px / rowBytes);
    }
  }

  lemma WidthVariantShape(fixed: seq<Byte>, hdr: Header, px: int)
    requires WidthVariant(fixed, hdr, px).Ok?
    ensures var ws := WidthVariant(fixed, hdr, px).value;
            |ws| <= 1 && forall i :: 0 <= i < |ws| ==> ws[i].dim == VaryWidth && IsVariantOf(ws[i], fixed, hdr)
  {
    if hdr.height != 0 && px % hdr.height == 0 && (px / hdr.height) % 4 == 0 && hdr.bpp / 8 != 0 {
      var w := px / hdr.height / (hdr.bpp / 8);
      if w != hdr.width {
        RetagIsVariant(fixed, hdr, VaryWidth, w);
      }
    }
  }

  /** At most one variant per dimension, the height one first, each made from the repaired
      bytes themselves (the width variant never starts from the height variant). */
  lemma VariantsShape(fixed: seq<Byte>, hdr: Header, px: int)
    requires Variants(fixed, hdr, px).Ok?
    ensures var vs := Variants(fixed, hdr, px).value;
            |vs| <= 2 &&
            (forall i :: 0 <= i < |vs| ==> IsVariantOf(vs[i], fixed, hdr)) &&
            (forall i, j :: 0 <= i < j < |vs| ==> vs[i].dim == VaryHeight && vs[j].dim == VaryWidth)
  {
    HeightVariantShape(fixed, hdr, px);
    WidthVariantShape(fixed, hdr, px);
  }

  /** A header with one dimension replaced describes a pixel array of exactly px bytes. */
  predicate Fills(hdr: Header, px: int)
  {
    RowStride(hdr.width, hdr.bpp) * hdr.height == px
  }

  /** Where the height variant comes from, before any arithmetic. */
  lemma HeightVariantValue(fixed: seq<Byte>, hdr: Header, px: int)
    requires Variants(fixed, hdr, px).Ok?
    ensures var vs := Variants(fixed, hdr, px).value;
            var rb := RowStride(hdr.width, hdr.bpp);
            (|vs| > 0 && vs[0].dim == VaryHeight <==> rb != 0 && px % rb == 0 && px / rb != hdr.height) &&
            (|vs| > 0 && vs[0].dim == VaryHeight ==> vs[0].value == px / rb && vs[0].value >= 0)
  {
    var ws := WidthVariant(fixed, hdr, px).value;
    assert |ws| > 0 ==> ws[0].dim == VaryWidth;
  }

  /** Where the width variant comes from, before any arithmetic. */
  lemma WidthVariantValue(fixed: seq<Byte>, hdr: Header, px: int)
    requires Variants(fixed, hdr, px).Ok?
    ensures var vs := Variants(fixed, hdr, px).value;
            var bb := hdr.bpp / 8;
            (|vs| > 0 && vs[|vs| - 1].dim == VaryWidth <==>
               hdr.height != 0 && px % hdr.height == 0 && (px / hdr.height) % 4 == 0 &&
               px / hdr.height / bb != hdr.width) &&
            (|vs| > 0 && vs[|vs| - 1].dim == VaryWidth ==>
               bb != 0 && vs[|vs| - 1].value == px / hdr.height / bb && vs[|vs| - 1].value >= 0)
  {
    var hs := HeightVariant(fixed, hdr, px).value;
    assert |hs| > 0 ==> hs[0].dim == VaryHeight;
  }

  /** The number of whole pixels of bb bytes in a row of the given length. */
  lemma PixelsPerRow(rowBytes: int, bb: int, w: int)
    requires bb > 0 && w * bb <= rowBytes < w * bb + bb
    ensures rowBytes / bb == w
  {
    DivMod(rowBytes, bb, w, rowBytes - w * bb);
  }

  /** Rows of a 4-byte-aligned length, holding at most four bytes per pixel, are the padded rows
      of the width they hold. */
  lemma RowsFill(px: int, height: nat, bpp: nat)
    requires height != 0 && px % height == 0 && (px / height) % 4 == 0 && 1 <= bpp / 8 <= 4
    requires px / height / (bpp / 8) >= 0
    ensures RowStride(px / height / (bpp / 8), bpp) * height == px
  {
    var rows := px / height;
    ExactQuotient(px, height);
    assert rows >= 0 by {
      QuotientBracket(rows, bpp / 8);
    }
    StrideRoundTrip(rows, bpp);
  }

  /** The height variant holds the number of rows of the header's width that make up exactly
      the pixel bytes, so its header fills them. */
  lemma HeightVariantSound(fixed: seq<Byte>, hdr: Header, px: int, v: Variant)
    requires Variants(fixed, hdr, px).Ok? && v in Variants(fixed, hdr, px).value && v.dim == VaryHeight
    ensures v == Variants(fixed, hdr, px).value[0]
    ensures v.value >= 0 && v.value != hdr.height
    ensures v.value >= 0 ==> Fills(hdr.(height := v.value), px)
  {
    VariantsShape(fixed, hdr, px);
    HeightVariantValue(fixed, hdr, px);
    var rb := RowStride(hdr.width, hdr.bpp);
    if rb != 0 && px % rb == 0 {
      ExactQuotient(px, rb);
    }
  }

  /** Every number of rows of the header's width that makes up exactly the pixel bytes and is
      not the header's height is generated as the height variant. */
  lemma HeightVariantComplete(fixed: seq<Byte>, hdr: Header, px: int, n: nat)
    requires Variants(fixed, hdr, px).Ok?
    requires RowStride(hdr.width, hdr.bpp) != 0 && Fills(hdr.(height := n), px) && n != hdr.height
    ensures var vs := Variants(fixed, hdr, px).value;
            |vs| > 0 && vs[0].dim == VaryHeight && vs[0].value == n
  {
    HeightVariantValue(fixed, hdr, px);
    ExactDivisor(px, RowStride(hdr.width, hdr.bpp), n);
  }

  /** The width variant holds the number of whole pixels in a row, when the pixel bytes split
      into the header's number of rows of a length that is a multiple of 4. */
  lemma WidthVariantSound(fixed: seq<Byte>, hdr: Header, px: int, v: Variant)
    requires Variants(fixed, hdr, px).Ok? && v in Variants(fixed, hdr, px).value && v.dim == VaryWidth
    ensures var bb := hdr.bpp / 8;
            var rows := px / hdr.height;
            hdr.height != 0 && bb != 0 && hdr.height * rows == px && rows % 4 == 0 &&
            v.value * bb <= rows < v.value * bb + bb && v.value != hdr.width
  {
    VariantsShape(fixed, hdr, px);
    WidthVariantValue(fixed, hdr, px);
    var bb := hdr.bpp / 8;
    if hdr.height != 0 && px % hdr.height == 0 && bb != 0 {
      ExactQuotient(px, hdr.height);
      QuotientBracket(px / hdr.height, bb);
    }
  }

  /** With at most four bytes per pixel, the width variant's header fills the pixel bytes: its
      padded rows have exactly the length the pixel bytes were split into. */
  lemma WidthVariantFills(fixed: seq<Byte>, hdr: Header, px: int, v: Variant)
    requires Variants(fixed, hdr, px).Ok? && v in Variants(fixed, hdr, px).value && v.dim == VaryWidth
    requires hdr.bpp / 8 <= 4
    ensures v.value >= 0
    ensures v.value >= 0 ==> Fills(hdr.(width := v.value), px)
  {
    WidthVariantSound(fixed, hdr, px, v);
    VariantsShape(fixed, hdr, px);
    WidthVariantValue(fixed, hdr, px);
    RowsFill(px, hdr.height, hdr.bpp);
  }

  /** Every width whose whole pixels fill a row of a 4-byte-aligned length that the header's
      rows split the pixel bytes into, and that is not the header's width, is generated as the
      width variant. */
  lemma WidthVariantComplete(fixed: seq<Byte>, hdr: Header, px: int, rows: int, w: nat)
    requires Variants(fixed, hdr, px).Ok?
    requires hdr.height != 0 && hdr.height * rows == px && rows % 4 == 0
    requires hdr.bpp / 8 != 0 && w * (hdr.bpp / 8) <= rows < w * (hdr.bpp / 8) + hdr.bpp / 8
    requires w != hdr.width
    ensures var vs := Variants(fixed, hdr, px).value;
            |vs| > 0 && vs[|vs| - 1].dim == VaryWidth && vs[|vs| - 1].value == w
  {
    WidthVariantValue(fixed, hdr, px);
    ExactDivisor(px, hdr.height, rows);
    PixelsPerRow(rows, hdr.bpp / 8, w);
  }

  /** The generation fails with a struct error when a copy cannot hold a value, and with a
      division by zero only when a pixel is narrower than a byte. */
  lemma VariantsFailure(fixed: seq<Byte>, hdr: Header, px: int)
    requires Variants(fixed, hdr, px).Err?
    ensures var e := Variants(fixed, hdr, px).error;
            e == StructError || (e == DivisionByZero && hdr.bpp / 8 == 0)
  {
  }

  lemma HeightVariantSucceeds(fixed: seq<Byte>, hdr: Header, px: int)
    requires At(Height) + 4 <= |fixed| < TWO32 && 0 <= px < TWO32
    ensures HeightVariant(fixed, hdr, px).Ok?
  {
    var rb := RowStride(hdr.width, hdr.bpp);
    if rb != 0 {
      QuotientRange(px, rb);
    }
  }

  lemma WidthVariantSucceeds(fixed: seq<Byte>, hdr: Header, px: int)
    requires At(Width) + 4 <= |fixed| < TWO32 && 0 <= px < TWO32 && hdr.bpp / 8 != 0
    ensures WidthVariant(fixed, hdr, px).Ok?
  {
    if hdr.height != 0 {
      var rows := px / hdr.height;
      QuotientRange(px, hdr.height);
      QuotientRange(rows, hdr.bpp / 8);
    }
  }

  /** With room for both fields, a length and pixel count that fit 32 bits and a whole number
      of bytes per pixel, the generation succeeds. */
  lemma VariantsSucceed(fixed: seq<Byte>, hdr: Header, px: int)
    requires At(Height) + 4 <= |fixed| < TWO32 && 0 <= px < TWO32 && hdr.bpp / 8 != 0
    ensures Variants(fixed, hdr, px).Ok?
  {
    HeightVariantSucceeds(fixed, hdr, px);
    WidthVariantSucceeds(fixed, hdr, px);
  }

  /** The header a variant's bytes decode to is the repaired bytes' header with the dimension
      and the file size replaced. */
  lemma RetagParses(fixed: seq<Byte>, d: Dimension, v: int)
    requires |fixed| >= HeaderBytes && Retag(fixed, d, v).Ok?
    ensures ParseHeader(Retag(fixed, d, v).value) ==
            ParseHeader(fixed).With(FieldOf(d), v).With(FileSize, |fixed|)
  {
    var nb := WriteU32(fixed, At(FieldOf(d)), v);
    ParseAfterWrite(fixed, FieldOf(d), v);
    ParseAfterWrite(nb, FileSize, |fixed|);
  }
}
