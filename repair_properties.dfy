/**
 * What the repair pass guarantees about the buffer it returns: which inputs it
 * rejects, the header invariants it restores, how it truncates, when it
 * rewrites width and height, and when it leaves a file alone.
 */
module RepairProperties {
  import opened HeaderView
  import opened RepairEngine

  /** The bytes the pass may rewrite: the file size and the four fields from the pixel offset to the height. */
  predicate Rewritable(i: int)
  {
    2 <= i < 6 || 10 <= i < 26
  }

  /** A state whose header is what its buffer decodes to. */
  ghost predicate Synced(w: Work)
  {
    |w.buf| >= HeaderBytes && ParseHeader(w.buf) == w.hdr
  }

  /** A state of the same length as the input s that differs from it only in rewritable bytes. */
  ghost predicate Descends(w: Work, s: seq<Byte>)
  {
    |w.buf| == |s| && forall i :: 0 <= i < |s| && !Rewritable(i) ==> w.buf[i] == s[i]
  }

  /** A successful store of a 32-bit field keeps the state synced and descended. */
  lemma StoreKeeps(w: Work, f: Field, v: int, s: seq<Byte>)
    requires Synced(w) && Descends(w, s) && Store(w, f, v).Ok?
    ensures Synced(Store(w, f, v).value) && Descends(Store(w, f, v).value, s)
    ensures OnlyTouches(w, Store(w, f, v).value, f)
  {
    ParseAfterWrite(w.buf, f, v);
  }

  /** A step that may have stored field f and kept everything else of the header and the length. */
  ghost predicate OnlyTouches(w: Work, w': Work, f: Field)
  {
    |w'.buf| == |w.buf| && w'.hdr.bpp == w.hdr.bpp &&
    forall g :: g != f ==> w'.hdr.Get(g) == w.hdr.Get(g)
  }

  /** Every step either keeps the state or stores one field. */
  ghost predicate StepOf(w: Work, r: Result<Work>, f: Field)
  {
    r.Ok? ==> r.value == w || exists v :: Store(w, f, v) == r
  }

  /** A step that stores at most one field keeps the state synced and descended. */
  lemma StepKeeps(w: Work, r: Result<Work>, f: Field, s: seq<Byte>)
    requires Synced(w) && Descends(w, s) && StepOf(w, r, f) && r.Ok?
    ensures Synced(r.value) && Descends(r.value, s) && OnlyTouches(w, r.value, f)
  {
    if r.value != w {
      var v :| Store(w, f, v) == r;
      StoreKeeps(w, f, v, s);
    }
  }

  lemma CorrectOffsetStep(w: Work)
    ensures StepOf(w, CorrectOffset(w), PixelOffset)
    ensures w.hdr.bpp > 8 && CorrectOffset(w).Ok? ==> CorrectOffset(w).value.hdr.offset == TrueColorOffset
  {
    if w.hdr.bpp > 8 && w.hdr.offset != TrueColorOffset {
      assert Store(w, PixelOffset, TrueColorOffset) == CorrectOffset(w);
    }
  }

  lemma CorrectDibSizeStep(w: Work)
    ensures StepOf(w, CorrectDibSize(w), DibSize)
    ensures CorrectDibSize(w).Ok? ==> CorrectDibSize(w).value.hdr.dibSize == InfoHeaderSize
  {
    if w.hdr.dibSize != InfoHeaderSize {
      assert Store(w, DibSize, InfoHeaderSize) == CorrectDibSize(w);
    }
  }

  lemma CorrectFileSizeStep(w: Work)
    ensures StepOf(w, CorrectFileSize(w), FileSize)
    ensures CorrectFileSize(w).Ok? ==> CorrectFileSize(w).value.hdr.fileSize == |w.buf|
  {
    if w.hdr.fileSize != |w.buf| {
      assert Store(w, FileSize, |w.buf|) == CorrectFileSize(w);
    }
  }

  lemma InferWidthStep(w: Work)
    requires w.hdr.bpp / 8 != 0
    ensures StepOf(w, InferWidth(w), Width)
  {
    var px := w.PixelBytes();
    if w.hdr.height != 0 && px % w.hdr.height == 0 {
      var width := px / w.hdr.height / (w.hdr.bpp / 8);
      if (px / w.hdr.height) % 4 == 0 && width != 0 && width != w.hdr.width {
        assert Store(w, Width, width) == InferWidth(w);
      }
    }
  }

  lemma InferHeightStep(w: Work)
    ensures StepOf(w, InferHeight(w), Height)
  {
    var px := w.PixelBytes();
    var rs := RowStride(w.hdr.width, w.hdr.bpp);
    if rs != 0 && px % rs == 0 && px / rs != 0 && px / rs != w.hdr.height {
      assert Store(w, Height, px / rs) == InferHeight(w);
    }
  }

  /** The header after the first three corrections, in terms of the input's header. */
  function Corrected(h: Header, length: nat): Header
  {
    h.(offset := if h.bpp > 8 then TrueColorOffset else h.offset,
       dibSize := InfoHeaderSize, fileSize := length)
  }

  /** The first three corrections, when they can be stored, set exactly the fields they correct. */
  lemma CorrectEffect(w: Work, s: seq<Byte>)
    requires Synced(w) && Descends(w, s) && Correct(w).Ok?
    ensures Correct(w).value.hdr == Corrected(w.hdr, |w.buf|)
    ensures Synced(Correct(w).value) && Descends(Correct(w).value, s)
  {
    var c1 := CorrectOffset(w);
    CorrectOffsetStep(w);
    StepKeeps(w, c1, PixelOffset, s);
    var w1 := c1.value;
    var c2 := CorrectDibSize(w1);
    CorrectDibSizeStep(w1);
    StepKeeps(w1, c2, DibSize, s);
    var w2 := c2.value;
    var c3 := CorrectFileSize(w2);
    CorrectFileSizeStep(w2);
    StepKeeps(w2, c3, FileSize, s);
    var w3 := c3.value;
    assert Correct(w) == c3;
    var h := w.hdr;
    assert w3.hdr.Get(PixelOffset) == Corrected(h, |s|).Get(PixelOffset);
    assert w3.hdr.Get(Width) == Corrected(h, |s|).Get(Width);
    assert w3.hdr.Get(Height) == Corrected(h, |s|).Get(Height);
  }

  /** The state after the first three corrections of a successful pass. */
  lemma AfterCorrections(s: seq<Byte>) returns (w3: Work)
    requires Fix(s).Ok?
    ensures HasSignature(s) && |s| >= HeaderBytes
    ensures Correct(Work(s, ParseHeader(s))) == Ok(w3)
    ensures w3.hdr == Corrected(ParseHeader(s), |s|) && w3.hdr.bpp / 8 != 0
    ensures Synced(w3) && Descends(w3, s)
    ensures Reshape(w3) == Fix(s)
  {
    var w0 := Work(s, ParseHeader(s));
    w3 := Correct(w0).value;
    CorrectEffect(w0, s);
  }

  /** Steps 4 to 6 from a synced state, when they succeed. */
  lemma InferencesFrom(w3: Work, s: seq<Byte>) returns (w4: Work, w5: Work)
    requires Synced(w3) && Descends(w3, s) && w3.hdr.bpp / 8 != 0 && Reshape(w3).Ok?
    ensures InferWidth(w3) == Ok(w4) && InferHeight(w4) == Ok(w5) && Truncate(w5) == Reshape(w3)
    ensures Synced(w5) && Descends(w5, s)
    ensures OnlyTouches(w3, w4, Width) && OnlyTouches(w4, w5, Height)
    ensures Reshape(w3).value.hdr.width == w5.hdr.width == w4.hdr.width
    ensures Reshape(w3).value.hdr.height == w5.hdr.height
  {
    var c4 := InferWidth(w3);
    InferWidthStep(w3);
    StepKeeps(w3, c4, Width, s);
    w4 := c4.value;
    var c5 := InferHeight(w4);
    InferHeightStep(w4);
    StepKeeps(w4, c5, Height, s);
    w5 := c5.value;
    TruncateKeeps(w5, Reshape(w3).value);
  }

  /** The two inference steps of a successful pass. */
  lemma Inferences(s: seq<Byte>) returns (w3: Work, w4: Work, w5: Work)
    requires Fix(s).Ok?
    ensures HasSignature(s) && |s| >= HeaderBytes
    ensures w3.hdr == Corrected(ParseHeader(s), |s|) && w3.hdr.bpp / 8 != 0
    ensures InferWidth(w3) == Ok(w4) && InferHeight(w4) == Ok(w5) && Truncate(w5) == Fix(s)
    ensures Synced(w5) && Descends(w5, s)
    ensures OnlyTouches(w3, w4, Width) && OnlyTouches(w4, w5, Height)
    ensures Fix(s).value.hdr.width == w5.hdr.width == w4.hdr.width
    ensures Fix(s).value.hdr.height == w5.hdr.height
  {
    w3 := AfterCorrections(s);
    w4, w5 := InferencesFrom(w3, s);
  }

  /** The last state before truncation, in terms of the input. */
  lemma BeforeTruncation(s: seq<Byte>) returns (w5: Work)
    requires Fix(s).Ok?
    ensures HasSignature(s) && |s| >= HeaderBytes
    ensures Truncate(w5) == Fix(s)
    ensures Synced(w5) && Descends(w5, s)
    ensures var h := ParseHeader(s);
            w5.hdr.bpp == h.bpp && w5.hdr.bpp / 8 != 0 &&
            w5.hdr.dibSize == InfoHeaderSize && w5.hdr.fileSize == |s| &&
            w5.hdr.offset == (if h.bpp > 8 then TrueColorOffset else h.offset)
  {
    var w3, w4;
    w3, w4, w5 := Inferences(s);
    assert w5.hdr.Get(DibSize) == w3.hdr.Get(DibSize);
    assert w5.hdr.Get(FileSize) == w3.hdr.Get(FileSize);
    assert w5.hdr.Get(PixelOffset) == w3.hdr.Get(PixelOffset);
  }

  /** What step 4 leaves in the width field. */
  lemma InferWidthValue(w: Work)
    requires w.hdr.bpp / 8 != 0 && InferWidth(w).Ok?
    ensures var px := w.PixelBytes();
            var height := w.hdr.height;
            var width := InferWidth(w).value.hdr.width;
            (height != 0 && px % height == 0 && (px / height) % 4 == 0 && px / height / (w.hdr.bpp / 8) != 0 ==>
               width == px / height / (w.hdr.bpp / 8)) &&
            (width != w.hdr.width ==>
               height != 0 && px % height == 0 && (px / height) % 4 == 0 &&
               width == px / height / (w.hdr.bpp / 8) && width != 0)
    ensures InferWidth(w).value.hdr.width == w.hdr.width ==> InferWidth(w).value.buf == w.buf
  {
  }

  /** What step 5 leaves in the height field. */
  lemma InferHeightValue(w: Work)
    requires InferHeight(w).Ok?
    ensures var px := w.PixelBytes();
            var rs := RowStride(w.hdr.width, w.hdr.bpp);
            var height := InferHeight(w).value.hdr.height;
            (rs != 0 && px % rs == 0 && px / rs != 0 ==> height == px / rs) &&
            (height != w.hdr.height ==> rs != 0 && px % rs == 0 && height == px / rs && height != 0)
    ensures InferHeight(w).value.hdr.height == w.hdr.height ==> InferHeight(w).value.buf == w.buf
  {
  }

  /** A pass whose stages are known. */
  lemma FixOf(s: seq<Byte>, w3: Work, r: Result<Repaired>)
    requires HasSignature(s) && |s| >= HeaderBytes
    requires Correct(Work(s, ParseHeader(s))) == Ok(w3) && w3.hdr.bpp / 8 != 0 && Reshape(w3) == r
    ensures Fix(s) == r
  {
  }

  /** Steps 4 to 6 whose results are known. */
  lemma ReshapeOf(w3: Work, w4: Work, w5: Work, r: Result<Repaired>)
    requires w3.hdr.bpp / 8 != 0
    requires InferWidth(w3) == Ok(w4) && InferHeight(w4) == Ok(w5) && Truncate(w5) == r
    ensures Reshape(w3) == r
  {
  }

  /** The first three corrections fail only when the file size does not fit 32 bits, and then
      with a struct error; otherwise they keep the length and the bits per pixel. */
  lemma CorrectOutcome(w: Work)
    requires |w.buf| >= HeaderBytes
    ensures Correct(w).Err? <==> w.hdr.fileSize != |w.buf| && |w.buf| >= TWO32
    ensures Correct(w).Err? ==> Correct(w).error == StructError
    ensures Correct(w).Ok? ==> |Correct(w).value.buf| == |w.buf| && Correct(w).value.hdr.bpp == w.hdr.bpp
  {
    var c1 := CorrectOffset(w);
    CorrectOffsetStep(w);
    var c2 := CorrectDibSize(c1.value);
    CorrectDibSizeStep(c1.value);
    var w2 := c2.value;
    assert |w2.buf| == |w.buf| && w2.hdr.fileSize == w.hdr.fileSize && w2.hdr.bpp == w.hdr.bpp;
    CorrectFileSizeStep(w2);
  }

  /** Steps 4 to 6 fail only with a struct error. */
  lemma ReshapeFailure(w: Work)
    requires w.hdr.bpp / 8 != 0 && Reshape(w).Err?
    ensures Reshape(w).error == StructError
  {
    var c4 := InferWidth(w);
    InferWidthStep(w);
    if c4.Ok? {
      InferHeightStep(c4.value);
    }
  }

  /** The two inputs rejected outright: no "BM" signature, and (once the first three
      corrections could be stored) fewer than 8 bits per pixel. */
  lemma FixRejects(s: seq<Byte>)
    ensures Fix(s) == Err(NotBmp) <==> !HasSignature(s)
    ensures Fix(s) == Err(InvalidBpp) <==>
              HasSignature(s) && HeaderBytes <= |s| < TWO32 && ReadU16(s, BppAt) / 8 == 0
  {
    if HasSignature(s) && |s| >= HeaderBytes {
      var w0 := Work(s, ParseHeader(s));
      CorrectOutcome(w0);
      var c := Correct(w0);
      if c.Ok? && c.value.hdr.bpp / 8 != 0 {
        if Reshape(c.value).Err? {
          ReshapeFailure(c.value);
        }
      }
    }
  }

  /** The header a successful pass returns obeys the invariants the repair restores,
      and the returned buffer carries it. */
  lemma FixRestoresHeader(s: seq<Byte>, r: Repaired)
    requires Fix(s) == Ok(r)
    ensures |s| >= HeaderBytes
    ensures r.hdr.bpp == ReadU16(s, BppAt)
    ensures r.hdr.dibSize == InfoHeaderSize
    ensures r.hdr.bpp > 8 ==> r.hdr.offset == TrueColorOffset
    ensures r.hdr.bpp <= 8 ==> r.hdr.offset == ReadU32(s, At(PixelOffset))
    ensures r.hdr.fileSize == |r.buf|
    ensures |r.buf| >= 6 && ReadU32(r.buf, At(FileSize)) == |r.buf|
    ensures |r.buf| >= HeaderBytes ==> ParseHeader(r.buf) == r.hdr
    ensures forall f :: At(f) + 4 <= |r.buf| ==> ReadU32(r.buf, At(f)) == r.hdr.Get(f)
    ensures r.pixelBytes == |r.buf| - r.hdr.offset
    ensures r.hdr.bpp / 8 != 0 && |s| < TWO32
  {
    var w5 := BeforeTruncation(s);
    TruncatedFields(w5, r);
    var e := Expected(w5.hdr);
    if |w5.buf| > e {
      var t := w5.buf[..e];
      assert r.buf == WriteU32(t, At(FileSize), e);
      if e >= HeaderBytes {
        ParseHeaderReadsOnlyFields(t, w5.buf);
        ParseAfterWrite(t, FileSize, e);
      }
    }
  }

  /** Every field a truncated buffer still holds reads as the header returned with it. */
  lemma TruncatedFields(w: Work, r: Repaired)
    requires Synced(w) && Truncate(w) == Ok(r)
    ensures forall f :: At(f) + 4 <= |r.buf| ==> ReadU32(r.buf, At(f)) == r.hdr.Get(f)
  {
    var e := Expected(w.hdr);
    forall f | At(f) + 4 <= |r.buf| && f != FileSize && |w.buf| > e
      ensures ReadU32(r.buf, At(f)) == r.hdr.Get(f)
    {
      var t := w.buf[..e];
      var o := At(f);
      assert r.buf == WriteU32(t, At(FileSize), e);
      assert r.buf[o] == w.buf[o] && r.buf[o + 1] == w.buf[o + 1];
      assert r.buf[o + 2] == w.buf[o + 2] && r.buf[o + 3] == w.buf[o + 3];
      assert ReadU32(w.buf, o) == w.hdr.Get(f);
    }
  }

  /** How the pass ends: the buffer never grows, it is cut back to exactly the declared
      length when longer, the warning is raised exactly when it is shorter, and apart from
      the rewritten fields every byte kept is the input's. */
  lemma FixTruncation(s: seq<Byte>, r: Repaired)
    requires Fix(s) == Ok(r)
    ensures |r.buf| <= |s|
    ensures r.missingPixels <==> |s| < Expected(r.hdr)
    ensures |s| >= Expected(r.hdr) ==> |r.buf| == Expected(r.hdr)
    ensures |s| <= Expected(r.hdr) ==> |r.buf| == |s|
    ensures !r.missingPixels ==> r.pixelBytes == RowStride(r.hdr.width, r.hdr.bpp) * r.hdr.height
    ensures forall i :: 0 <= i < |r.buf| && !Rewritable(i) ==> r.buf[i] == s[i]
  {
    var w5 := BeforeTruncation(s);
    assert Expected(r.hdr) == Expected(w5.hdr);
  }

  /** Step 4 of a successful pass: the width is rewritten only when the input's height divides
      the pixel bytes into rows of a multiple of 4 bytes, to the nonzero width those rows hold;
      whenever that width is nonzero it is the width returned. */
  lemma FixWidth(s: seq<Byte>, r: Repaired)
    requires Fix(s) == Ok(r)
    ensures |s| >= HeaderBytes
    ensures var h := ParseHeader(s);
            var px := |s| - (if h.bpp > 8 then TrueColorOffset else h.offset);
            var bb := h.bpp / 8;
            bb != 0 &&
            (r.hdr.width != h.width ==>
               h.height != 0 && px % h.height == 0 && (px / h.height) % 4 == 0 &&
               r.hdr.width == px / h.height / bb && r.hdr.width != 0) &&
            (h.height != 0 && px % h.height == 0 && (px / h.height) % 4 == 0 && px / h.height / bb != 0 ==>
               r.hdr.width == px / h.height / bb)
  {
    var w3 := WidthStage(s);
    InferWidthValue(w3);
  }

  /** Step 4 of a successful pass, in terms of the state it starts from. */
  lemma WidthStage(s: seq<Byte>) returns (w3: Work)
    requires Fix(s).Ok?
    ensures |s| >= HeaderBytes
    ensures var h := ParseHeader(s);
            w3.hdr.height == h.height && w3.hdr.width == h.width && w3.hdr.bpp == h.bpp && h.bpp / 8 != 0 &&
            w3.PixelBytes() == |s| - (if h.bpp > 8 then TrueColorOffset else h.offset)
    ensures InferWidth(w3).Ok? && Fix(s).value.hdr.width == InferWidth(w3).value.hdr.width
  {
    var w4, w5;
    w3, w4, w5 := Inferences(s);
  }

  /** Step 5 of a successful pass, in terms of the state it starts from. */
  lemma HeightStage(s: seq<Byte>) returns (w4: Work)
    requires Fix(s).Ok?
    ensures |s| >= HeaderBytes
    ensures var h := ParseHeader(s);
            w4.hdr.height == h.height && w4.hdr.bpp == h.bpp &&
            w4.PixelBytes() == |s| - (if h.bpp > 8 then TrueColorOffset else h.offset)
    ensures InferHeight(w4).Ok? && Fix(s).value.hdr.width == w4.hdr.width &&
            Fix(s).value.hdr.height == InferHeight(w4).value.hdr.height
  {
    var w3, w5;
    w3, w4, w5 := Inferences(s);
    assert w4.hdr.Get(Height) == w3.hdr.Get(Height) && w4.hdr.Get(PixelOffset) == w3.hdr.Get(PixelOffset);
  }

  /** How step 5 leaves a height: it moves away from the input height only to a nonzero number
      of whole rows of stride rs in px bytes, and always to that number when there is one. */
  predicate SettledHeight(px: int, rs: nat, height0: nat, height: nat)
  {
    (height != height0 ==> rs != 0 && px % rs == 0 && height == px / rs && height != 0) &&
    (rs != 0 && px % rs == 0 && px / rs != 0 ==> height == px / rs)
  }

  /** Step 5 of a successful pass: with the width as step 4 left it, the height is rewritten
      only when that width's row stride divides the pixel bytes into a nonzero number of rows
      other than the input's height, and then to that number. */
  lemma FixHeight(s: seq<Byte>, r: Repaired)
    requires Fix(s) == Ok(r)
    ensures |s| >= HeaderBytes
    ensures var h := ParseHeader(s);
            SettledHeight(|s| - (if h.bpp > 8 then TrueColorOffset else h.offset), RowStride(r.hdr.width, h.bpp),
                          h.height, r.hdr.height)
  {
    var w4 := HeightStage(s);
    InferHeightValue(w4);
  }

  /** Without truncation the pixel byte count is the one steps 4 and 5 worked on. */
  lemma UntruncatedPixels(s: seq<Byte>, r: Repaired)
    requires Fix(s) == Ok(r) && r.missingPixels
    ensures |s| >= HeaderBytes
    ensures var h := ParseHeader(s);
            r.pixelBytes == |s| - (if h.bpp > 8 then TrueColorOffset else h.offset) && r.hdr.bpp == h.bpp
  {
    FixRestoresHeader(s, r);
    FixTruncation(s, r);
  }

  /** The arithmetic of a final height: exact rows when not short, otherwise the inferred one. */
  lemma SettledRows(px: int, rs: nat, height: nat, exact: bool)
    requires rs != 0 && px % rs == 0
    requires exact ==> px == rs * height
    requires !exact ==> px / rs != 0 ==> height == px / rs
    ensures px / rs == height || px == 0
  {
    if exact {
      ExactDivisor(px, rs, height);
    } else {
      ExactQuotient(px, rs);
    }
  }

  /** Without truncation, the final height is the one the final width's rows make of the
      final pixel bytes, whenever that is a nonzero whole number. */
  lemma UntruncatedHeight(s: seq<Byte>, r: Repaired)
    requires Fix(s) == Ok(r) && r.missingPixels
    ensures var rs := RowStride(r.hdr.width, r.hdr.bpp);
            rs != 0 && r.pixelBytes % rs == 0 && r.pixelBytes / rs != 0 ==> r.hdr.height == r.pixelBytes / rs
  {
    UntruncatedPixels(s, r);
    FixHeight(s, r);
  }

  /** After a successful pass, the rows of the final width divide the final pixel bytes into
      the final height, unless there are no pixel bytes at all. */
  lemma FixSettlesHeight(s: seq<Byte>, r: Repaired)
    requires Fix(s) == Ok(r)
    ensures var rs := RowStride(r.hdr.width, r.hdr.bpp);
            rs != 0 && r.pixelBytes % rs == 0 ==> r.pixelBytes / rs == r.hdr.height || r.pixelBytes == 0
  {
    FixTruncation(s, r);
    if r.missingPixels {
      UntruncatedHeight(s, r);
    }
    var rs := RowStride(r.hdr.width, r.hdr.bpp);
    if rs != 0 && r.pixelBytes % rs == 0 {
      SettledRows(r.pixelBytes, rs, r.hdr.height, !r.missingPixels);
    }
  }

  /** The arithmetic behind FixNegativePixels. */
  lemma NegativeRows(px: int, rs: nat, height: nat, height0: nat, bb: nat, width: nat)
    requires px < 0 && bb != 0
    requires height != height0 ==> rs != 0 && px % rs == 0 && height == px / rs && height != 0
    requires height0 != 0 && px % height0 == 0 && (px / height0) % 4 == 0 && px / height0 / bb != 0 ==>
               width == px / height0 / bb
    ensures !(height != 0 && px % height == 0 && (px / height) % 4 == 0)
  {
    if height != height0 {
      ExactQuotient(px, rs);
      ProductNonNegative(rs, height);
    }
    if height0 != 0 {
      QuotientBracket(px, height0);
      QuotientBracket(px / height0, bb);
    }
  }

  /** After a successful pass with the pixel offset past the end of the file, the final height
      does not split the (negative) pixel byte count into rows of a 4-byte-aligned length. */
  lemma FixNegativePixels(s: seq<Byte>, r: Repaired)
    requires Fix(s) == Ok(r) && r.pixelBytes < 0
    ensures !(r.hdr.height != 0 && r.pixelBytes % r.hdr.height == 0 && (r.pixelBytes / r.hdr.height) % 4 == 0)
  {
    FixTruncation(s, r);
    FixRestoresHeader(s, r);
    assert r.missingPixels by {
      if !r.missingPixels {
        ProductNonNegative(RowStride(r.hdr.width, r.hdr.bpp), r.hdr.height);
      }
    }
    UntruncatedPixels(s, r);
    FixHeight(s, r);
    FixWidth(s, r);
    var h := ParseHeader(s);
    NegativeRows(r.pixelBytes, RowStride(r.hdr.width, h.bpp), r.hdr.height, h.height, h.bpp / 8, r.hdr.width);
  }

  /** Truncation keeps every byte from offset 6 on that it keeps at all. */
  lemma TruncateKeeps(w: Work, r: Repaired)
    requires Truncate(w) == Ok(r)
    ensures |r.buf| <= |w.buf| && r.hdr.width == w.hdr.width && r.hdr.height == w.hdr.height
    ensures forall i :: At(FileSize) + 4 <= i < |r.buf| ==> i < |w.buf| && r.buf[i] == w.buf[i]
  {
  }

  /** A field the last stage holds at its input value still has its input bytes after truncation. */
  lemma KeptFieldBytes(w5: Work, s: seq<Byte>, cut: seq<Byte>, f: Field)
    requires Synced(w5) && |s| >= HeaderBytes
    requires f == Width || f == Height
    requires w5.hdr.Get(f) == ParseHeader(s).Get(f) && At(f) + 4 <= |cut|
    requires forall i :: At(FileSize) + 4 <= i < |cut| ==> i < |w5.buf| && cut[i] == w5.buf[i]
    ensures cut[At(f)..At(f) + 4] == s[At(f)..At(f) + 4]
  {
    assert ReadU32(w5.buf, At(f)) == ReadU32(s, At(f));
    ReadEncodes(w5.buf, At(f));
    ReadEncodes(s, At(f));
    forall i | At(f) <= i < At(f) + 4 ensures cut[i] == s[i] {
      assert w5.buf[i] == w5.buf[At(f)..At(f) + 4][i - At(f)];
    }
  }

  /** A width or height the pass keeps keeps its bytes too, as far as the buffer still reaches. */
  lemma FixKeepsDimensionBytes(s: seq<Byte>, r: Repaired)
    requires Fix(s) == Ok(r)
    ensures |s| >= HeaderBytes
    ensures |r.buf| >= At(Width) + 4 && r.hdr.width == ParseHeader(s).width ==>
              r.buf[At(Width)..At(Width) + 4] == s[At(Width)..At(Width) + 4]
    ensures |r.buf| >= At(Height) + 4 && r.hdr.height == ParseHeader(s).height ==>
              r.buf[At(Height)..At(Height) + 4] == s[At(Height)..At(Height) + 4]
  {
    var w5 := BeforeTruncation(s);
    DimensionBytesFrom(w5, s, r);
  }

  /** FixKeepsDimensionBytes for the last stage's state and its truncation. */
  lemma DimensionBytesFrom(w5: Work, s: seq<Byte>, r: Repaired)
    requires Synced(w5) && |s| >= HeaderBytes && Truncate(w5) == Ok(r)
    ensures |r.buf| >= At(Width) + 4 && r.hdr.width == ParseHeader(s).width ==>
              r.buf[At(Width)..At(Width) + 4] == s[At(Width)..At(Width) + 4]
    ensures |r.buf| >= At(Height) + 4 && r.hdr.height == ParseHeader(s).height ==>
              r.buf[At(Height)..At(Height) + 4] == s[At(Height)..At(Height) + 4]
  {
    TruncateKeeps(w5, r);
    if |r.buf| >= At(Width) + 4 && r.hdr.width == ParseHeader(s).width {
      KeptFieldBytes(w5, s, r.buf, Width);
    }
    if |r.buf| >= At(Height) + 4 && r.hdr.height == ParseHeader(s).height {
      KeptFieldBytes(w5, s, r.buf, Height);
    }
  }

  /** A file whose header already agrees with its length: signature, a whole number of bytes
      per pixel, the true-colour offset, a BITMAPINFOHEADER, the file size, and pixel data that
      exactly fills a nonempty rectangle. */
  ghost predicate Consistent(s: seq<Byte>)
  {
    HasSignature(s) && HeaderBytes <= |s| < TWO32 &&
    var h := ParseHeader(s);
    h.bpp / 8 != 0 && (h.bpp > 8 ==> h.offset == TrueColorOffset) &&
    h.dibSize == InfoHeaderSize && h.fileSize == |s| &&
    h.width != 0 && h.height != 0 && |s| == Expected(h)
  }

  /** The first three corrections change nothing in a consistent file. */
  lemma ConsistentCorrect(s: seq<Byte>)
    requires Consistent(s)
    ensures Correct(Work(s, ParseHeader(s))) == Ok(Work(s, ParseHeader(s)))
  {
  }

  /** The arithmetic of a pixel array that exactly fills the declared rectangle. */
  lemma ExactRows(px: int, width: nat, height: nat, bpp: nat)
    requires bpp / 8 != 0 && width != 0 && height != 0
    requires px == RowStride(width, bpp) * height
    ensures px % height == 0 && px / height == RowStride(width, bpp)
    ensures 0 < RowStride(width, bpp) / (bpp / 8) <= RowStride(width, bpp) <= px
  {
    var rs := RowStride(width, bpp);
    var bb := bpp / 8;
    DivMod(px, height, rs, 0);
    ProductBound(bb, width);
    assert bb <= width * bb;
    QuotientRange(rs, bb);
    ProductBound(rs, height);
  }

  /** Step 4 on pixel bytes that exactly fill the declared rectangle: the width becomes the
      largest one with the same padded row length. */
  lemma InferWidthOnExactRows(w: Work)
    requires w.hdr.bpp / 8 != 0 && w.hdr.width != 0 && w.hdr.height != 0
    requires w.PixelBytes() == RowStride(w.hdr.width, w.hdr.bpp) * w.hdr.height
    ensures var wide := RowStride(w.hdr.width, w.hdr.bpp) / (w.hdr.bpp / 8);
            InferWidth(w) == if wide != w.hdr.width then Store(w, Width, wide) else Ok(w)
  {
    ExactRows(w.PixelBytes(), w.hdr.width, w.hdr.height, w.hdr.bpp);
  }

  /** Step 5 on pixel bytes that exactly fill the declared rectangle keeps the height. */
  lemma InferHeightOnExactRows(w: Work)
    requires w.hdr.bpp / 8 != 0 && w.hdr.width != 0 && w.hdr.height != 0
    requires w.PixelBytes() == RowStride(w.hdr.width, w.hdr.bpp) * w.hdr.height
    ensures InferHeight(w) == Ok(w)
  {
    var rs := RowStride(w.hdr.width, w.hdr.bpp);
    assert rs >= w.hdr.width * (w.hdr.bpp / 8) >= 1;
    DivMod(w.PixelBytes(), rs, w.hdr.height, 0);
  }

  /** Step 6 on a buffer of exactly the declared length keeps it, with no warning. */
  lemma TruncateExact(w: Work)
    requires |w.buf| == Expected(w.hdr)
    ensures Truncate(w) == Ok(Repaired(w.buf, w.hdr, w.PixelBytes(), false))
  {
  }

  /** A consistent file whose width is the one its row length determines is returned unchanged,
      with no warning. */
  lemma FixKeepsConsistent(s: seq<Byte>)
    requires Consistent(s)
    requires var h := ParseHeader(s); RowStride(h.width, h.bpp) / (h.bpp / 8) == h.width
    ensures var h := ParseHeader(s); Fix(s) == Ok(Repaired(s, h, |s| - h.offset, false))
  {
    var w := Work(s, ParseHeader(s));
    ConsistentCorrect(s);
    InferWidthOnExactRows(w);
    InferHeightOnExactRows(w);
    TruncateExact(w);
    ReshapeOf(w, w, w, Ok(Repaired(s, w.hdr, w.PixelBytes(), false)));
    FixOf(s, w, Ok(Repaired(s, w.hdr, w.PixelBytes(), false)));
  }

  /** A width that is not the one its row length determines is below it. */
  lemma WiderWidth(width: nat, bpp: nat)
    requires bpp / 8 != 0 && RowStride(width, bpp) / (bpp / 8) != width
    ensures RowStride(width, bpp) / (bpp / 8) > width
  {
    QuotientAtLeast(RowStride(width, bpp), bpp / 8, width);
  }

  /** A consistent file whose row padding is a pixel or more has its width widened to the
      largest width with the same row length, and nothing else changes. */
  lemma FixWidensPaddedWidth(s: seq<Byte>)
    requires Consistent(s)
    requires var h := ParseHeader(s); h.bpp / 8 != 0 && RowStride(h.width, h.bpp) / (h.bpp / 8) != h.width
    ensures var h := ParseHeader(s);
            var wide := RowStride(h.width, h.bpp) / (h.bpp / 8);
            wide > h.width && Fix(s).Ok? &&
            var r := Fix(s).value;
            r.hdr == h.(width := wide) && r.pixelBytes == |s| - h.offset && !r.missingPixels &&
            |r.buf| == |s| && ReadU32(r.buf, At(Width)) == wide &&
            forall i :: 0 <= i < |s| && !(At(Width) <= i < At(Width) + 4) ==> r.buf[i] == s[i]
  {
    var h := ParseHeader(s);
    var w := Work(s, h);
    var rs := RowStride(h.width, h.bpp);
    var wide := rs / (h.bpp / 8);
    WiderWidth(h.width, h.bpp);
    StableWidth(h.width, h.bpp);
    assert h.bpp / 8 <= 3;
    ExactRows(|s| - h.offset, h.width, h.height, h.bpp);
    ConsistentCorrect(s);
    InferWidthOnExactRows(w);
    var w4 := Work(WriteU32(s, At(Width), wide), h.(width := wide));
    assert InferWidth(w) == Ok(w4);
    StrideRoundTrip(rs, h.bpp);
    assert RowStride(w4.hdr.width, w4.hdr.bpp) == rs;
    InferHeightOnExactRows(w4);
    TruncateExact(w4);
    var r := Ok(Repaired(w4.buf, w4.hdr, w4.PixelBytes(), false));
    ReshapeOf(w, w4, w4, r);
    FixOf(s, w, r);
  }
}
