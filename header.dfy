/**
 * The header view of a BMP file: a 14-byte BITMAPFILEHEADER followed by a
 * 40-byte BITMAPINFOHEADER, whose fields are little-endian integers at fixed
 * byte offsets, together with the row stride of the pixel array.
 */
module HeaderView {

  /** One byte of the file, as the integer 0..255 that indexing a bytearray yields. */
  type Byte = b: int | 0 <= b < 256

  const TWO16: nat := 0x1_0000
  const TWO32: nat := 0x1_0000_0000

  /** Bytes a header read needs: the last field read, bits per pixel, ends at offset 30. */
  const HeaderBytes: nat := 30

  /** Why the tool stops without producing a buffer. */
  datatype Error =
    | NotBmp          // the first two bytes are not "BM"
    | InvalidBpp      // fewer than 8 bits per pixel
    | StructError     // a packed read or write that does not fit the buffer or 32 bits
    | DivisionByZero  // a width derived with no whole byte per pixel

  datatype Result<T> = Ok(value: T) | Err(error: Error) {
    predicate IsFailure() { Err? }
    function PropagateFailure<U>(): Result<U> requires Err? { Err(error) }
    function Extract(): T requires Ok? { value }
  }

  // ------------------------------------------------------------------
  // Little-endian integers at a byte offset
  // ------------------------------------------------------------------

  /** The unsigned 16-bit integer stored at offset o, least significant byte first. */
  function ReadU16(s: seq<Byte>, o: nat): (v: nat)
    requires o + 2 <= |s|
    ensures v < TWO16
    ensures v % 256 == s[o] && v / 256 == s[o + 1]
  {
    s[o] as int + 256 * (s[o + 1] as int)
  }

  /** The four bytes that store v, least significant first. */
  function EncodeU32(v: nat): (b: seq<Byte>)
    requires v < TWO32
    ensures |b| == 4
  {
    [v % 256, v / 256 % 256, v / 256 / 256 % 256, v / 256 / 256 / 256]
  }

  /** The unsigned 32-bit integer stored at offset o, least significant byte first. */
  function ReadU32(s: seq<Byte>, o: nat): (v: nat)
    requires o + 4 <= |s|
    ensures v < TWO32
  {
    Digits(s[o], s[o + 1], s[o + 2], s[o + 3])
  }

  /** Reading and encoding are inverse: the four bytes at o are the encoding of the value read. */
  lemma ReadEncodes(s: seq<Byte>, o: nat)
    requires o + 4 <= |s|
    ensures EncodeU32(ReadU32(s, o)) == s[o..o + 4]
  {
    EncodeOfDigits(s[o], s[o + 1], s[o + 2], s[o + 3]);
  }

  /** The value read at o is determined by the four bytes there. */
  lemma ReadOfEncode(s: seq<Byte>, o: nat, v: nat)
    requires v < TWO32 && o + 4 <= |s| && s[o..o + 4] == EncodeU32(v)
    ensures ReadU32(s, o) == v
  {
    DigitsOfEncode(v);
  }

  /** The value of four base-256 digits, least significant first. */
  function Digits(b0: int, b1: int, b2: int, b3: int): int
  {
    b0 + 256 * b1 + 65536 * b2 + 16777216 * b3
  }

  lemma EncodeOfDigits(b0: Byte, b1: Byte, b2: Byte, b3: Byte)
    ensures 0 <= Digits(b0, b1, b2, b3) < TWO32
    ensures EncodeU32(Digits(b0, b1, b2, b3)) == [b0, b1, b2, b3]
  {
    var v := Digits(b0, b1, b2, b3);
    assert v == b0 + 256 * (b1 + 256 * (b2 + 256 * b3));
    assert v / 256 == b1 + 256 * (b2 + 256 * b3);
    assert v / 256 / 256 == b2 + 256 * b3;
    assert v / 256 / 256 / 256 == b3;
  }

  lemma DigitsOfEncode(v: nat)
    requires v < TWO32
    ensures var b := EncodeU32(v); Digits(b[0], b[1], b[2], b[3]) == v
  {
    var q1 := v / 256;
    var q2 := q1 / 256;
    var q3 := q2 / 256;
    assert v == v % 256 + 256 * q1;
    assert q1 == q1 % 256 + 256 * q2;
    assert q2 == q2 % 256 + 256 * q3;
  }

  /** 256 to the power n: one more than the largest value n bytes hold. */
  function Pow256(n: nat): (p: nat)
    ensures p >= 1
  {
    if n == 0 then 1 else 256 * Pow256(n - 1)
  }

  /** The value of a byte string of any length read least significant byte first: the
      reference meaning of the '<' formats, of which '<H' and '<I' are the 2- and 4-byte cases. */
  function LittleEndian(b: seq<Byte>): nat
  {
    if |b| == 0 then 0 else b[0] + 256 * LittleEndian(b[1..])
  }

  /** The n bytes that store v least significant first, dropping what does not fit. */
  function ToLittleEndian(v: nat, n: nat): (b: seq<Byte>)
    ensures |b| == n
  {
    if n == 0 then [] else [v % 256] + ToLittleEndian(v / 256, n - 1)
  }

  /** n bytes hold a value below 256^n. */
  lemma {:induction false} LittleEndianBound(b: seq<Byte>)
    ensures LittleEndian(b) < Pow256(|b|)
  {
    if |b| > 0 {
      LittleEndianBound(b[1..]);
    }
  }

  /** Encoding the value of a byte string to its own length gives the string back. */
  lemma {:induction false} LittleEndianRoundTrip(b: seq<Byte>)
    ensures ToLittleEndian(LittleEndian(b), |b|) == b
  {
    if |b| > 0 {
      var rest := LittleEndian(b[1..]);
      LittleEndianRoundTrip(b[1..]);
      DivMod(LittleEndian(b), 256, rest, b[0]);
      assert b == [b[0]] + b[1..];
    }
  }

  /** A value below 256^n reads back from its n-byte encoding. */
  lemma {:induction false} ToLittleEndianRoundTrip(v: nat, n: nat)
    requires v < Pow256(n)
    ensures LittleEndian(ToLittleEndian(v, n)) == v
  {
    if n > 0 {
      ToLittleEndianRoundTrip(v / 256, n - 1);
      assert ToLittleEndian(v, n)[1..] == ToLittleEndian(v / 256, n - 1);
    }
  }

  /** The 16-bit read is the 2-byte little-endian value. */
  lemma ReadU16IsLittleEndian(s: seq<Byte>, o: nat)
    requires o + 2 <= |s|
    ensures ReadU16(s, o) == LittleEndian(s[o..o + 2])
  {
    var t := s[o..o + 2];
    assert LittleEndian(t[1..]) == t[1] + 256 * LittleEndian(t[1..][1..]);
    assert LittleEndian(t[1..][1..]) == 0;
  }

  /** The 32-bit read is the 4-byte little-endian value. */
  lemma ReadU32IsLittleEndian(s: seq<Byte>, o: nat)
    requires o + 4 <= |s|
    ensures ReadU32(s, o) == LittleEndian(s[o..o + 4])
  {
    var t1 := s[o + 1..o + 4];
    var t2 := s[o + 2..o + 4];
    var t3 := s[o + 3..o + 4];
    assert s[o..o + 4][1..] == t1 && t1[1..] == t2 && t2[1..] == t3 && t3[1..] == [];
    assert LittleEndian(t3) == s[o + 3];
    assert LittleEndian(t2) == s[o + 2] as int + 256 * (s[o + 3] as int);
    assert LittleEndian(t1) == s[o + 1] as int + 256 * (s[o + 2] as int + 256 * (s[o + 3] as int));
  }

  /** The 32-bit encoding is the 4-byte little-endian encoding. */
  lemma EncodeU32IsLittleEndian(v: nat)
    requires v < TWO32
    ensures EncodeU32(v) == ToLittleEndian(v, 4)
  {
    var q3 := v / 256 / 256 / 256;
    assert q3 < 256;
    assert ToLittleEndian(q3, 1) == [q3 % 256];
    assert ToLittleEndian(v / 256 / 256, 2) == [v / 256 / 256 % 256, q3 % 256];
    assert ToLittleEndian(v / 256, 3) == [v / 256 % 256, v / 256 / 256 % 256, q3 % 256];
  }

  /** What struct.pack_into('<I', ...) accepts: the four bytes fit and v is an unsigned 32-bit value. */
  predicate Packable(s: seq<Byte>, o: nat, v: int)
  {
    o + 4 <= |s| && 0 <= v < TWO32
  }

  /** The buffer with v stored as an unsigned 32-bit integer at offset o. */
  function WriteU32(s: seq<Byte>, o: nat, v: int): (r: seq<Byte>)
    requires Packable(s, o, v)
    ensures |r| == |s|
    ensures ReadU32(r, o) == v
    ensures forall i {:trigger r[i]} :: 0 <= i < |s| && !(o <= i < o + 4) ==> r[i] == s[i]
  {
    DigitsOfEncode(v);
    s[o := v % 256][o + 1 := v / 256 % 256][o + 2 := v / 256 / 256 % 256][o + 3 := v / 256 / 256 / 256]
  }

  /** Storing back the value just read leaves the buffer as it was. */
  lemma WriteReadU32(s: seq<Byte>, o: nat)
    requires o + 4 <= |s|
    ensures WriteU32(s, o, ReadU32(s, o)) == s
  {
    var r := WriteU32(s, o, ReadU32(s, o));
    ReadEncodes(s, o);
    ReadEncodes(r, o);
    assert r[o..o + 4] == EncodeU32(ReadU32(s, o)) == s[o..o + 4];
    forall i | 0 <= i < |s| ensures r[i] == s[i] {
      if o <= i < o + 4 {
        assert r[i] == r[o..o + 4][i - o];
      }
    }
  }

  /** Stores v at offset o of the array in place, as struct.pack_into('<I', a, o, v) does. */
  method PatchU32(a: array<Byte>, o: nat, v: int)
    requires Packable(a[..], o, v)
    modifies a
    ensures a[..] == WriteU32(old(a[..]), o, v)
  {
    a[o] := v % 256;
    a[o + 1] := v / 256 % 256;
    a[o + 2] := v / 256 / 256 % 256;
    a[o + 3] := v / 256 / 256 / 256;
    assert a[o..o + 4] == EncodeU32(v);
  }

  // ------------------------------------------------------------------
  // The header fields
  // ------------------------------------------------------------------

  /** The 32-bit header fields the repair reads and rewrites. */
  datatype Field = FileSize | PixelOffset | DibSize | Width | Height

  /** Byte offset of each field within the file. */
  function At(f: Field): (o: nat)
    ensures o + 4 <= HeaderBytes
  {
    match f
    case FileSize => 2
    case PixelOffset => 10
    case DibSize => 14
    case Width => 18
    case Height => 22
  }

  /** Byte offset of the 16-bit bits-per-pixel field. */
  const BppAt: nat := 28

  /** The six header fields, as unsigned integers. */
  datatype Header = Header(fileSize: nat, offset: nat, dibSize: nat, width: nat, height: nat, bpp: nat)
  {
    function Get(f: Field): nat
    {
      match f
      case FileSize => fileSize
      case PixelOffset => offset
      case DibSize => dibSize
      case Width => width
      case Height => height
    }

    /** The header with field f set to v and every other field kept. */
    function With(f: Field, v: nat): (h: Header)
      ensures h.Get(f) == v
      ensures forall g :: g != f ==> h.Get(g) == Get(g)
      ensures h.bpp == bpp
    {
      match f
      case FileSize => this.(fileSize := v)
      case PixelOffset => this.(offset := v)
      case DibSize => this.(dibSize := v)
      case Width => this.(width := v)
      case Height => this.(height := v)
    }
  }

  /** The bytes a header read looks at. */
  predicate FieldByte(i: int)
  {
    2 <= i < 6 || 10 <= i < 26 || BppAt <= i < BppAt + 2
  }

  /** Decodes the six fields at their fixed offsets. */
  function ParseHeader(s: seq<Byte>): (h: Header)
    requires |s| >= HeaderBytes
    ensures forall f :: h.Get(f) < TWO32
    ensures h.bpp < TWO16
  {
    Header(ReadU32(s, At(FileSize)), ReadU32(s, At(PixelOffset)), ReadU32(s, At(DibSize)),
           ReadU32(s, At(Width)), ReadU32(s, At(Height)), ReadU16(s, BppAt))
  }

  /** The header depends on the field bytes and on nothing else in the buffer. */
  lemma ParseHeaderReadsOnlyFields(s: seq<Byte>, t: seq<Byte>)
    requires |s| >= HeaderBytes && |t| >= HeaderBytes
    requires forall i :: 0 <= i < HeaderBytes && FieldByte(i) ==> s[i] == t[i]
    ensures ParseHeader(s) == ParseHeader(t)
  {
  }

  /** Writing one field through WriteU32 changes that field of the parsed header and no other. */
  lemma ParseAfterWrite(s: seq<Byte>, f: Field, v: nat)
    requires |s| >= HeaderBytes && v < TWO32
    ensures ParseHeader(WriteU32(s, At(f), v)) == ParseHeader(s).With(f, v)
  {
    var r := WriteU32(s, At(f), v);
    var h, h' := ParseHeader(s), ParseHeader(r);
    forall g | g != f ensures h'.Get(g) == h.Get(g) {
      assert r[At(g)..At(g) + 4] == s[At(g)..At(g) + 4];
      DigitsOfEncode(h'.Get(g));
      DigitsOfEncode(h.Get(g));
    }
    assert h'.bpp == h.bpp;
    assert h'.Get(f) == v;
    var w := h.With(f, v);
    assert h'.Get(FileSize) == w.Get(FileSize) && h'.Get(PixelOffset) == w.Get(PixelOffset);
    assert h'.Get(DibSize) == w.Get(DibSize) && h'.Get(Width) == w.Get(Width);
    assert h'.Get(Height) == w.Get(Height);
  }

  // ------------------------------------------------------------------
  // Row stride
  // ------------------------------------------------------------------

  /** Bytes per pixel row: width * (bpp / 8), padded up to a multiple of 4. */
  function RowStride(width: nat, bpp: nat): (r: nat)
    ensures r % 4 == 0
    ensures width * (bpp / 8) <= r < width * (bpp / 8) + 4
  {
    (width * (bpp / 8) + 3) / 4 * 4
  }

  /** Division is determined by any quotient and remainder in range. */
  lemma DivMod(n: int, d: nat, q: int, m: int)
    requires d > 0 && 0 <= m < d && n == q * d + m
    ensures n / d == q && n % d == m
  {
    var q', m' := n / d, n % d;
    assert q' * d + m' == q * d + m;
    var k := q' - q;
    assert k * d == m - m' by {
      assert q' * d == (q + k) * d == q * d + k * d;
    }
  }

  /** A divisor that multiplies to the dividend gives an exact quotient. */
  lemma ExactDivisor(n: int, d: int, q: int)
    requires d > 0 && d * q == n
    ensures n % d == 0 && n / d == q
  {
    DivMod(n, d, q, 0);
  }

  /** An exact quotient multiplies back to the dividend. */
  lemma ExactQuotient(n: int, d: int)
    requires d > 0 && n % d == 0
    ensures d * (n / d) == n
  {
    DivMod(n, d, n / d, 0);
  }

  /** The quotient brackets the dividend between two consecutive multiples of the divisor. */
  lemma QuotientBracket(n: int, d: int)
    requires d > 0
    ensures (n / d) * d <= n < (n / d) * d + d
  {
    DivMod(n, d, n / d, n % d);
  }

  /** A quotient of naturals lies between zero and the dividend, and is positive when the
      divisor is at most the dividend. */
  lemma QuotientRange(n: int, d: int)
    requires 0 <= n && 1 <= d
    ensures 0 <= n / d <= n
    ensures d <= n ==> n / d > 0
  {
    DivMod(n, d, n / d, n % d);
    ProductBound(n / d, d);
  }

  /** A dividend of at least q times the divisor has a quotient of at least q. */
  lemma QuotientAtLeast(n: int, d: int, q: int)
    requires d >= 1 && q * d <= n
    ensures n / d >= q
  {
    QuotientBracket(n, d);
    var a := q - n / d - 1;
    assert a * d == q * d - (n / d) * d - d;
    NegativeFactor(a, d);
  }

  /** A negative product with a positive factor has a negative other factor. */
  lemma NegativeFactor(a: int, d: int)
    requires d >= 1 && a * d < 0
    ensures a < 0
  {
    if a >= 0 {
      ProductBound(a, d);
    }
  }

  /** A product of naturals is a natural. */
  lemma ProductNonNegative(a: nat, b: nat)
    ensures a * b >= 0
  {
  }

  /** A product with a positive factor is at least the other factor. */
  lemma ProductBound(a: int, b: int)
    requires a >= 0 && b >= 1
    ensures a <= a * b
  {
    assert a * b == a * (b - 1) + a;
  }

  /** Undoing the stride equation: the width derived from a padded row length has exactly
      that row length again, as long as a pixel takes at most four bytes. */
  lemma StrideRoundTrip(rowBytes: nat, bpp: nat)
    requires rowBytes % 4 == 0 && 1 <= bpp / 8 <= 4
    ensures RowStride(rowBytes / (bpp / 8), bpp) == rowBytes
  {
    var bb := bpp / 8;
    var w := rowBytes / bb;
    assert w * bb <= rowBytes < w * bb + bb;
    var r := RowStride(w, bpp);
    DivMod(rowBytes, 4, rowBytes / 4, 0);
    DivMod(r, 4, r / 4, 0);
    assert rowBytes - 4 < r < rowBytes + 4;
  }

  /** The width derived back from a width's own row length is that width exactly when the
      row padding is smaller than one pixel. */
  lemma StableWidth(width: nat, bpp: nat)
    requires bpp / 8 != 0
    ensures RowStride(width, bpp) / (bpp / 8) == width <==> RowStride(width, bpp) - width * (bpp / 8) < bpp / 8
  {
    var bb := bpp / 8;
    var r := RowStride(width, bpp);
    var pad := r - width * bb;
    if pad < bb {
      DivMod(r, bb, width, pad);
    } else {
      DivMod(r, bb, width + pad / bb, pad % bb);
    }
  }
}
