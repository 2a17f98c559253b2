/**
 * pgm_save: a luma plane written as a binary greyscale PGM file, the
 * header "P5\n<xsize> <ysize>\n255\n" followed by ysize rows of xsize
 * bytes, row i taken from offset Mul(i, wrap) of the plane.
 */
module Pgm {
  import opened Wrappers
  import opened Bytes

  /** "P5\n", the magic token of a binary greymap. */
  const MAGIC: seq<byte> := [0x50, 0x35, NEWLINE]
  /** The maximum grey value printed in the header. */
  const MAXVAL: nat := 255

  /** Every one of the ysize rows of xsize bytes at stride wrap lies inside a plane of len bytes. */
  predicate RowsFit(len: nat, wrap: nat, xsize: nat, ysize: nat) {
    ysize == 0 || Mul(ysize - 1, wrap) + xsize <= len
  }

  lemma RowFits(len: nat, wrap: nat, xsize: nat, ysize: nat, i: nat)
    requires RowsFit(len, wrap, xsize, ysize) && i < ysize
    ensures Mul(i, wrap) + xsize <= len
    ensures RowsFit(len, wrap, xsize, i) && RowsFit(len, wrap, xsize, i + 1)
  {
    MulMonotone(i, ysize - 1, wrap);
    if i > 0 { MulMonotone(i - 1, ysize - 1, wrap); }
  }

  /** a * b as repeated addition: the row offsets of the plane and of the output are written with it. */
  function Mul(a: nat, b: nat): nat { if a == 0 then 0 else Mul(a - 1, b) + b }

  lemma {:induction false} MulMonotone(a: nat, b: nat, c: nat)
    requires a <= b
    ensures Mul(a, c) <= Mul(b, c)
    decreases b
  {
    if a < b { MulMonotone(a, b - 1, c); }
  }

  /** Mul is ordinary multiplication. */
  lemma {:induction false} MulIsProduct(a: nat, b: nat)
    ensures Mul(a, b) == a * b
  {
    if a > 0 { MulIsProduct(a - 1, b); }
  }

  /** The text that fprintf(f, "P5\n%d %d\n%d\n", xsize, ysize, 255) produces. */
  function Header(xsize: nat, ysize: nat): seq<byte> {
    MAGIC + Decimal(xsize) + [SPACE] + Decimal(ysize) + [NEWLINE] + Decimal(MAXVAL) + [NEWLINE]
  }

  /** Row i of the plane: the xsize bytes at offset Mul(i, wrap). */
  function Row(buf: seq<byte>, wrap: nat, xsize: nat, i: nat): seq<byte>
    requires Mul(i, wrap) + xsize <= |buf|
  {
    buf[Mul(i, wrap) .. Mul(i, wrap) + xsize]
  }

  /** What the first ysize iterations of the fwrite loop write. */
  function Body(buf: seq<byte>, wrap: nat, xsize: nat, ysize: nat): seq<byte>
    requires RowsFit(|buf|, wrap, xsize, ysize)
    decreases ysize
  {
    if ysize == 0 then []
    else
      RowFits(|buf|, wrap, xsize, ysize, ysize - 1);
      Body(buf, wrap, xsize, ysize - 1) + Row(buf, wrap, xsize, ysize - 1)
  }

  /** The whole file pgm_save writes. */
  function Image(buf: seq<byte>, wrap: nat, xsize: nat, ysize: nat): seq<byte>
    requires RowsFit(|buf|, wrap, xsize, ysize)
  {
    Header(xsize, ysize) + Body(buf, wrap, xsize, ysize)
  }

  /**
   * pgm_save with the file replaced by the bytes written to it: the header,
   * then one fwrite of xsize bytes per row.
   */
  method PgmSave(buf: seq<byte>, wrap: nat, xsize: nat, ysize: nat) returns (file: seq<byte>)
    requires RowsFit(|buf|, wrap, xsize, ysize)
    ensures file == Image(buf, wrap, xsize, ysize)
  {
    file := Header(xsize, ysize);
    var i := 0;
    while i < ysize
      invariant 0 <= i <= ysize
      invariant RowsFit(|buf|, wrap, xsize, i)
      invariant file == Header(xsize, ysize) + Body(buf, wrap, xsize, i)
    {
      BodyStep(buf, wrap, xsize, ysize, i);
      file := file + buf[Mul(i, wrap) .. Mul(i, wrap) + xsize];
      i := i + 1;
    }
  }

  /** Body unfolded once at i + 1: the proof step for one iteration of the fwrite loop. */
  lemma BodyStep(buf: seq<byte>, wrap: nat, xsize: nat, ysize: nat, i: nat)
    requires RowsFit(|buf|, wrap, xsize, ysize) && i < ysize
    ensures Mul(i, wrap) + xsize <= |buf| && RowsFit(|buf|, wrap, xsize, i) && RowsFit(|buf|, wrap, xsize, i + 1)
    ensures Body(buf, wrap, xsize, i + 1) == Body(buf, wrap, xsize, i) + buf[Mul(i, wrap) .. Mul(i, wrap) + xsize]
  {
    RowFits(|buf|, wrap, xsize, ysize, i);
  }

  /** BodyLength with the product written as Mul, proved by induction on the rows. */
  lemma {:induction false} BodyLengthMul(buf: seq<byte>, wrap: nat, xsize: nat, ysize: nat)
    requires RowsFit(|buf|, wrap, xsize, ysize)
    ensures |Body(buf, wrap, xsize, ysize)| == Mul(ysize, xsize)
    decreases ysize
  {
    if ysize > 0 {
      BodyStep(buf, wrap, xsize, ysize, ysize - 1);
      BodyLengthMul(buf, wrap, xsize, ysize - 1);
    }
  }

  /** BodyAt with the products written as Mul, proved by induction on the rows. */
  lemma {:induction false} BodyAtMul(buf: seq<byte>, wrap: nat, xsize: nat, ysize: nat, i: nat, j: nat)
    requires RowsFit(|buf|, wrap, xsize, ysize)
    requires i < ysize && j < xsize
    ensures Mul(i, wrap) + j < |buf|
    ensures Mul(i, xsize) + j < |Body(buf, wrap, xsize, ysize)|
    ensures Body(buf, wrap, xsize, ysize)[Mul(i, xsize) + j] == buf[Mul(i, wrap) + j]
    decreases ysize
  {
    BodyStep(buf, wrap, xsize, ysize, ysize - 1);
    var prefix := Body(buf, wrap, xsize, ysize - 1);
    var row := Row(buf, wrap, xsize, ysize - 1);
    if i < ysize - 1 {
      BodyAtMul(buf, wrap, xsize, ysize - 1, i, j);
      assert (prefix + row)[Mul(i, xsize) + j] == prefix[Mul(i, xsize) + j];
    } else {
      BodyLengthMul(buf, wrap, xsize, ysize - 1);
      assert (prefix + row)[|prefix| + j] == row[j];
    }
  }

  /** The body holds exactly xsize * ysize data bytes. */
  lemma BodyLength(buf: seq<byte>, wrap: nat, xsize: nat, ysize: nat)
    requires RowsFit(|buf|, wrap, xsize, ysize)
    ensures |Body(buf, wrap, xsize, ysize)| == xsize * ysize
  {
    BodyLengthMul(buf, wrap, xsize, ysize);
    MulIsProduct(ysize, xsize);
  }

  /**
   * Byte j of output row i is byte j of plane row i: the output is row-major
   * with rows of exactly xsize bytes, and the stride bytes past xsize are never written.
   */
  lemma BodyAt(buf: seq<byte>, wrap: nat, xsize: nat, ysize: nat, i: nat, j: nat)
    requires RowsFit(|buf|, wrap, xsize, ysize)
    requires i < ysize && j < xsize
    ensures i * wrap + j < |buf|
    ensures xsize * i + j < |Body(buf, wrap, xsize, ysize)|
    ensures Body(buf, wrap, xsize, ysize)[xsize * i + j] == buf[i * wrap + j]
  {
    BodyAtMul(buf, wrap, xsize, ysize, i, j);
    MulIsProduct(i, wrap);
    MulIsProduct(i, xsize);
  }

  /** Byte j of row i of a plane, or 0 outside it. */
  function Pixel(buf: seq<byte>, wrap: nat, i: nat, j: nat): byte {
    if Mul(i, wrap) + j < |buf| then buf[Mul(i, wrap) + j] else 0
  }

  /**
   * Only the bytes inside the rows are read: two planes that agree on
   * every row give the same body, whatever their padding holds.
   */
  lemma {:induction false} BodyReadsOnlyRows(buf: seq<byte>, other: seq<byte>, wrap: nat, xsize: nat, ysize: nat)
    requires RowsFit(|buf|, wrap, xsize, ysize) && RowsFit(|other|, wrap, xsize, ysize)
    requires forall i: nat, j: nat :: i < ysize && j < xsize ==> Pixel(buf, wrap, i, j) == Pixel(other, wrap, i, j)
    ensures Body(buf, wrap, xsize, ysize) == Body(other, wrap, xsize, ysize)
    decreases ysize
  {
    if ysize > 0 {
      var i := ysize - 1;
      RowFits(|buf|, wrap, xsize, ysize, i);
      RowFits(|other|, wrap, xsize, ysize, i);
      BodyReadsOnlyRows(buf, other, wrap, xsize, i);
      var a, b := Row(buf, wrap, xsize, i), Row(other, wrap, xsize, i);
      forall j: nat | j < xsize ensures a[j] == b[j] {
        assert Pixel(buf, wrap, i, j) == Pixel(other, wrap, i, j);
      }
      assert a == b;
    }
  }

  /** A PGM file read back: width, height, maximum grey value and pixels. */
  datatype Greymap = Greymap(width: int, height: int, maxval: int, pixels: seq<byte>)

  /** A decimal number followed by the separator sep; yields the number and what follows sep. */
  function Field(s: seq<byte>, sep: byte): (r: Option<Parsed>)
    ensures r.Some? ==> |r.value.rest| < |s|
  {
    match ParseNat(s)
    case None => None
    case Some(p) =>
      if p.rest != [] && p.rest[0] == sep then Some(Parsed(p.value, p.rest[1..])) else None
  }

  /** Reads a file in exactly the layout Header writes, followed by width * height pixels. */
  function ParsePgm(f: seq<byte>): Option<Greymap> {
    if |f| < |MAGIC| || f[..|MAGIC|] != MAGIC then None
    else match Field(f[|MAGIC|..], SPACE)
      case None => None
      case Some(w) =>
        match Field(w.rest, NEWLINE)
        case None => None
        case Some(h) =>
          match Field(h.rest, NEWLINE)
          case None => None
          case Some(m) =>
            if |m.rest| != w.value * h.value then None
            else Some(Greymap(w.value, h.value, m.value, m.rest))
  }

  lemma FieldDecimal(n: nat, sep: byte, rest: seq<byte>)
    requires !IsDigit(sep)
    ensures Field(Decimal(n) + ([sep] + rest), sep) == Some(Parsed(n, rest))
  {
    ParseNatDecimal(n, [sep] + rest);
  }

  /** Round trip: the file pgm_save writes parses back to its size, 255 and exactly the body. */
  lemma ParseImage(buf: seq<byte>, wrap: nat, xsize: nat, ysize: nat)
    requires RowsFit(|buf|, wrap, xsize, ysize)
    ensures ParsePgm(Image(buf, wrap, xsize, ysize))
            == Some(Greymap(xsize, ysize, MAXVAL, Body(buf, wrap, xsize, ysize)))
  {
    BodyLength(buf, wrap, xsize, ysize);
    ImageShape(buf, wrap, xsize, ysize);
    ParseLayout(xsize, ysize, Body(buf, wrap, xsize, ysize));
  }

  lemma ParseLayout(xsize: nat, ysize: nat, body: seq<byte>)
    requires |body| == xsize * ysize
    ensures ParsePgm(MAGIC + (Decimal(xsize) + ([SPACE] + (Decimal(ysize) + ([NEWLINE] +
              (Decimal(MAXVAL) + ([NEWLINE] + body)))))))
            == Some(Greymap(xsize, ysize, MAXVAL, body))
  {
    var r2 := Decimal(MAXVAL) + ([NEWLINE] + body);
    var r1 := Decimal(ysize) + ([NEWLINE] + r2);
    var f := MAGIC + (Decimal(xsize) + ([SPACE] + r1));
    assert f[..|MAGIC|] == MAGIC;
    assert f[|MAGIC|..] == Decimal(xsize) + ([SPACE] + r1);
    FieldDecimal(xsize, SPACE, r1);
    FieldDecimal(ysize, NEWLINE, r2);
    FieldDecimal(MAXVAL, NEWLINE, body);
  }

  lemma ImageShape(buf: seq<byte>, wrap: nat, xsize: nat, ysize: nat)
    requires RowsFit(|buf|, wrap, xsize, ysize)
    ensures Image(buf, wrap, xsize, ysize)
            == MAGIC + (Decimal(xsize) + ([SPACE] + (Decimal(ysize) + ([NEWLINE] +
               (Decimal(MAXVAL) + ([NEWLINE] + Body(buf, wrap, xsize, ysize)))))))
  {
    var x, y, m, b := Decimal(xsize), Decimal(ysize), Decimal(MAXVAL), Body(buf, wrap, xsize, ysize);
    calc {
      Image(buf, wrap, xsize, ysize);
      MAGIC + x + [SPACE] + y + [NEWLINE] + m + [NEWLINE] + b;
      { Assoc6(MAGIC, x, [SPACE], y, [NEWLINE], m, [NEWLINE], b); }
      MAGIC + (x + ([SPACE] + (y + ([NEWLINE] + (m + ([NEWLINE] + b))))));
    }
  }

  lemma Assoc6(a: seq<byte>, b: seq<byte>, c: seq<byte>, d: seq<byte>, e: seq<byte>, f: seq<byte>, g: seq<byte>, h: seq<byte>)
    ensures a + b + c + d + e + f + g + h == a + (b + (c + (d + (e + (f + (g + h))))))
  {
    assert a + b + c + d + e + f + g + h == a + (b + (c + (d + (e + (f + (g + h))))));
  }
}
