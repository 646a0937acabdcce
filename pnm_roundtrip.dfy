/**
 * Reading back what the writer wrote. The reader recovers the magic number,
 * the width and height, the maximum value (P2 and P3; a bitmap reads as 0)
 * and the samples reduced to their low 16 bits, as long as the matrix is not
 * empty, the maximum value prints as a non-negative %d and the file name's
 * extension matches the magic number.
 */
module PnmRoundTrip {
  import opened Wrappers
  import opened Bits
  import opened Utils
  import opened CFormat
  import opened PnmImage
  import opened PnmRead
  import opened PnmWrite

  /** A printed number, after blanks and before a non-digit, reads back as itself. */
  lemma ReadDecimal(w: string, v: uint32, t: string, s: string)
    requires Blank(w) && (t == [] || !IsDigit(t[0])) && s == w + Decimal(v) + t
    ensures ReadSample(s) == Some(Scanned(v, t))
  {
    var d := Decimal(v);
    assert s == w + (d + t);
    assert (d + t)[0] == d[0];
    SkipBlanks(w, d + t, s);
    ScanNumber(v, t, d + t);
  }

  /** A printed row, in the text s, reads back as its samples' low 16 bits. */
  lemma {:induction false} ReadRowText(w: string, row: seq<uint32>, t: string, s: string)
    requires Blank(w) && s == w + RowText(row) + t
    ensures ReadRow(s, |row|) == Some(Scanned(Low16(row), if row == [] then w + t else " " + t))
    decreases |row|
  {
    if row == [] {
      assert s == w + t;
      assert Low16(row) == [];
    } else {
      var c := row[0] % U16;
      var t1 := " " + RowText(row[1..]) + t;
      assert s == w + Decimal(c) + t1;
      assert Low16(row) == [c] + Low16(row[1..]);
      ReadDecimal(w, c, t1, s);
      ReadRowText(" ", row[1..], t, t1);
      ReadManyStep(ReadSample, s, |row|, c, t1, Low16(row[1..]), " " + t);
    }
  }

  /** The separators the writer prints are blanks. */
  lemma BlankSeparators()
    ensures Blank(" \n") && Blank("\n") && Blank(" ")
  {
  }

  /** The text of lines > 0 rows: the first row, then a line break and the others. */
  lemma RowsTextSplit(w: string, pixels: seq<uint32>, lines: nat, n: nat, t: string, s: string)
    requires n > 0 && lines > 0 && |pixels| == Cells(lines, n)
    requires s == w + RowsText(pixels, lines, n) + t
    ensures n <= |pixels| && |pixels[n..]| == Cells(lines - 1, n)
    ensures s == w + RowText(pixels[..n]) + ("\n" + RowsText(pixels[n..], lines - 1, n) + t)
    ensures " " + ("\n" + RowsText(pixels[n..], lines - 1, n) + t) == " \n" + RowsText(pixels[n..], lines - 1, n) + t
    ensures Low16(pixels) == Low16(pixels[..n]) + Low16(pixels[n..])
  {
    assert Cells(lines, n) == Cells(lines - 1, n) + n;
    var first, others := RowText(pixels[..n]), RowsText(pixels[n..], lines - 1, n);
    assert RowsText(pixels, lines, n) == first + "\n" + others;
    RegroupRows(w, first, others, t);
    BreakAfterSpace(others, t);
    assert pixels == pixels[..n] + pixels[n..];
    Low16Append(pixels[..n], pixels[n..]);
  }

  /** The first row's text moves to the prefix, the line break to the rest. */
  lemma RegroupRows(w: string, first: string, others: string, t: string)
    ensures w + (first + "\n" + others) + t == w + first + ("\n" + others + t)
  {
  }

  /** A blank and a line break, then x. */
  lemma BreakAfterSpace(x: string, t: string)
    ensures " " + ("\n" + x + t) == " \n" + x + t
  {
  }

  /** A printed row, then whatever the rows after it read as. */
  lemma ReadFirstRow(w: string, row: seq<uint32>, t1: string, s: string, lines: nat, rows: seq<uint32>, rest: string)
    requires Blank(w) && row != [] && lines > 0 && s == w + RowText(row) + t1
    requires ReadRows(" " + t1, lines - 1, |row|) == Some(Scanned(rows, rest))
    ensures ReadRows(s, lines, |row|) == Some(Scanned(Low16(row) + rows, rest))
  {
    ReadRowText(w, row, t1, s);
    ReadManyRowsStep(ReadSample, s, lines, |row|, Low16(row), " " + t1, rows, rest);
  }

  /** Printed rows, in the text s, read back as all their samples' low 16 bits. */
  lemma {:induction false} ReadRowsText(w: string, pixels: seq<uint32>, lines: nat, n: nat, t: string, s: string)
    requires Blank(w) && n > 0 && |pixels| == Cells(lines, n)
    requires s == w + RowsText(pixels, lines, n) + t
    ensures ReadRows(s, lines, n) == Some(Scanned(Low16(pixels), if lines == 0 then w + t else " \n" + t))
    decreases lines
  {
    if lines == 0 {
      assert s == w + t;
    } else {
      RowsTextSplit(w, pixels, lines, n, t, s);
      var row, others := pixels[..n], pixels[n..];
      var t1 := "\n" + RowsText(others, lines - 1, n) + t;
      var s1 := " " + t1;
      var sep := " \n";
      assert |row| == n && |others| == Cells(lines - 1, n);
      BlankSeparators();
      assert s1 == sep + RowsText(others, lines - 1, n) + t;
      ReadRowsText(sep, others, lines - 1, n, t, s1);
      var after := if lines - 1 == 0 then " \n" + t else " \n" + t;
      assert after == " \n" + t;
      ReadFirstRow(w, row, t1, s, lines, Low16(others), after);
    }
  }

  /** The image the reader makes of a written one. */
  function Reread(img: Image): Image
  {
    Image(img.magic, img.columns, img.lines, if HasMaxValue(img.magic) then img.maxValue else 0, Low16(img.pixels))
  }

  /** The rows, after the line break that ends the header, read back as the samples' low 16 bits. */
  lemma PixelsReadBack(img: Image, maxValue: uint32, s: string)
    requires WellFormed(img) && img.lines > 0 && RowLength(img.magic, img.columns) > 0
    requires !HasMaxValue(img.magic) ==> maxValue == 0
    requires s == "\n" + RowsText(img.pixels, img.lines, RowLength(img.magic, img.columns))
    ensures LoadPixels(img.magic, img.columns, img.lines, maxValue, s)
         == Loaded(Image(img.magic, img.columns, img.lines, maxValue, Low16(img.pixels)))
  {
    var n := RowLength(img.magic, img.columns);
    assert s == "\n" + RowsText(img.pixels, img.lines, n) + "";
    ReadRowsText("\n", img.pixels, img.lines, n, "", s);
  }

  /** The size line, after the line break that ends the magic number's line. */
  lemma SizeReadsBack(columns: uint32, lines: uint32, t: string, s: string)
    requires t != [] && IsNewline(t[0])
    requires s == "\n" + Decimal(columns) + " " + Decimal(lines) + t
    ensures SkipData(s).Some? && SkipData(s).value.newlines == 1
    ensures ScanPair(SkipData(s).value.rest) == Some(Scanned((columns, lines), t))
  {
    var dc := Decimal(columns);
    var afterSkip := dc + " " + Decimal(lines) + t;
    assert s == "\n" + afterSkip;
    assert afterSkip[0] == dc[0];
    SkipBlanks("\n", afterSkip, s);
    ScanPairDecimal(columns, lines, t, afterSkip);
  }

  /** The maximum value line, when there is one. */
  lemma MaxReadsBack(img: Image, rows: string, s: string)
    requires HasMaxValue(img.magic) ==> img.maxValue < I32
    requires s == "\n" + MaxText(img) + rows
    ensures HasMaxValue(img.magic) ==> ReadSample(s) == Some(Scanned(img.maxValue, "\n" + rows))
    ensures !HasMaxValue(img.magic) ==> s == "\n" + rows
  {
    if HasMaxValue(img.magic) {
      assert s == "\n" + Decimal(img.maxValue) + ("\n" + rows);
      ReadDecimal("\n", img.maxValue, "\n" + rows, s);
    } else {
      assert s == "\n" + "" + rows;
    }
  }

  /** What follows the magic number: the size line, the maximum value line and the rows. */
  lemma BodyReadsBack(img: Image, s: string)
    requires WellFormed(img) && img.lines > 0 && RowLength(img.magic, img.columns) > 0
    requires HasMaxValue(img.magic) ==> img.maxValue < I32
    requires s == "\n" + Decimal(img.columns) + " " + Decimal(img.lines) + "\n" + MaxText(img)
                  + RowsText(img.pixels, img.lines, RowLength(img.magic, img.columns))
    ensures LoadBody(img.magic, s) == Loaded(Reread(img))
  {
    var rows := RowsText(img.pixels, img.lines, RowLength(img.magic, img.columns));
    var tail := "\n" + rows;
    var t2 := "\n" + MaxText(img) + rows;
    AppendThree("\n" + Decimal(img.columns) + " " + Decimal(img.lines), "\n", MaxText(img), rows);
    SizeReadsBack(img.columns, img.lines, t2, s);
    MaxReadsBack(img, rows, t2);
    if HasMaxValue(img.magic) {
      PixelsReadBack(img, img.maxValue, tail);
    } else {
      PixelsReadBack(img, 0, tail);
    }
  }

  /** The magic number, at the very start of the text, is read whole and sends the reader on. */
  lemma MagicReadsBack(magic: Magic, body: string, text: string)
    requires body != [] && body[0] == '\n' && text == MagicText(magic) + body
    ensures LoadText(ExtensionOf(magic), text) == LoadBody(magic, body)
  {
    var m := MagicText(magic);
    assert IsGraph(m[0]) && m[1] != '#';
    LoadTextMagic(ExtensionOf(magic), m, body, text);
    MagicOfText(magic);
  }

  /** The two characters written for a magic number name that magic number. */
  lemma MagicOfText(magic: Magic)
    ensures MagicOf(MagicText(magic)) == Some(magic)
  {
  }

  /** The first piece of a text, then all the others. */
  lemma Regroup(a: string, b: string, c: string, d: string, e: string, f: string, g: string, h: string)
    ensures a + b + c + d + e + f + g + h == a + (b + c + d + e + f + g + h)
  {
  }

  /**
   * write_pnm then load_pnm: a file the writer produced reads back as the
   * same magic number, size and maximum value, with every sample reduced to
   * its low 16 bits.
   */
  lemma WriteThenLoad(img: Image, name: string)
    requires WellFormed(img) && img.lines > 0 && RowLength(img.magic, img.columns) > 0
    requires HasMaxValue(img.magic) ==> img.maxValue < I32
    requires ValidFileName(name) && FileExtension(name) == Some(ExtensionOf(img.magic))
    ensures WritePnm(img, name, true).Written?
    ensures LoadPnm(name, Some(WritePnm(img, name, true).text)) == Loaded(Reread(img))
  {
    var dc, dl, mx := Decimal(img.columns), Decimal(img.lines), MaxText(img);
    var rows := RowsText(img.pixels, img.lines, RowLength(img.magic, img.columns));
    var body := "\n" + dc + " " + dl + "\n" + mx + rows;
    var text := PnmText(img);
    assert text == MagicText(img.magic) + "\n" + dc + " " + dl + "\n" + mx + rows;
    Regroup(MagicText(img.magic), "\n", dc, " ", dl, "\n", mx, rows);
    MagicReadsBack(img.magic, body, text);
    BodyReadsBack(img, body);
  }
}
