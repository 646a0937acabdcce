/**
 * The text write_pnm produces: the magic number line, a "columns lines" line,
 * the maximum value line for P2 and P3 (printed with %d), then one line per
 * row in which every sample is printed as an unsigned short (its low 16 bits)
 * followed by a space.
 */
module PnmWrite {
  import opened Bits
  import opened Utils
  import opened CFormat
  import opened PnmImage

  /** -1: the name fails check_file_name; -2: the file cannot be opened. */
  datatype WriteResult = Rejected(code: int) | Written(text: string)

  /** The maximum value line, present for P2 and P3 only. */
  function MaxText(img: Image): string
  {
    if HasMaxValue(img.magic) then PrintSigned32(img.maxValue) + "\n" else ""
  }

  function HeaderText(img: Image): string
  {
    MagicText(img.magic) + "\n" + Decimal(img.columns) + " " + Decimal(img.lines) + "\n" + MaxText(img)
  }

  /** One row: every sample as "%hu ". */
  function RowText(row: seq<uint32>): string
  {
    if row == [] then "" else Decimal(row[0] % U16) + " " + RowText(row[1..])
  }

  /**
   * lines rows of rowLength samples, each row ended by a line break. (Of a
   * sequence too short for that, which no well-formed image has, whatever
   * samples there are.)
   */
  function RowsText(pixels: seq<uint32>, lines: nat, rowLength: nat): string
    decreases lines
  {
    if lines == 0 then ""
    else
      var k := if rowLength <= |pixels| then rowLength else |pixels|;
      RowText(pixels[..k]) + "\n" + RowsText(pixels[k..], lines - 1, rowLength)
  }

  /** The whole file. */
  function PnmText(img: Image): string
    requires WellFormed(img)
  {
    HeaderText(img) + RowsText(img.pixels, img.lines, RowLength(img.magic, img.columns))
  }

  /**
   * write_pnm: the name is checked before the file is opened, and nothing is
   * written unless both succeed.
   */
  function WritePnm(img: Image, name: string, writable: bool): (r: WriteResult)
    requires WellFormed(img)
    ensures r == Rejected(-1) <==> !ValidFileName(name)
    ensures r == Rejected(-2) <==> ValidFileName(name) && !writable
    ensures r.Written? <==> ValidFileName(name) && writable
  {
    if !ValidFileName(name) then Rejected(-1)
    else if !writable then Rejected(-2)
    else Written(PnmText(img))
  }

  /** Printing one more sample appends it to the row. */
  lemma {:induction false} RowTextSnoc(row: seq<uint32>, c: uint32)
    ensures RowText(row + [c]) == RowText(row) + Decimal(c % U16) + " "
    decreases |row|
  {
    if row == [] {
      assert [] + [c] == [c];
      assert [c][1..] == [];
    } else {
      assert (row + [c])[1..] == row[1..] + [c];
      RowTextSnoc(row[1..], c);
    }
  }

  /** Printing one more row appends it, with its line break. */
  lemma {:induction false} RowsTextSnoc(pixels: seq<uint32>, lines: nat, row: seq<uint32>)
    requires |pixels| == Cells(lines, |row|)
    ensures |pixels + row| == Cells(lines + 1, |row|)
    ensures RowsText(pixels + row, lines + 1, |row|) == RowsText(pixels, lines, |row|) + RowText(row) + "\n"
    decreases lines
  {
    var n := |row|;
    if lines == 0 {
      assert pixels + row == row;
      assert row[..n] == row && row[n..] == [];
    } else {
      assert (pixels + row)[..n] == pixels[..n];
      assert (pixels + row)[n..] == pixels[n..] + row;
      RowsTextSnoc(pixels[n..], lines - 1, row);
      var first, others, last := RowText(pixels[..n]), RowsText(pixels[n..], lines - 1, n), RowText(row);
      assert RowsText(pixels + row, lines + 1, n) == first + "\n" + (others + last + "\n");
      assert RowsText(pixels, lines, n) == first + "\n" + others;
      AppendThree(first + "\n", others, last, "\n");
    }
  }

  /** Appending three strings at once or one after the other. */
  lemma AppendThree(x: string, a: string, b: string, c: string)
    ensures x + (a + b + c) == x + a + b + c
  {
  }

  /** The rows of a prefix of the samples, one row longer. */
  lemma RowsTextPrefix(pixels: seq<uint32>, lines: nat, rowLength: nat, k: nat)
    requires k == Cells(lines, rowLength) && k + rowLength <= |pixels|
    ensures RowsText(pixels[..k + rowLength], lines + 1, rowLength)
         == RowsText(pixels[..k], lines, rowLength) + RowText(pixels[k..k + rowLength]) + "\n"
  {
    RowsTextSnoc(pixels[..k], lines, pixels[k..k + rowLength]);
    assert pixels[..k] + pixels[k..k + rowLength] == pixels[..k + rowLength];
  }

  /** A row's text holds no line break. */
  lemma {:induction false} RowTextNoNewline(row: seq<uint32>)
    ensures '\n' !in RowText(row) && '\r' !in RowText(row)
    decreases |row|
  {
    if row != [] {
      RowTextNoNewline(row[1..]);
      var d := Decimal(row[0] % U16);
      assert forall i :: 0 <= i < |d| ==> IsDigit(d[i]);
    }
  }
}
