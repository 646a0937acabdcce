/**
 * The image the tool loads, encrypts and writes: a plain Netpbm bitmap (P1),
 * graymap (P2) or pixmap (P3) with its width, height, maximum sample value
 * and samples. The samples are kept row by row in one flat sequence; a row of
 * a pixmap holds three samples per column.
 */
module PnmImage {
  import opened Bits

  datatype Magic = P1 | P2 | P3

  /** A decoded image; every number is an unsigned int in the program. */
  datatype Image = Image(magic: Magic, columns: uint32, lines: uint32, maxValue: uint32, pixels: seq<uint32>)

  /**
   * Samples per row: the columns, times three for P3, in 32-bit unsigned
   * arithmetic, so a P3 width of 2^32 / 3 or more wraps around.
   */
  function RowLength(magic: Magic, columns: nat): (n: nat)
    ensures n < U32 || (magic != P3 && n == columns)
  {
    if magic == P3 then (3 * columns) % U32 else columns
  }

  /**
   * A row of a bitmap or graymap holds one sample per column, a row of a
   * pixmap three, as long as three times the width fits in an unsigned int.
   */
  lemma RowSamples(magic: Magic, columns: uint32)
    ensures RowLength(magic, columns) < U32
    ensures magic != P3 ==> RowLength(magic, columns) == columns
    ensures magic == P3 && 3 * columns < U32 ==> RowLength(magic, columns) == 3 * columns
    ensures magic == P3 && 3 * columns >= U32 ==> RowLength(magic, columns) < 3 * columns
  {
  }

  /** The magic number as it is written on the first line. */
  function MagicText(magic: Magic): (s: string)
    ensures |s| == 2 && s[0] == 'P'
  {
    match magic
    case P1 => "P1"
    case P2 => "P2"
    case P3 => "P3"
  }

  /** The file extension each magic number must come with. */
  function ExtensionOf(magic: Magic): string
  {
    match magic
    case P1 => "pbm"
    case P2 => "pgm"
    case P3 => "ppm"
  }

  /** Only graymaps and pixmaps carry a maximum value. */
  predicate HasMaxValue(magic: Magic)
  {
    magic == P2 || magic == P3
  }

  predicate AllBelow(s: seq<nat>, bound: nat)
  {
    forall k :: 0 <= k < |s| ==> s[k] < bound
  }

  /** The number of cells of a lines x rowLength matrix, counted row by row. */
  function Cells(lines: nat, rowLength: nat): nat
  {
    if lines == 0 then 0 else Cells(lines - 1, rowLength) + rowLength
  }

  lemma {:induction false} CellsProduct(lines: nat, rowLength: nat)
    ensures Cells(lines, rowLength) == lines * rowLength
  {
    if lines > 0 {
      CellsProduct(lines - 1, rowLength);
    }
  }

  /** More lines, more cells. */
  lemma {:induction false} CellsMono(a: nat, b: nat, rowLength: nat)
    requires a <= b
    ensures Cells(a, rowLength) <= Cells(b, rowLength)
    decreases b
  {
    if a < b {
      CellsMono(a, b - 1, rowLength);
    }
  }

  /** There is one sample per cell of the lines x RowLength matrix. */
  predicate WellFormed(img: Image)
  {
    |img.pixels| == Cells(img.lines, RowLength(img.magic, img.columns))
  }

  /** The samples reduced to their low 16 bits, as the writer prints them. */
  function Low16(s: seq<uint32>): (r: seq<uint32>)
    ensures |r| == |s| && AllBelow(r, U16)
    ensures forall k :: 0 <= k < |s| ==> r[k] == s[k] % U16
  {
    seq(|s|, k requires 0 <= k < |s| => s[k] % U16)
  }

  lemma Low16Append(a: seq<uint32>, b: seq<uint32>)
    ensures Low16(a + b) == Low16(a) + Low16(b)
  {
  }
}
