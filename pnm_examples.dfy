/**
 * The reader and the writer on small inputs, among them the cases the
 * program's own tests exercise and the places where the reader departs from
 * the Netpbm format. A file is given with the extension of its name: once
 * the name's extension is found, load_pnm is LoadText.
 */
module PnmExamples {
  import opened Wrappers
  import opened Bits
  import opened Utils
  import opened CFormat
  import opened PnmImage
  import opened PnmRead
  import opened PnmWrite
  import opened PnmRoundTrip

  /** A name with one dot: load_pnm goes on with the text and that extension, or fails with -1 unopened. */
  lemma OpenedAs(base: string, ext: string, text: string)
    requires '.' !in ext
    ensures LoadPnm(base + "." + ext, Some(text)) == LoadText(ext, text)
    ensures LoadPnm(base + "." + ext, None) == Failed(-1)
  {
    FileExtensionOfSplit(base, ext);
  }

  /** A leading line break puts the magic number on line 2: -3. */
  lemma LeadingNewline()
    ensures LoadText("pgm", "\nP2\n1 1\n255\n0\n") == Failed(-3)
  {
    SkipBlanks("\n", "P2\n1 1\n255\n0\n", "\nP2\n1 1\n255\n0\n");
  }

  /** A pixmap header in a file named .pgm: -2, before the size is read. */
  lemma MagicMismatch()
    ensures LoadText("pgm", "P3\n1 1\n255\n0 0 0\n") == Failed(-2)
  {
    LoadTextMagic("pgm", "P3", "\n1 1\n255\n0 0 0\n", "P3\n1 1\n255\n0 0 0\n");
  }

  /** A magic number the reader does not know: -3. */
  lemma UnknownMagic()
    ensures LoadText("ppm", "P6\n1 1\n255\n") == Failed(-3)
  {
    LoadTextMagic("ppm", "P6", "\n1 1\n255\n", "P6\n1 1\n255\n");
  }

  lemma SmallDecimals()
    ensures Decimal(1) == "1" && Decimal(3) == "3" && Decimal(7) == "7"
  {
  }

  /** The size line "3 1". */
  lemma SizeThreeByOne()
    ensures ScanPair("3 1\n1 0 1\n") == Some(Scanned((3, 1), "\n1 0 1\n"))
  {
    SmallDecimals();
    ScanPairDecimal(3, 1, "\n1 0 1\n", "3 1\n1 0 1\n");
  }

  /** %2[^#] stops after two characters: "P13 1" is the magic P1, then the size 3 x 1. */
  lemma MagicTakesTwo()
    ensures LoadText("pbm", "P13 1\n1 0 1\n") == LoadBody(P1, "3 1\n1 0 1\n")
    ensures ScanPair("3 1\n1 0 1\n") == Some(Scanned((3, 1), "\n1 0 1\n"))
  {
    LoadTextMagic("pbm", "P1", "3 1\n1 0 1\n", "P13 1\n1 0 1\n");
    SizeThreeByOne();
  }

  /** A comment line where a sample is expected: the sample after it is read. */
  lemma CommentBeforeSample()
    ensures ReadSample("\n# row 2\n0\n") == ReadSample("0\n")
  {
    SampleAfterComment("\n", " row 2", '\n', "0\n", "\n# row 2\n0\n");
  }

  /** The same with CRLF line breaks: the comment ends at '\r', and the '\n' after it is a blank. */
  lemma CommentBeforeSampleCrlf()
    ensures ReadSample("\r\n# row 2\r\n0\r\n") == ReadSample("\n0\r\n")
  {
    assert "\r\n# row 2\r\n0\r\n" == "\r\n" + "#" + " row 2" + ['\r'] + "\n0\r\n";
    SampleAfterComment("\r\n", " row 2", '\r', "\n0\r\n", "\r\n# row 2\r\n0\r\n");
  }

  /** The only sample of "\n7\n", after which there is none. */
  lemma OneSampleLeft()
    ensures ReadRow("\n7\n", 1) == Some(Scanned([7], "\n"))
    ensures ReadSample("\n").None?
  {
    ReadDecimal("\n", 7, "\n", "\n7\n");
    ReadManyStep(ReadSample, "\n7\n", 1, 7, "\n", [], "\n");
    assert [7 as uint32] + [] == [7];
  }

  /** A 2 x 1 graymap with only one sample: -3. */
  lemma MissingSample()
    ensures LoadPixels(P2, 2, 1, 255, "\n7\n") == Failed(-3)
  {
    OneSampleLeft();
    MissingSampleFails(P2, 2, 1, 255, "\n7\n", 1, [7], "\n");
  }

  /** %u reads "01" as the single number 1. */
  lemma LeadingZero()
    ensures ScanUnsigned("01\n") == Some(Scanned(1, "\n"))
  {
    SpacesEndAt("01\n", 0, 0);
    DigitsEndAt("01\n", 0, 2);
    assert "01\n"[0..2] == "01" && "01\n"[2..] == "\n";
    assert DigitsValue("01") == 1;
  }

  /** Two bits written together are one sample. */
  lemma BitsAsOneSample()
    ensures ReadRow("\n01\n", 1) == Some(Scanned([1], "\n"))
    ensures ReadSample("\n").None?
  {
    SkipBlanks("\n", "01\n", "\n01\n");
    LeadingZero();
    ReadManyStep(ReadSample, "\n01\n", 1, 1, "\n", [], "\n");
    assert [1 as uint32] + [] == [1];
  }

  /** Bitmap samples need white space between them: a 2 x 1 bitmap written "01" fails with -3. */
  lemma BitsRunTogether()
    ensures LoadPixels(P1, 2, 1, 0, "\n01\n") == Failed(-3)
  {
    BitsAsOneSample();
    MissingSampleFails(P1, 2, 1, 0, "\n01\n", 1, [1], "\n");
  }

  /**
   * Whatever the image, write_pnm refuses "../badPath.ppm" before opening
   * anything, and writes "goodPath.ppm" once it can be opened.
   */
  lemma WriteRejectsPath(img: Image)
    requires WellFormed(img)
    ensures WritePnm(img, "../badPath.ppm", true) == Rejected(-1)
    ensures WritePnm(img, "goodPath.ppm", true).Written?
  {
    assert "../badPath.ppm"[0] == '.' && "../badPath.ppm"[1] == '.';
  }

  /** Samples are printed as unsigned shorts: 70000 prints as 4464. */
  lemma RowExample()
    ensures RowText([7, 70000]) == "7 4464 "
  {
    RowTextSnoc([7], 70000);
    assert [7 as uint32] + [70000] == [7, 70000];
    RowOfSeven();
    Decimal4464();
  }

  lemma RowOfSeven()
    ensures RowText([7]) == "7 "
  {
    SmallDecimals();
    assert [7 as uint32][1..] == [];
  }

  lemma Decimal4464()
    ensures Decimal(70000 % U16) == "4464"
  {
    assert 70000 % U16 == 4464;
  }
}
