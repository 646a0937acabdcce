/**
 * The image object of the program and the operations on it: reading a file
 * (load_pnm with go_to_next_data and store_pixels), writing one (write_pnm)
 * and encrypting the samples in place (pnm_file_encryption). Each method is
 * proved against the functions of PnmRead, PnmWrite and PnmCrypt.
 *
 * A file being read is the text still unread: reading a character moves on
 * to the text after it, and ungetc puts the character back by keeping it.
 */
module PnmFile {
  import opened Wrappers
  import opened Bits
  import opened Utils
  import opened CFormat
  import opened LfsrEngine
  import opened PnmImage
  import opened PnmRead
  import opened PnmWrite
  import opened PnmCrypt

  /**
   * go_to_next_data: reads up to the first printing character, counting line
   * breaks; a '#' makes it read up to the end of the line and start over.
   * It leaves the input at that character, or fails at the end of the input.
   */
  method GoToNextData(input: string, line: nat) returns (ok: bool, rest: string, line': nat)
    ensures ok <==> SkipData(input).Some?
    ensures ok ==> rest == SkipData(input).value.rest
    ensures ok ==> line' == line + SkipData(input).value.newlines
    decreases |input|
  {
    var c, after;
    ok, c, after, line' := ReadToGraph(input, line);
    if !ok {
      return false, [], line';
    }
    if c == '#' {
      assert ([c] + after)[1..] == after;
      var afterComment, lineAfter;
      ok, afterComment, lineAfter := ReadThroughNewline(after, line');
      if !ok {
        return false, [], lineAfter;
      }
      ok, rest, line' := GoToNextData(afterComment, lineAfter);
    } else {
      rest := [c] + after;
    }
  }

  /**
   * The first loop of go_to_next_data: reads characters up to a printing
   * one, counting line breaks. On success c is that character and after the
   * input behind it; skipping from c on is what is left of skipping input.
   */
  method ReadToGraph(input: string, line: nat) returns (ok: bool, c: char, after: string, line': nat)
    ensures line' >= line
    ensures !ok ==> SkipData(input) == None
    ensures ok ==> IsGraph(c) && |after| < |input|
    ensures ok ==> SkipData(input) == AddLines(SkipData([c] + after), line' - line)
  {
    var i := 0;
    line' := line;
    var found := false;
    c := ' ';
    while !found
      invariant 0 <= i <= |input| && line' >= line
      invariant found ==> 0 < i && c == input[i - 1] && IsGraph(c)
      invariant SkipData(input) == AddLines(SkipData(input[(if found then i - 1 else i)..]), line' - line)
      decreases |input| - i
    {
      if i == |input| || EndsInput(input[i]) {
        return false, c, [], line';
      }
      assert input[i..][1..] == input[i + 1..];
      c := input[i];
      i := i + 1;
      if IsNewline(c) {
        line' := line' + 1;
      }
      if IsGraph(c) {
        found := true;
      }
    }
    after := input[i..];
    assert input[i - 1..] == [c] + after;
    ok := true;
  }

  /**
   * The comment loop of go_to_next_data: reads characters through the next
   * line break, which it counts.
   */
  method ReadThroughNewline(input: string, line: nat) returns (ok: bool, after: string, line': nat)
    ensures !ok ==> SkipComment(input) == None
    ensures ok ==> |after| < |input| && line' >= line
    ensures ok ==> SkipComment(input) == AddLines(SkipData(after), line' - line)
  {
    var i := 0;
    line' := line;
    var newline := false;
    while !newline
      invariant 0 <= i <= |input| && line' >= line
      invariant newline ==> i > 0
      invariant SkipComment(input) == AddLines(if newline then SkipData(input[i..]) else SkipComment(input[i..]), line' - line)
      decreases |input| - i
    {
      if i == |input| || EndsInput(input[i]) {
        return false, [], line';
      }
      assert input[i..][1..] == input[i + 1..];
      var c := input[i];
      i := i + 1;
      if IsNewline(c) {
        line' := line' + 1;
        newline := true;
      }
    }
    ok, after := true, input[i..];
  }

  /** One turn of store_pixels' inner loop: go_to_next_data, then fscanf %u. */
  method ReadNextSample(input: string, line: nat) returns (ok: bool, sample: uint32, rest: string, line': nat)
    ensures ok <==> ReadSample(input).Some?
    ensures ok ==> ReadSample(input) == Some(Scanned(sample, rest))
  {
    var found, next;
    found, next, line' := GoToNextData(input, line);
    if !found {
      return false, 0, input, line';
    }
    var scanned := ScanUnsigned(next);
    if scanned.None? {
      return false, 0, input, line';
    }
    ok, sample, rest := true, scanned.value.value, scanned.value.rest;
  }

  /**
   * store_pixels once the matrix exists: lines rows of rowLength samples,
   * each found with go_to_next_data and read with %u. The matrix is kept flat,
   * row after row; create_matrix's assertion is the precondition.
   */
  method StorePixels(input: string, lines: uint32, rowLength: nat, line: nat)
    returns (ok: bool, pixels: array<uint32>, rest: string, line': nat)
    requires lines > 0 && rowLength > 0
    ensures fresh(pixels) && pixels.Length == Cells(lines, rowLength)
    ensures ok <==> ReadRows(input, lines, rowLength).Some?
    ensures ok ==> pixels[..] == ReadRows(input, lines, rowLength).value.value
    ensures ok ==> rest == ReadRows(input, lines, rowLength).value.rest
  {
    pixels := CreateMatrix(lines, rowLength);
    ok, rest, line' := StoreRows(input, pixels, lines, rowLength, line);
    ReadRowsFlat(input, lines, rowLength);
  }

  /** The outer loop of store_pixels: row after row, pixels holds the samples read in turn. */
  method StoreRows(input: string, pixels: array<uint32>, lines: nat, rowLength: nat, line: nat)
    returns (ok: bool, rest: string, line': nat)
    requires pixels.Length == Cells(lines, rowLength)
    modifies pixels
    ensures ok <==> ReadRow(input, pixels.Length).Some?
    ensures ok ==> ReadRow(input, pixels.Length) == Some(Scanned(pixels[..], rest))
  {
    rest, line' := input, line;
    var k := 0;
    var i := 0;
    while i < lines
      invariant 0 <= i <= lines && k == Cells(i, rowLength) && k <= pixels.Length
      invariant ReadRow(input, k) == Some(Scanned(pixels[..k], rest))
    {
      CellsMono(i + 1, lines, rowLength);
      ok, rest, line' := StoreRow(input, pixels, k, rowLength, rest, line');
      if !ok {
        return false, rest, line';
      }
      ghost var stored := pixels[..k + rowLength];
      assert ReadRow(input, k + rowLength) == Some(Scanned(stored, rest));
      k := k + rowLength;
      i := i + 1;
    }
    assert k == pixels.Length;
    assert pixels[..k] == pixels[..];
    ok := true;
  }

  /** create_matrix: lines rows of rowLength samples, kept flat. */
  method CreateMatrix(lines: nat, rowLength: nat) returns (pixels: array<uint32>)
    ensures fresh(pixels) && pixels.Length == Cells(lines, rowLength)
  {
    CellsProduct(lines, rowLength);
    pixels := new uint32[lines * rowLength];
  }

  /**
   * The inner loop of store_pixels: n more samples into pixels[start..], read
   * on from where the first start samples of the input stopped. On a failure
   * no read of the whole matrix can succeed.
   */
  method StoreRow(input: string, pixels: array<uint32>, start: nat, n: nat, rest: string, line: nat)
    returns (ok: bool, rest': string, line': nat)
    requires start + n <= pixels.Length
    requires ReadRow(input, start) == Some(Scanned(pixels[..start], rest))
    modifies pixels
    ensures ok ==> ReadRow(input, start + n) == Some(Scanned(pixels[..start + n], rest'))
    ensures !ok ==> ReadRow(input, pixels.Length).None?
  {
    rest', line' := rest, line;
    var k := start;
    while k < start + n
      invariant start <= k <= start + n
      invariant ReadRow(input, k) == Some(Scanned(pixels[..k], rest'))
    {
      var found, sample, next;
      found, sample, next, line' := ReadNextSample(rest', line');
      if !found {
        ReadManyStops(ReadSample, input, k, pixels[..k], rest', pixels.Length);
        return false, rest', line';
      }
      ghost var before := pixels[..];
      pixels[k] := sample;
      StoreStep(input, k, before, rest', sample, next, pixels[..]);
      rest' := next;
      k := k + 1;
    }
    assert k == start + n;
    ok := true;
  }

  /** Storing sample k, read after the first k: the first k + 1 samples are stored. */
  lemma StoreStep(input: string, k: nat, before: seq<uint32>, rest: string, sample: uint32, next: string, after: seq<uint32>)
    requires k < |before| && ReadRow(input, k) == Some(Scanned(before[..k], rest))
    requires ReadSample(rest) == Some(Scanned(sample, next)) && after == before[k := sample]
    ensures ReadRow(input, k + 1) == Some(Scanned(after[..k + 1], next))
  {
    ReadManySnoc(ReadSample, input, k, before[..k], rest, sample, next);
    assert after[..k + 1] == before[..k] + [sample];
  }

  /** A loaded image: the struct PNM of the program. */
  class Pnm {
    const magic: Magic
    const columns: uint32
    const lines: uint32
    var maxValue: uint32
    const pixels: array<uint32>

    /** One sample per cell of the lines x RowLength matrix. */
    ghost predicate Valid()
      reads this
    {
      pixels.Length == Cells(lines, RowLength(magic, columns))
    }

    /** The image the object holds. */
    ghost function Value(): Image
      reads this, pixels
    {
      Image(magic, columns, lines, maxValue, pixels[..])
    }

    constructor (m: Magic, c: uint32, l: uint32, max: uint32, samples: array<uint32>)
      requires samples.Length == Cells(l, RowLength(m, c))
      ensures magic == m && columns == c && lines == l && maxValue == max && pixels == samples
      ensures Valid()
    {
      magic, columns, lines, maxValue, pixels := m, c, l, max, samples;
    }

    /**
     * load_pnm on a file name and the file's content (None when it cannot be
     * opened). aborted is the end of the program by create_matrix's assertion.
     */
    static method Load(name: string, content: Option<string>) returns (aborted: bool, code: int, image: Pnm?)
      ensures aborted <==> LoadPnm(name, content) == Aborted
      ensures LoadPnm(name, content).Failed? ==> code == LoadPnm(name, content).code && image == null
      ensures LoadPnm(name, content).Loaded? ==>
        && code == 0 && image != null && fresh(image) && fresh(image.pixels)
        && image.Valid() && image.Value() == LoadPnm(name, content).image
    {
      aborted, image := false, null;
      var ext := FileExtension(name);
      if ext.None? {
        return false, -2, null;
      }
      if content.None? {
        return false, -1, null;
      }
      aborted, code, image := LoadOpened(ext.value, content.value);
    }

    /** load_pnm once the file is open: the magic number on line 1, then the rest. */
    static method LoadOpened(ext: string, text: string) returns (aborted: bool, code: int, image: Pnm?)
      ensures aborted <==> LoadText(ext, text) == Aborted
      ensures LoadText(ext, text).Failed? ==> code == LoadText(ext, text).code && image == null
      ensures LoadText(ext, text).Loaded? ==>
        && code == 0 && image != null && fresh(image) && fresh(image.pixels)
        && image.Valid() && image.Value() == LoadText(ext, text).image
    {
      var ok, rest, line := GoToNextData(text, 1);
      if !ok || line > 1 {
        return false, -3, null;
      }
      var m := ScanMagic(rest);
      if m.None? {
        return false, -3, null;
      }
      var magic;
      code, magic := CheckMagic(m.value.value, ext);
      if code != 0 {
        return false, code, null;
      }
      code, aborted, image := LoadAfterMagic(magic, m.value.rest, line);
    }

    /**
     * The magic number against the known ones and the file name's extension:
     * -3 for an unknown one, -2 for a known one of another extension.
     */
    static method CheckMagic(m: string, ext: string) returns (code: int, magic: Magic)
      ensures MagicOf(m).None? ==> code == -3
      ensures MagicOf(m).Some? && ext != ExtensionOf(MagicOf(m).value) ==> code == -2
      ensures MagicOf(m).Some? && ext == ExtensionOf(MagicOf(m).value) ==> code == 0 && magic == MagicOf(m).value
    {
      magic := P1;
      if m == "P1" {
        if ext != "pbm" {
          return -2, magic;
        }
      } else if m == "P2" {
        if ext != "pgm" {
          return -2, magic;
        }
        magic := P2;
      } else if m == "P3" {
        if ext != "ppm" {
          return -2, magic;
        }
        magic := P3;
      } else {
        return -3, magic;
      }
      code := 0;
    }

    /** Steps 5 to 7 of load_pnm: width and height, maximum value, samples. */
    static method LoadAfterMagic(magic: Magic, input: string, line: nat) returns (code: int, aborted: bool, image: Pnm?)
      ensures aborted <==> LoadBody(magic, input) == Aborted
      ensures LoadBody(magic, input).Failed? ==> code == LoadBody(magic, input).code && image == null
      ensures LoadBody(magic, input).Loaded? ==>
        && code == 0 && image != null && fresh(image) && fresh(image.pixels)
        && image.Valid() && image.Value() == LoadBody(magic, input).image
    {
      var ok, rest, line' := GoToNextData(input, line);
      if !ok {
        return -3, false, null;
      }
      var size := ScanPair(rest);
      if size.None? {
        return -3, false, null;
      }
      var (columns, lines) := size.value.value;
      rest := size.value.rest;
      var maxValue: uint32 := 0;
      if HasMaxValue(magic) {
        var next;
        ok, next, line' := GoToNextData(rest, line');
        var max := if ok then ScanUnsigned(next) else None;
        if max.None? {
          return -3, false, null;
        }
        maxValue, rest := max.value.value, max.value.rest;
      }
      assert LoadBody(magic, input) == LoadPixels(magic, columns, lines, maxValue, rest);
      var n := RowLength(magic, columns);
      if lines == 0 || n == 0 {
        return 0, true, null;
      }
      var pixels;
      ok, pixels, rest, line' := StorePixels(rest, lines, n, line');
      if !ok {
        return -3, false, null;
      }
      image := new Pnm(magic, columns, lines, maxValue, pixels);
      code, aborted := 0, false;
    }

    /**
     * write_pnm: the name is checked, the file opened (writable says whether
     * fopen succeeds), then the header and the rows are printed.
     */
    method Write(name: string, writable: bool) returns (r: WriteResult)
      requires Valid()
      ensures r == WritePnm(Value(), name, writable)
    {
      var nameOk := CheckFileName(name);
      if !nameOk {
        return Rejected(-1);
      }
      if !writable {
        return Rejected(-2);
      }
      var header := PrintHeader();
      var rows := PrintRows();
      return Written(header + rows);
    }

    /** The header lines write_pnm prints. */
    method PrintHeader() returns (out: string)
      ensures out == HeaderText(Value())
    {
      out := MagicText(magic) + "\n";
      out := out + Decimal(columns) + " " + Decimal(lines) + "\n";
      if HasMaxValue(magic) {
        out := out + PrintSigned32(maxValue) + "\n";
      }
    }

    /** The loops of write_pnm: every row, then a line break. */
    method PrintRows() returns (out: string)
      requires Valid()
      ensures out == RowsText(pixels[..], lines, RowLength(magic, columns))
    {
      out := "";
      var n := RowLength(magic, columns);
      var k := 0;
      var i := 0;
      while i < lines
        invariant 0 <= i <= lines && k == Cells(i, n) && k <= pixels.Length
        invariant out == RowsText(pixels[..k], i, n)
      {
        CellsMono(i + 1, lines, n);
        var row := PrintRow(k, n);
        RowsTextPrefix(pixels[..], i, n, k);
        assert pixels[..][..k] == pixels[..k] && pixels[..][..k + n] == pixels[..k + n];
        assert pixels[..][k..k + n] == pixels[k..k + n];
        out := out + row + "\n";
        k := k + n;
        i := i + 1;
      }
      assert pixels[..k] == pixels[..];
    }

    /** The inner loop of write_pnm: n samples from pixels[start], each as "%hu ". */
    method PrintRow(start: nat, n: nat) returns (text: string)
      requires start + n <= pixels.Length
      ensures text == RowText(pixels[start..start + n])
    {
      text := "";
      var k := start;
      while k < start + n
        invariant start <= k <= start + n
        invariant text == RowText(pixels[start..k])
      {
        RowTextSnoc(pixels[start..k], pixels[k]);
        assert pixels[start..k + 1] == pixels[start..k] + [pixels[k]];
        text := text + Decimal(pixels[k] % U16) + " ";
        k := k + 1;
      }
    }

    /**
     * pnm_file_encryption: each sample, row after row, is xor-ed with
     * generation(lfsr, 32); for P2 and P3 the maximum value becomes the
     * largest low 16 bits of an encrypted sample.
     */
    method Encrypt(lfsr: Lfsr)
      requires Valid() && lfsr.Valid()
      modifies this, pixels, lfsr.reg
      ensures Valid() && lfsr.Valid()
      ensures Value() == EncryptImage(old(Value()), old(lfsr.reg[..]), lfsr.tap)
      ensures lfsr.reg[..] == Run(old(lfsr.reg[..]), lfsr.tap, 32 * pixels.Length)
    {
      ghost var img0, r0 := Value(), lfsr.reg[..];
      var max := EncryptSamples(lfsr);
      if HasMaxValue(magic) {
        maxValue := max;
      }
      EncryptImageOf(img0, r0, lfsr.tap, pixels[..], max);
    }

    /** The loops of pnm_file_encryption; max is the largest low 16 bits of an encrypted sample. */
    method EncryptSamples(lfsr: Lfsr) returns (max: nat)
      requires Valid() && lfsr.Valid()
      modifies pixels, lfsr.reg
      ensures lfsr.Valid()
      ensures pixels[..] == EncryptPixels(old(pixels[..]), old(lfsr.reg[..]), lfsr.tap)
      ensures max == MaxLow16(pixels[..])
      ensures lfsr.reg[..] == AfterKeys(old(lfsr.reg[..]), lfsr.tap, pixels.Length)
    {
      ghost var r0 := lfsr.reg[..];
      ghost var p0 := pixels[..];
      ghost var e := EncryptPixels(p0, r0, lfsr.tap);
      var n := RowLength(magic, columns);
      max := 0;
      var k := 0;
      var i := 0;
      while i < lines
        invariant 0 <= i <= lines && k == Cells(i, n) && k <= pixels.Length
        invariant lfsr.Valid() && lfsr.reg[..] == AfterKeys(r0, lfsr.tap, k)
        invariant pixels[..k] == e[..k] && pixels[k..] == p0[k..]
        invariant max == MaxLow16(e[..k])
      {
        CellsMono(i + 1, lines, n);
        max := EncryptRow(lfsr, k, n, max, r0, p0);
        k := k + n;
        i := i + 1;
      }
      assert pixels[..] == pixels[..k] == e[..k] == e;
    }

    /** The inner loop: the n samples from pixels[start] on. */
    method EncryptRow(lfsr: Lfsr, start: nat, n: nat, max: nat, ghost r0: seq<nat>, ghost p0: seq<uint32>)
      returns (max': nat)
      requires lfsr.Valid() && IsRegister(r0, lfsr.tap) && start + n <= pixels.Length == |p0|
      requires lfsr.reg[..] == AfterKeys(r0, lfsr.tap, start)
      requires pixels[..start] == EncryptPixels(p0, r0, lfsr.tap)[..start] && pixels[start..] == p0[start..]
      requires max == MaxLow16(EncryptPixels(p0, r0, lfsr.tap)[..start])
      modifies pixels, lfsr.reg
      ensures lfsr.Valid() && lfsr.reg[..] == AfterKeys(r0, lfsr.tap, start + n)
      ensures pixels[..start + n] == EncryptPixels(p0, r0, lfsr.tap)[..start + n]
      ensures pixels[start + n..] == p0[start + n..]
      ensures max' == MaxLow16(EncryptPixels(p0, r0, lfsr.tap)[..start + n])
    {
      ghost var e := EncryptPixels(p0, r0, lfsr.tap);
      max' := max;
      var k := start;
      while k < start + n
        invariant start <= k <= start + n
        invariant lfsr.reg[..] == AfterKeys(r0, lfsr.tap, k)
        invariant pixels[..k] == e[..k] && pixels[k..] == p0[k..]
        invariant max' == MaxLow16(e[..k])
      {
        EncryptCell(lfsr, k, r0, p0);
        MaxStep(e, pixels[..], k, max');
        if pixels[k] % U16 > max' {
          max' := pixels[k] % U16;
        }
        k := k + 1;
      }
      assert k == start + n;
    }

    /** One turn of the inner loop: sample k xor-ed with generation(lfsr, 32). */
    method EncryptCell(lfsr: Lfsr, k: nat, ghost r0: seq<nat>, ghost p0: seq<uint32>)
      requires lfsr.Valid() && IsRegister(r0, lfsr.tap) && k < pixels.Length == |p0|
      requires lfsr.reg[..] == AfterKeys(r0, lfsr.tap, k)
      requires pixels[..k] == EncryptPixels(p0, r0, lfsr.tap)[..k] && pixels[k..] == p0[k..]
      modifies pixels, lfsr.reg
      ensures lfsr.Valid() && lfsr.reg[..] == AfterKeys(r0, lfsr.tap, k + 1)
      ensures pixels[..k + 1] == EncryptPixels(p0, r0, lfsr.tap)[..k + 1] && pixels[k + 1..] == p0[k + 1..]
    {
      ghost var before, reg := pixels[..], lfsr.reg[..];
      var key := lfsr.Generation(32);
      pixels[k] := Xor32(pixels[k], key);
      EncryptCellStep(p0, r0, lfsr.tap, k, before, pixels[..], reg, lfsr.reg[..]);
    }
  }

  /** The running maximum after sample k, once sample k holds its encrypted value. */
  lemma MaxStep(e: seq<uint32>, pixels: seq<uint32>, k: nat, max: nat)
    requires k < |e| && k < |pixels| && pixels[..k + 1] == e[..k + 1] && max == MaxLow16(e[..k])
    ensures (if pixels[k] % U16 > max then pixels[k] % U16 else max) == MaxLow16(e[..k + 1])
  {
    assert pixels[k] == pixels[..k + 1][k] == e[k];
    MaxLow16Prefix(e, k);
  }

  /**
   * What the program does to decrypt: encrypt again with an LFSR made from
   * the same seed and tap. The samples come back.
   */
  method EncryptTwice(image: Pnm, seed: string, tap: int) returns (ok: bool)
    requires image.Valid()
    modifies image, image.pixels
    ensures ok <==> ValidSeed(seed, tap)
    ensures image.Valid() && image.pixels[..] == old(image.pixels[..])
  {
    var first := Lfsr.Create(seed, tap);
    if first == null {
      return false;
    }
    image.Encrypt(first);
    var second := Lfsr.Create(seed, tap);
    image.Encrypt(second);
    EncryptPixelsTwice(old(image.pixels[..]), SeedBits(seed), tap);
    return true;
  }
}
