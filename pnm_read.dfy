/**
 * How the tool reads a plain Netpbm file, stated as functions of the text
 * still to be read.
 *
 * Before every datum the reader skips to the next printing character that is
 * not in a comment, counting the line breaks it passes; a comment runs from
 * '#' to the next '\n' or '\r'. The magic number is read with scanf's
 * %2[^#], the width and height with one "%u %u", the maximum value (P2 and P3
 * only) and every sample with %u.
 */
module PnmRead {
  import opened Wrappers
  import opened Bits
  import opened Utils
  import opened CFormat
  import opened PnmImage

  /** Number of line breaks ('\n' or '\r') in s. */
  function Newlines(s: string): nat
  {
    if s == [] then 0 else (if IsNewline(s[0]) then 1 else 0) + Newlines(s[1..])
  }

  /**
   * A byte from 0x80 up is read into a signed char and compares below zero,
   * so the skipper takes it for the end of the file.
   */
  predicate EndsInput(c: char)
  {
    c as int >= 0x80
  }

  /** Where a skip stops, and how many line breaks it passed. */
  datatype Skipped = Skipped(rest: string, newlines: nat)

  /** The stop point of a skip: a printing character other than '#'. */
  predicate AtData(s: string)
  {
    s != [] && IsGraph(s[0]) && s[0] != '#'
  }

  /** The skip r, taken from s, stops at data no further than the end of s. */
  predicate SkipsOver(s: string, r: Skipped)
  {
    |r.rest| <= |s| && AtData(r.rest)
  }

  /** A skip that has already passed s[0]. */
  function Passing(s: string, r: Option<Skipped>): (r': Option<Skipped>)
    requires s != [] && (r.Some? ==> SkipsOver(s[1..], r.value))
    ensures r'.Some? ==> SkipsOver(s, r'.value)
  {
    match r
    case None => None
    case Some(sk) => Some(Skipped(sk.rest, sk.newlines + if IsNewline(s[0]) then 1 else 0))
  }

  /**
   * go_to_next_data: skip characters up to the next printing one; a '#'
   * starts a comment, after which skipping starts over. None when the input
   * ends first.
   */
  function SkipData(s: string): (r: Option<Skipped>)
    ensures r.Some? ==> SkipsOver(s, r.value)
    decreases |s|
  {
    if s == [] || EndsInput(s[0]) then None
    else if IsGraph(s[0]) && s[0] != '#' then Some(Skipped(s, 0))
    else if s[0] == '#' then Passing(s, SkipComment(s[1..]))
    else Passing(s, SkipData(s[1..]))
  }

  /** The inside of a comment: everything up to and including the next line break. */
  function SkipComment(s: string): (r: Option<Skipped>)
    ensures r.Some? ==> SkipsOver(s, r.value)
    decreases |s|
  {
    if s == [] || EndsInput(s[0]) then None
    else if IsNewline(s[0]) then Passing(s, SkipData(s[1..]))
    else Passing(s, SkipComment(s[1..]))
  }

  /** The characters a skip passed over. */
  function Consumed(s: string, r: Skipped): string
    requires SkipsOver(s, r)
  {
    s[..|s| - |r.rest|]
  }

  /** A skip stops inside the text it skips: what it passed, then where it stopped. */
  lemma {:induction false} SkipDataSuffix(s: string)
    requires SkipData(s).Some?
    ensures s == Consumed(s, SkipData(s).value) + SkipData(s).value.rest
    decreases |s|, 1
  {
    if IsGraph(s[0]) && s[0] != '#' {
    } else if s[0] == '#' {
      SkipCommentSuffix(s[1..]);
    } else {
      SkipDataSuffix(s[1..]);
    }
  }

  lemma {:induction false} SkipCommentSuffix(s: string)
    requires SkipComment(s).Some?
    ensures s == Consumed(s, SkipComment(s).value) + SkipComment(s).value.rest
    decreases |s|, 0
  {
    if IsNewline(s[0]) {
      SkipDataSuffix(s[1..]);
    } else {
      SkipCommentSuffix(s[1..]);
    }
  }

  /** Passing s[0] adds one line for a line break and nothing otherwise. */
  lemma PassingNewlines(s: string, r: Skipped)
    requires s != [] && SkipsOver(s[1..], r) && r.newlines == Newlines(Consumed(s[1..], r))
    ensures Passing(s, Some(r)).value.newlines == Newlines(Consumed(s, Passing(s, Some(r)).value))
  {
    assert Consumed(s, Passing(s, Some(r)).value) == [s[0]] + Consumed(s[1..], r);
  }

  /** The line counter rises by one for every '\n' or '\r' the skip passes, and only then. */
  lemma {:induction false} SkipDataNewlines(s: string)
    requires SkipData(s).Some?
    ensures SkipData(s).value.newlines == Newlines(Consumed(s, SkipData(s).value))
    decreases |s|, 1
  {
    if IsGraph(s[0]) && s[0] != '#' {
      assert Consumed(s, SkipData(s).value) == [];
    } else if s[0] == '#' {
      SkipCommentNewlines(s[1..]);
      PassingNewlines(s, SkipComment(s[1..]).value);
    } else {
      SkipDataNewlines(s[1..]);
      PassingNewlines(s, SkipData(s[1..]).value);
    }
  }

  lemma {:induction false} SkipCommentNewlines(s: string)
    requires SkipComment(s).Some?
    ensures SkipComment(s).value.newlines == Newlines(Consumed(s, SkipComment(s).value))
    decreases |s|, 0
  {
    if IsNewline(s[0]) {
      SkipDataNewlines(s[1..]);
      PassingNewlines(s, SkipData(s[1..]).value);
    } else {
      SkipCommentNewlines(s[1..]);
      PassingNewlines(s, SkipComment(s[1..]).value);
    }
  }

  /** A skip with k more line breaks counted. */
  function AddLines(r: Option<Skipped>, k: nat): (r': Option<Skipped>)
    ensures r'.Some? <==> r.Some?
    ensures r'.Some? ==> r'.value.rest == r.value.rest && r'.value.newlines == r.value.newlines + k
  {
    match r
    case None => None
    case Some(sk) => Some(Skipped(sk.rest, sk.newlines + k))
  }

  /** Characters the skipper passes over without stopping: ASCII, not printing. */
  predicate Blank(w: string)
  {
    forall i :: 0 <= i < |w| ==> w[i] as int < 0x80 && !IsGraph(w[i])
  }

  /** The skipper passes blanks, counting their line breaks, and stops at data. */
  lemma {:induction false} SkipBlanks(w: string, t: string, s: string)
    requires Blank(w) && AtData(t) && s == w + t
    ensures SkipData(s) == Some(Skipped(t, Newlines(w)))
    decreases |w|
  {
    if w == [] {
      assert s == t;
    } else {
      SkipBlanks(w[1..], t, s[1..]);
    }
  }

  /** Characters a comment may hold before its line break: neither a line break nor the end of input. */
  predicate InComment(c: string)
  {
    forall i :: 0 <= i < |c| ==> c[i] as int < 0x80 && !IsNewline(c[i])
  }

  /** Nothing but blanks up to the end of input: the skipper finds no data. */
  lemma {:induction false} SkipBlanksEnd(w: string)
    requires Blank(w)
    ensures SkipData(w) == None
    decreases |w|
  {
    if w != [] {
      SkipBlanksEnd(w[1..]);
    }
  }

  /** Inside a comment: through the line break, then skipping starts over, one line further. */
  lemma {:induction false} SkipCommentThrough(c: string, nl: char, t: string, s: string)
    requires InComment(c) && IsNewline(nl) && s == c + [nl] + t
    ensures SkipComment(s) == AddLines(SkipData(t), 1)
    decreases |c|
  {
    if c == [] {
      assert s[1..] == t;
    } else {
      assert s[1..] == c[1..] + [nl] + t;
      SkipCommentThrough(c[1..], nl, t, s[1..]);
    }
  }

  /**
   * A comment line after blanks is passed over like a line break: skipping
   * resumes after it, with the lines of the blanks and one more counted.
   */
  lemma {:induction false} SkipCommentLine(w: string, c: string, nl: char, t: string, s: string)
    requires Blank(w) && InComment(c) && IsNewline(nl) && s == w + "#" + c + [nl] + t
    ensures SkipData(s) == AddLines(SkipData(t), Newlines(w) + 1)
    decreases |w|
  {
    if w == [] {
      assert s[0] == '#' && s[1..] == c + [nl] + t;
      SkipCommentThrough(c, nl, t, s[1..]);
      assert SkipData(s) == Passing(s, SkipComment(s[1..]));
    } else {
      assert s[0] == w[0] && s[1..] == w[1..] + "#" + c + [nl] + t;
      SkipCommentLine(w[1..], c, nl, t, s[1..]);
      assert SkipData(s) == Passing(s, SkipData(s[1..]));
      assert Newlines(w) == (if IsNewline(w[0]) then 1 else 0) + Newlines(w[1..]);
    }
  }

  /** A comment the input ends in: the skipper finds no data. */
  lemma {:induction false} SkipCommentUnended(w: string, c: string, s: string)
    requires Blank(w) && InComment(c) && s == w + "#" + c
    ensures SkipData(s) == None
    decreases |w|
  {
    if w == [] {
      assert s[1..] == c;
      CommentUnended(c);
    } else {
      assert s[1..] == w[1..] + "#" + c;
      SkipCommentUnended(w[1..], c, s[1..]);
    }
  }

  lemma {:induction false} CommentUnended(c: string)
    requires InComment(c)
    ensures SkipComment(c) == None
    decreases |c|
  {
    if c != [] {
      CommentUnended(c[1..]);
    }
  }

  /** One datum: skip, then scanf %u. */
  function ReadSample(s: string): (r: Option<Scanned<uint32>>)
    ensures r.Some? ==> |r.value.rest| < |s|
  {
    match SkipData(s)
    case None => None
    case Some(sk) => ScanUnsigned(sk.rest)
  }

  /**
   * A comment line where a sample is expected changes nothing about the
   * sample read: comments may sit between any two samples, and so between rows.
   */
  lemma SampleAfterComment(w: string, c: string, nl: char, t: string, s: string)
    requires Blank(w) && InComment(c) && IsNewline(nl) && s == w + "#" + c + [nl] + t
    ensures ReadSample(s) == ReadSample(t)
  {
    SkipCommentLine(w, c, nl, t, s);
  }

  /**
   * n values in a row, each read with read from where the previous one
   * stopped. The lemmas below hold whatever read does.
   */
  function ReadMany(read: string -> Option<Scanned<uint32>>, s: string, n: nat): (r: Option<Scanned<seq<uint32>>>)
    ensures r.Some? ==> |r.value.value| == n
    decreases n
  {
    if n == 0 then Some(Scanned([], s))
    else
      match read(s)
      case None => None
      case Some(Scanned(v, rest)) =>
        match ReadMany(read, rest, n - 1)
        case None => None
        case Some(Scanned(vs, rest')) => Some(Scanned([v] + vs, rest'))
  }

  /** lines rows of rowLength values each, row after row. */
  function ReadManyRows(read: string -> Option<Scanned<uint32>>, s: string, lines: nat, rowLength: nat): (r: Option<Scanned<seq<uint32>>>)
    ensures r.Some? ==> |r.value.value| == Cells(lines, rowLength)
    decreases lines
  {
    if lines == 0 then Some(Scanned([], s))
    else
      match ReadMany(read, s, rowLength)
      case None => None
      case Some(Scanned(row, rest)) =>
        match ReadManyRows(read, rest, lines - 1, rowLength)
        case None => None
        case Some(Scanned(rows, rest')) =>
          Some(Scanned(row + rows, rest'))
  }

  /** n samples in a row, each read with ReadSample. */
  function ReadRow(s: string, n: nat): Option<Scanned<seq<uint32>>>
  {
    ReadMany(ReadSample, s, n)
  }

  /** store_pixels: lines rows of rowLength samples, row after row. */
  function ReadRows(s: string, lines: nat, rowLength: nat): Option<Scanned<seq<uint32>>>
  {
    ReadManyRows(ReadSample, s, lines, rowLength)
  }

  /** A value read before the rest of its row joins it. */
  lemma ReadManyStep(read: string -> Option<Scanned<uint32>>, s: string, n: nat, v: uint32, rest: string, vs: seq<uint32>, rest': string)
    requires n > 0 && read(s) == Some(Scanned(v, rest))
    requires ReadMany(read, rest, n - 1) == Some(Scanned(vs, rest'))
    ensures ReadMany(read, s, n) == Some(Scanned([v] + vs, rest'))
  {
  }

  /** A row read before the other rows joins them. */
  lemma ReadManyRowsStep(read: string -> Option<Scanned<uint32>>, s: string, lines: nat, n: nat,
                         row: seq<uint32>, rest: string, rows: seq<uint32>, rest': string)
    requires lines > 0 && ReadMany(read, s, n) == Some(Scanned(row, rest))
    requires ReadManyRows(read, rest, lines - 1, n) == Some(Scanned(rows, rest'))
    ensures ReadManyRows(read, s, lines, n) == Some(Scanned(row + rows, rest'))
  {
  }

  /** Reading one more value after a row of k extends it. */
  lemma {:induction false} ReadManySnoc(read: string -> Option<Scanned<uint32>>, s: string, k: nat, v: seq<uint32>, r: string, x: uint32, r': string)
    requires ReadMany(read, s, k) == Some(Scanned(v, r)) && read(r) == Some(Scanned(x, r'))
    ensures ReadMany(read, s, k + 1) == Some(Scanned(v + [x], r'))
    decreases k
  {
    if k == 0 {
      assert v == [] && r == s;
      assert ReadMany(read, r', 0) == Some(Scanned([], r'));
      assert [x] + [] == v + [x];
    } else {
      var Scanned(y, r1) := read(s).value;
      var vs := ReadMany(read, r1, k - 1).value.value;
      ReadManySnoc(read, r1, k - 1, vs, r, x, r');
      assert [y] + (vs + [x]) == [y] + vs + [x];
    }
  }

  /** Once a value cannot be read, no longer row can be. */
  lemma {:induction false} ReadManyStops(read: string -> Option<Scanned<uint32>>, s: string, k: nat, v: seq<uint32>, r: string, m: nat)
    requires ReadMany(read, s, k) == Some(Scanned(v, r)) && read(r).None? && m > k
    ensures ReadMany(read, s, m).None?
    decreases k
  {
    if k > 0 {
      var Scanned(y, r1) := read(s).value;
      ReadManyStops(read, r1, k - 1, ReadMany(read, r1, k - 1).value.value, r, m - 1);
    }
  }

  /** a + b values are a values, then b more from where they stopped. */
  lemma {:induction false} ReadManyAppend(read: string -> Option<Scanned<uint32>>, s: string, a: nat, b: nat)
    ensures ReadMany(read, s, a + b) ==
      match ReadMany(read, s, a)
      case None => None
      case Some(Scanned(v, r)) =>
        match ReadMany(read, r, b)
        case None => None
        case Some(Scanned(w, r')) => Some(Scanned(v + w, r'))
    decreases a
  {
    if a == 0 {
      match ReadMany(read, s, b)
      case None =>
      case Some(Scanned(w, r')) => assert [] + w == w;
    } else {
      match read(s)
      case None =>
      case Some(Scanned(y, r1)) =>
        ReadManyAppend(read, r1, a - 1, b);
        assert a + b - 1 == (a - 1) + b;
        match ReadMany(read, r1, a - 1)
        case None =>
        case Some(Scanned(v, r)) =>
          match ReadMany(read, r, b)
          case None =>
          case Some(Scanned(w, r')) => assert [y] + (v + w) == [y] + v + w;
    }
  }

  /** Row after row is value after value: Cells(lines, rowLength) values in turn. */
  lemma {:induction false} ReadManyRowsFlat(read: string -> Option<Scanned<uint32>>, s: string, lines: nat, rowLength: nat)
    ensures ReadManyRows(read, s, lines, rowLength) == ReadMany(read, s, Cells(lines, rowLength))
    decreases lines
  {
    if lines > 0 {
      ReadManyAppend(read, s, rowLength, Cells(lines - 1, rowLength));
      if ReadMany(read, s, rowLength).Some? {
        ReadManyRowsFlat(read, ReadMany(read, s, rowLength).value.rest, lines - 1, rowLength);
      }
    }
  }

  /** store_pixels reads its rows as Cells(lines, rowLength) samples in turn. */
  lemma ReadRowsFlat(s: string, lines: nat, rowLength: nat)
    ensures ReadRows(s, lines, rowLength) == ReadRow(s, Cells(lines, rowLength))
  {
    ReadManyRowsFlat(ReadSample, s, lines, rowLength);
  }

  /**
   * Outcome of load_pnm: the image (code 0), an error code (-1 the file cannot
   * be opened, -2 a name or extension problem, -3 malformed content), or the
   * abort of the matrix allocation's assertion on an empty matrix.
   */
  datatype LoadResult = Loaded(image: Image) | Failed(code: int) | Aborted

  /** The magic numbers the reader knows; the comparison is on the whole string. */
  function MagicOf(m: string): (r: Option<Magic>)
    ensures r.Some? ==> MagicText(r.value) == m
    ensures r.None? ==> m != "P1" && m != "P2" && m != "P3"
  {
    if m == "P1" then Some(P1)
    else if m == "P2" then Some(P2)
    else if m == "P3" then Some(P3)
    else None
  }

  /** Loaded images are well formed, non-empty and of the magic number read. */
  predicate LoadedAs(r: LoadResult, magic: Magic)
  {
    && (r.Loaded? ==> WellFormed(r.image) && r.image.magic == magic)
    && (r.Loaded? ==> r.image.lines > 0 && RowLength(magic, r.image.columns) > 0)
    && (r.Loaded? && !HasMaxValue(magic) ==> r.image.maxValue == 0)
  }

  /**
   * The magic number is found on line 1 and is a known one, but not the one
   * the extension ext stands for.
   */
  predicate ExtensionMismatch(ext: string, text: string)
  {
    match SkipData(text)
    case None => false
    case Some(sk) =>
      sk.newlines == 0 &&
      match ScanMagic(sk.rest)
      case None => false
      case Some(Scanned(m, _)) => MagicOf(m).Some? && ext != ExtensionOf(MagicOf(m).value)
  }

  /** Steps 6 and 7: the samples, after the maximum value if the format has one. */
  function LoadPixels(magic: Magic, columns: uint32, lines: uint32, maxValue: uint32, s: string): (r: LoadResult)
    requires !HasMaxValue(magic) ==> maxValue == 0
    ensures LoadedAs(r, magic)
    ensures r.Failed? ==> r.code == -3
  {
    var n := RowLength(magic, columns);
    if lines == 0 || n == 0 then Aborted
    else
      match ReadRows(s, lines, n)
      case None => Failed(-3)
      case Some(Scanned(pixels, _)) =>
        Loaded(Image(magic, columns, lines, maxValue, pixels))
  }

  /** Steps 5 and 6: width and height, then the maximum value for P2 and P3 (0 for P1). */
  function LoadBody(magic: Magic, s: string): (r: LoadResult)
    ensures LoadedAs(r, magic)
    ensures r.Failed? ==> r.code == -3
  {
    match SkipData(s)
    case None => Failed(-3)
    case Some(sk) =>
      match ScanPair(sk.rest)
      case None => Failed(-3)
      case Some(Scanned((columns, lines), rest)) =>
        if HasMaxValue(magic) then
          match ReadSample(rest)
          case None => Failed(-3)
          case Some(Scanned(maxValue, rest')) => LoadPixels(magic, columns, lines, maxValue, rest')
        else LoadPixels(magic, columns, lines, 0, rest)
  }

  /** Steps 4 and 5: the magic number, on line 1, matching the extension. */
  function LoadText(ext: string, text: string): (r: LoadResult)
    ensures r.Loaded? ==> LoadedAs(r, r.image.magic) && ext == ExtensionOf(r.image.magic)
    ensures r.Failed? ==> r.code == -2 || r.code == -3
    ensures r == Failed(-2) <==> ExtensionMismatch(ext, text)
  {
    match SkipData(text)
    case None => Failed(-3)
    case Some(sk) =>
      if sk.newlines > 0 then Failed(-3)
      else
        match ScanMagic(sk.rest)
        case None => Failed(-3)
        case Some(Scanned(m, rest)) =>
          match MagicOf(m)
          case None => Failed(-3)
          case Some(magic) =>
            if ext != ExtensionOf(magic) then Failed(-2) else LoadBody(magic, rest)
  }

  /**
   * A magic number of two characters at the very start of the text: an
   * unknown one gives -3, a known one whose extension the name lacks -2, and
   * otherwise the reader goes on right after it.
   */
  lemma LoadTextMagic(ext: string, m: string, t: string, text: string)
    requires |m| == 2 && IsGraph(m[0]) && m[0] != '#' && m[1] != '#' && text == m + t
    ensures LoadText(ext, text) ==
      match MagicOf(m)
      case None => Failed(-3)
      case Some(magic) => if ext != ExtensionOf(magic) then Failed(-2) else LoadBody(magic, t)
  {
    assert SkipData(text) == Some(Skipped(text, 0));
    assert text[..2] == m && text[2..] == t;
  }

  /** A comment line before the magic number puts it on line 2: -3. */
  lemma LeadingCommentFails(ext: string, c: string, nl: char, t: string, text: string)
    requires InComment(c) && IsNewline(nl) && text == "#" + c + [nl] + t
    ensures LoadText(ext, text) == Failed(-3)
  {
    assert text[1..] == c + [nl] + t;
    SkipCommentThrough(c, nl, t, text[1..]);
    assert SkipData(text) == AddLines(SkipData(t), 1);
    OffFirstLine(ext, text);
  }

  /** Data that is not on line 1, or no data at all: -3. */
  lemma OffFirstLine(ext: string, text: string)
    requires SkipData(text).None? || SkipData(text).value.newlines > 0
    ensures LoadText(ext, text) == Failed(-3)
  {
  }

  /**
   * The width and height are read with one "%u %u", which white space may
   * separate but a comment may not: a '#' after the width fails the load.
   */
  lemma CommentInSizeFails(magic: Magic, w: string, columns: uint32, w': string, c: string, s: string)
    requires Blank(w) && AllSpaces(w') && s == w + Decimal(columns) + w' + "#" + c
    ensures LoadBody(magic, s) == Failed(-3)
  {
    var d := Decimal(columns);
    var t := w' + "#" + c;
    assert s == w + (d + t) && (d + t)[0] == d[0];
    SkipBlanks(w, d + t, s);
    assert t[|w'|] == '#';
    assert !IsDigit(t[0]) by {
      if w' != [] { assert t[0] == w'[0]; }
    }
    ScanNumber(columns, t, d + t);
    SpacesEndAt(t, 0, |w'|);
  }

  /**
   * Fewer samples than the matrix has cells: once a sample cannot be read,
   * store_pixels fails and so does the load.
   */
  lemma MissingSampleFails(magic: Magic, columns: uint32, lines: uint32, maxValue: uint32, s: string,
                           k: nat, v: seq<uint32>, r: string)
    requires !HasMaxValue(magic) ==> maxValue == 0
    requires lines > 0 && RowLength(magic, columns) > 0
    requires ReadRow(s, k) == Some(Scanned(v, r)) && ReadSample(r).None?
    requires k < Cells(lines, RowLength(magic, columns))
    ensures LoadPixels(magic, columns, lines, maxValue, s) == Failed(-3)
  {
    var n := RowLength(magic, columns);
    ReadRowsFlat(s, lines, n);
    ReadManyStops(ReadSample, s, k, v, r, Cells(lines, n));
  }

  /**
   * load_pnm on a file name and the file's content (None when the file cannot
   * be opened). A loaded image fits in unsigned ints, has a non-empty matrix of
   * the right size and comes from a file whose extension matches its magic.
   */
  function LoadPnm(name: string, content: Option<string>): (r: LoadResult)
    ensures r.Loaded? ==> WellFormed(r.image)
    ensures r.Loaded? ==> r.image.lines > 0 && RowLength(r.image.magic, r.image.columns) > 0
    ensures r.Loaded? ==> FileExtension(name) == Some(ExtensionOf(r.image.magic))
    ensures r.Loaded? && !HasMaxValue(r.image.magic) ==> r.image.maxValue == 0
    ensures r.Failed? ==> r.code == -1 || r.code == -2 || r.code == -3
    ensures FileExtension(name).None? ==> r == Failed(-2)
    ensures r == Failed(-2) <==>
      FileExtension(name).None? || (content.Some? && ExtensionMismatch(FileExtension(name).value, content.value))
  {
    match FileExtension(name)
    case None => Failed(-2)
    case Some(ext) =>
      match content
      case None => Failed(-1)
      case Some(text) => LoadText(ext, text)
  }
}
