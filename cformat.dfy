/**
 * The pieces of the C library the image reader and writer rely on, for the
 * "C" locale and ASCII text: the character classes isgraph and isspace, the
 * printf conversions %u and %d, and the scanf conversions %u and %2[^#].
 * Each scanf conversion is a function of the remaining input that returns
 * the value read and the input left after it.
 */
module CFormat {
  import opened Wrappers
  import opened Bits

  /** isgraph: a printing character other than the space. */
  predicate IsGraph(c: char)
  {
    '!' <= c <= '~'
  }

  /** isspace: space, tab, newline, vertical tab, form feed, carriage return. */
  predicate IsSpace(c: char)
  {
    c == ' ' || '\t' <= c <= '\r'
  }

  /** The characters that count as a line break when skipping. */
  predicate IsNewline(c: char)
  {
    c == '\n' || c == '\r'
  }

  predicate IsDigit(c: char)
  {
    '0' <= c <= '9'
  }

  predicate AllSpaces(w: string)
  {
    forall i :: 0 <= i < |w| ==> IsSpace(w[i])
  }

  predicate AllDigits(d: string)
  {
    forall i :: 0 <= i < |d| ==> IsDigit(d[i])
  }

  function DigitChar(d: nat): char
    requires d < 10
  {
    ('0' as int + d) as char
  }

  /** Value of a run of decimal digits, most significant first. */
  function DigitsValue(d: string): int
  {
    if d == [] then 0 else 10 * DigitsValue(d[..|d| - 1]) + (d[|d| - 1] as int - '0' as int)
  }

  /** printf %u: the decimal digits of n, without leading zeros. */
  function Decimal(n: nat): (d: string)
    ensures |d| >= 1 && AllDigits(d)
    ensures DigitsValue(d) == n
  {
    if n < 10 then [DigitChar(n)]
    else
      var d := Decimal(n / 10) + [DigitChar(n % 10)];
      assert d[..|d| - 1] == Decimal(n / 10);
      d
  }

  const I32: nat := 0x8000_0000

  /** printf %d applied to an unsigned int: values from 2^31 up print as negative numbers. */
  function PrintSigned32(v: nat): (s: string)
    requires v < U32
    ensures v < I32 ==> |s| >= 1 && AllDigits(s) && DigitsValue(s) == v
    ensures v >= I32 ==> |s| >= 2 && s[0] == '-' && AllDigits(s[1..]) && DigitsValue(s[1..]) == U32 - v
  {
    if v < I32 then Decimal(v)
    else
      var s := "-" + Decimal(U32 - v);
      assert s[1..] == Decimal(U32 - v);
      s
  }

  /** The end of the run of isspace characters that starts at s[i]. */
  function SpacesEnd(s: string, i: nat): (j: nat)
    requires i <= |s|
    ensures i <= j <= |s|
    ensures j == |s| || !IsSpace(s[j])
    decreases |s| - i
  {
    if i == |s| || !IsSpace(s[i]) then i else SpacesEnd(s, i + 1)
  }

  /** The end of the run of digits that starts at s[i]. */
  function DigitsEnd(s: string, i: nat): (j: nat)
    requires i <= |s|
    ensures i <= j <= |s|
    ensures j == |s| || !IsDigit(s[j])
    decreases |s| - i
  {
    if i == |s| || !IsDigit(s[i]) then i else DigitsEnd(s, i + 1)
  }

  /** A value read by scanf together with the input left after it. */
  datatype Scanned<+T> = Scanned(value: T, rest: string)

  /**
   * scanf %u: skip white space, then read the longest run of digits, at least
   * one, as a 32-bit unsigned int.
   */
  function ScanUnsigned(s: string): (r: Option<Scanned<uint32>>)
    ensures r.Some? ==> |r.value.rest| < |s|
    ensures r.None? <==> SpacesEnd(s, 0) == |s| || !IsDigit(s[SpacesEnd(s, 0)])
  {
    var i := SpacesEnd(s, 0);
    var j := DigitsEnd(s, i);
    if j == i then None else Some(Scanned(Wrap32(DigitsValue(s[i..j])), s[j..]))
  }

  /**
   * scanf "%u %u": two unsigned ints. The space directive between them skips
   * white space, which the second %u would skip anyway.
   */
  function ScanPair(s: string): (r: Option<Scanned<(uint32, uint32)>>)
    ensures r.Some? ==> |r.value.rest| < |s|
  {
    match ScanUnsigned(s)
    case None => None
    case Some(Scanned(a, rest)) =>
      match ScanUnsigned(rest)
      case None => None
      case Some(Scanned(b, rest')) => Some(Scanned((a, b), rest'))
  }

  /** scanf %2[^#]: one or two characters other than '#', as many as there are. */
  function ScanMagic(s: string): (r: Option<Scanned<string>>)
    ensures r.Some? ==> 1 <= |r.value.value| <= 2 && s == r.value.value + r.value.rest
    ensures r.Some? ==> '#' !in r.value.value
    ensures r.Some? ==> |r.value.value| == 2 || r.value.rest == [] || r.value.rest[0] == '#'
    ensures r.None? <==> s == [] || s[0] == '#'
  {
    var k := if s == [] || s[0] == '#' then 0 else if |s| == 1 || s[1] == '#' then 1 else 2;
    if k == 0 then None
    else
      assert s == s[..k] + s[k..];
      Some(Scanned(s[..k], s[k..]))
  }

  /** A run of white space from s[i] to s[j] ends where the first other character is. */
  lemma {:induction false} SpacesEndAt(s: string, i: nat, j: nat)
    requires i <= j <= |s| && (forall p :: i <= p < j ==> IsSpace(s[p]))
    requires j == |s| || !IsSpace(s[j])
    ensures SpacesEnd(s, i) == j
    decreases j - i
  {
    if i < j {
      SpacesEndAt(s, i + 1, j);
    }
  }

  /** A run of digits from s[i] to s[j] ends where the first non-digit is. */
  lemma {:induction false} DigitsEndAt(s: string, i: nat, j: nat)
    requires i <= j <= |s| && (forall p :: i <= p < j ==> IsDigit(s[p]))
    requires j == |s| || !IsDigit(s[j])
    ensures DigitsEnd(s, i) == j
    decreases j - i
  {
    if i < j {
      DigitsEndAt(s, i + 1, j);
    }
  }

  /** d is a run of decimal digits, at least one, whose value is n. */
  predicate Numeral(d: string, n: nat)
  {
    |d| >= 1 && AllDigits(d) && DigitsValue(d) == n
  }

  /** printf %u writes a numeral of its argument. */
  lemma DecimalNumeral(n: nat)
    ensures Numeral(Decimal(n), n)
  {
  }

  /** scanf %u reads a numeral below 2^32, after any white space, up to a non-digit. */
  lemma ScanDigits(w: string, d: string, n: uint32, t: string, s: string)
    requires AllSpaces(w) && Numeral(d, n) && (t == [] || !IsDigit(t[0])) && s == w + d + t
    ensures ScanUnsigned(s) == Some(Scanned(n, t))
  {
    assert s == w + (d + t) && (d + t)[0] == d[0];
    SpacesBefore(w, d + t, s);
    DigitsBefore(w, d, t, s);
    ModSmall(n, U32);
  }

  /** scanf %u reads back what printf %u wrote, after any white space, up to a non-digit. */
  lemma ScanDecimal(w: string, n: uint32, t: string, s: string)
    requires AllSpaces(w) && (t == [] || !IsDigit(t[0])) && s == w + Decimal(n) + t
    ensures ScanUnsigned(s) == Some(Scanned(n, t))
  {
    DecimalNumeral(n);
    ScanDigits(w, Decimal(n), n, t, s);
  }

  /** White space in front of something else: the run ends where the other text starts. */
  lemma SpacesBefore(w: string, rest: string, s: string)
    requires AllSpaces(w) && rest != [] && !IsSpace(rest[0]) && s == w + rest
    ensures SpacesEnd(s, 0) == |w|
  {
    forall p | 0 <= p < |w|
      ensures IsSpace(s[p])
    {
      assert s[p] == w[p];
    }
    assert s[|w|] == rest[0];
    SpacesEndAt(s, 0, |w|);
  }

  /** Digits after the text v and before a non-digit: the run is exactly those digits. */
  lemma DigitsBefore(v: string, d: string, t: string, s: string)
    requires AllDigits(d) && (t == [] || !IsDigit(t[0])) && s == v + d + t
    ensures DigitsEnd(s, |v|) == |v| + |d|
    ensures s[|v|..|v| + |d|] == d && s[|v| + |d|..] == t
  {
    var i, j := |v|, |v| + |d|;
    forall p | i <= p < j
      ensures IsDigit(s[p])
    {
      assert s[p] == d[p - i];
    }
    if t != [] {
      assert s[j] == t[0];
    }
    DigitsEndAt(s, i, j);
  }

  /** The same with no white space in front. */
  lemma ScanNumber(n: uint32, t: string, s: string)
    requires (t == [] || !IsDigit(t[0])) && s == Decimal(n) + t
    ensures ScanUnsigned(s) == Some(Scanned(n, t))
  {
    DecimalNumeral(n);
    assert s == [] + Decimal(n) + t;
    ScanDigits([], Decimal(n), n, t, s);
  }

  /** The second %u reads on where the first one stopped. */
  lemma ScanPairStep(s: string, a: uint32, u: string, b: uint32, t: string)
    requires ScanUnsigned(s) == Some(Scanned(a, u)) && ScanUnsigned(u) == Some(Scanned(b, t))
    ensures ScanPair(s) == Some(Scanned((a, b), t))
  {
  }

  /** scanf "%u %u" reads back two numerals written with a space between them. */
  lemma ScanPairNumerals(a: uint32, b: uint32, da: string, db: string, t: string, s: string)
    requires Numeral(da, a) && Numeral(db, b) && (t == [] || !IsDigit(t[0]))
    requires s == da + " " + db + t
    ensures ScanPair(s) == Some(Scanned((a, b), t))
  {
    var u := " " + db + t;
    assert s == [] + da + u;
    assert u == " " + db + t && u[0] == ' ';
    ScanDigits(" ", db, b, t, u);
    ScanDigits([], da, a, u, s);
    ScanPairStep(s, a, u, b, t);
  }

  /** scanf "%u %u" reads back two numbers printed with a space between them. */
  lemma ScanPairDecimal(a: uint32, b: uint32, t: string, s: string)
    requires t == [] || !IsDigit(t[0])
    requires s == Decimal(a) + " " + Decimal(b) + t
    ensures ScanPair(s) == Some(Scanned((a, b), t))
  {
    DecimalNumeral(a);
    DecimalNumeral(b);
    ScanPairNumerals(a, b, Decimal(a), Decimal(b), t, s);
  }
}
