/**
 * String helpers of the tool: the password-to-seed conversion (each character of
 * a base64 alphabet becomes its 6-bit index, most significant bit first), the
 * extension of a file name, and the check applied to output file names.
 */
module Utils {
  import opened Wrappers
  import opened Bits

  /** n consecutive ASCII characters starting at first. */
  function CharRange(first: char, n: nat): (r: string)
    requires first as int + n < 0x80
    ensures |r| == n
  {
    seq(n, i requires 0 <= i < n => (first as int + i) as char)
  }

  /** The 64 characters a password may use; a character's value is its index here. */
  const Base64Alphabet: string := CharRange('A', 26) + CharRange('a', 26) + CharRange('0', 10) + "+/"

  /** The alphabet, written out as the source writes it. */
  lemma Base64AlphabetLiteral()
    ensures |Base64Alphabet| == 64
    ensures Base64Alphabet[..26] == "ABCDEFGHIJKLMNOPQRSTUVWXYZ"
    ensures Base64Alphabet[26..52] == "abcdefghijklmnopqrstuvwxyz"
    ensures Base64Alphabet[52..62] == "0123456789"
    ensures Base64Alphabet[62..] == "+/"
  {
    UpperCaseRange();
    LowerCaseRange();
    DigitRange();
    var upper, lower, digits := CharRange('A', 26), CharRange('a', 26), CharRange('0', 10);
    assert Base64Alphabet == upper + lower + digits + "+/";
    assert Base64Alphabet[..26] == upper;
    assert Base64Alphabet[26..52] == lower;
    assert Base64Alphabet[52..62] == digits;
  }

  lemma UpperCaseRange()
    ensures CharRange('A', 26) == "ABCDEFGHIJKLMNOPQRSTUVWXYZ"
  {
  }

  lemma LowerCaseRange()
    ensures CharRange('a', 26) == "abcdefghijklmnopqrstuvwxyz"
  {
  }

  lemma DigitRange()
    ensures CharRange('0', 10) == "0123456789"
  {
  }

  /** Characters that an output file name must not contain. */
  const ForbiddenInFileNames: string := "/\\:*?\"<>|"

  /** Position of the first occurrence of c in s (the C library's strchr). */
  function IndexOf(s: string, c: char): (r: Option<nat>)
    ensures r.None? <==> c !in s
    ensures r.Some? ==> r.value < |s| && s[r.value] == c && c !in s[..r.value]
  {
    if s == [] then None
    else if s[0] == c then Some(0)
    else match IndexOf(s[1..], c)
      case None => None
      case Some(i) =>
        assert s[..i + 1] == [s[0]] + s[1..][..i];
        Some(i + 1)
  }

  /** strchr finds exactly the first occurrence. */
  lemma IndexOfFirst(s: string, c: char, i: nat)
    requires i < |s| && s[i] == c && c !in s[..i]
    ensures IndexOf(s, c) == Some(i)
  {
  }

  /** c is one of the 64 password characters. */
  predicate InAlphabet(c: char)
  {
    c in Base64Alphabet
  }

  /** Value of a password character by ranges: A-Z 0..25, a-z 26..51, 0-9 52..61, '+' 62, '/' 63. */
  function Base64Value(c: char): Option<nat>
  {
    if 'A' <= c <= 'Z' then Some(c as int - 'A' as int)
    else if 'a' <= c <= 'z' then Some(c as int - 'a' as int + 26)
    else if '0' <= c <= '9' then Some(c as int - '0' as int + 52)
    else if c == '+' then Some(62)
    else if c == '/' then Some(63)
    else None
  }

  /** Looking a character up in the alphabet with strchr gives its value by ranges. */
  lemma IndexInAlphabet(c: char)
    ensures IndexOf(Base64Alphabet, c) == Base64Value(c)
  {
    var v := Base64Value(c);
    if v.Some? {
      assert Base64Alphabet[v.value] == c;
      assert c !in Base64Alphabet[..v.value];
      IndexOfFirst(Base64Alphabet, c, v.value);
    } else {
      assert c !in Base64Alphabet;
    }
  }

  /** The password characters are exactly those the value function accepts. */
  lemma InAlphabetValue(c: char)
    ensures InAlphabet(c) <==> Base64Value(c).Some?
  {
    IndexInAlphabet(c);
  }

  function BitChar(b: nat): char
  {
    if b % 2 == 0 then '0' else '1'
  }

  /** The low n bits of v as '0'/'1' characters, most significant first. */
  function ToBinary(v: nat, n: nat): string
  {
    if n == 0 then [] else ToBinary(v / 2, n - 1) + [BitChar(v % 2)]
  }

  /** Value of a '0'/'1' string read most significant bit first. */
  function BinaryValue(bits: string): nat
  {
    if bits == [] then 0
    else 2 * BinaryValue(bits[..|bits| - 1]) + (if bits[|bits| - 1] == '1' then 1 else 0)
  }

  predicate IsBinaryString(s: string)
  {
    forall k :: 0 <= k < |s| ==> s[k] == '0' || s[k] == '1'
  }

  /** ToBinary writes exactly n binary digits, and reading them back gives v mod 2^n. */
  lemma {:induction false} ToBinaryValue(v: nat, n: nat)
    ensures |ToBinary(v, n)| == n && IsBinaryString(ToBinary(v, n))
    ensures BinaryValue(ToBinary(v, n)) == v % Pow2(n)
  {
    ToBinaryDigits(v, n);
    if n > 0 {
      ToBinaryValue(v / 2, n - 1);
      var m := Pow2(n - 1);
      var front := ToBinary(v / 2, n - 1);
      assert ToBinary(v, n) == front + [BitChar(v % 2)];
      BinaryValueSnoc(front, v % 2);
      ModDouble(v, m);
      assert Pow2(n) == 2 * m;
    }
  }

  /** One more binary digit, least significant. */
  lemma BinaryValueSnoc(front: string, b: nat)
    requires b < 2
    ensures BinaryValue(front + [BitChar(b)]) == 2 * BinaryValue(front) + b
  {
    var t := front + [BitChar(b)];
    assert t[..|t| - 1] == front;
  }

  lemma {:induction false} ToBinaryDigits(v: nat, n: nat)
    ensures |ToBinary(v, n)| == n && IsBinaryString(ToBinary(v, n))
  {
    if n > 0 {
      ToBinaryDigits(v / 2, n - 1);
    }
  }

  /**
   * Specification of the password conversion: the 6-bit codes of the characters,
   * concatenated in order; None as soon as a character is outside the alphabet.
   */
  function Base64ToBinary(s: string): (r: Option<string>)
    ensures r.Some? <==> forall j :: 0 <= j < |s| ==> Base64Value(s[j]).Some?
    ensures r.Some? ==> |r.value| == 6 * |s|
  {
    if s == [] then Some([])
    else
      match Base64ToBinary(s[..|s| - 1])
      case None => None
      case Some(t) =>
        match Base64Value(s[|s| - 1])
        case None => None
        case Some(d) =>
          ToBinaryDigits(d, 6);
          assert forall j :: 0 <= j < |s| - 1 ==> s[..|s| - 1][j] == s[j];
          Some(t + ToBinary(d, 6))
  }

  /** Code of a password character: its value, as six binary digits. */
  function Code(c: char): string
    requires Base64Value(c).Some?
  {
    ToBinary(Base64Value(c).value, 6)
  }

  /** Converting one more character appends its code. */
  lemma Base64ToBinarySnoc(s: string)
    requires Base64ToBinary(s).Some? && s != []
    ensures Base64ToBinary(s).value == Base64ToBinary(s[..|s| - 1]).value + Code(s[|s| - 1])
  {
  }

  lemma SliceOfConcatLeft(t: string, x: string, i: nat, k: nat)
    requires i <= k <= |t|
    ensures (t + x)[i..k] == t[i..k]
  {
  }

  /** Block j of the conversion is the code of s[j]; the output is a binary string. */
  lemma {:induction false} Base64Blocks(s: string)
    requires Base64ToBinary(s).Some?
    ensures IsBinaryString(Base64ToBinary(s).value)
    ensures forall j :: 0 <= j < |s| ==> Base64ToBinary(s).value[6 * j .. 6 * j + 6] == Code(s[j])
  {
    if s != [] {
      var init := s[..|s| - 1];
      Base64Blocks(init);
      Base64ToBinarySnoc(s);
      var t := Base64ToBinary(init).value;
      var x := Code(s[|s| - 1]);
      ToBinaryValue(Base64Value(s[|s| - 1]).value, 6);
      forall j | 0 <= j < |s|
        ensures (t + x)[6 * j .. 6 * j + 6] == Code(s[j])
      {
        if j < |init| {
          assert t[6 * j .. 6 * j + 6] == Code(init[j]);
          SliceOfConcatLeft(t, x, 6 * j, 6 * j + 6);
        } else {
          BlockLast(t, x, j);
        }
      }
    }
  }

  /** The block just after t, in t + x, is x. */
  lemma BlockLast(t: string, x: string, j: nat)
    requires |t| == 6 * j && |x| == 6
    ensures (t + x)[6 * j .. 6 * j + 6] == x
  {
  }

  /** base64_string_to_binary_string: builds the result one 6-character block at a time. */
  method Base64StringToBinaryString(s: string) returns (r: Option<string>)
    ensures r == Base64ToBinary(s)
  {
    var out: string := [];
    var i := 0;
    while i < |s|
      invariant 0 <= i <= |s|
      invariant Base64ToBinary(s[..i]) == Some(out)
    {
      var index := IndexOf(Base64Alphabet, s[i]);
      IndexInAlphabet(s[i]);
      if index.None? {
        Base64ToBinaryRejects(s, i);
        return None;
      }
      var block := CharacterBits(index.value);
      Base64ToBinaryNext(s, i, out);
      out := out + block[..];
      i := i + 1;
    }
    assert s[..i] == s;
    return Some(out);
  }

  /** A character outside the alphabet makes the whole conversion fail. */
  lemma Base64ToBinaryRejects(s: string, i: nat)
    requires i < |s| && Base64Value(s[i]).None?
    ensures Base64ToBinary(s).None?
  {
  }

  /** The conversion of the first i + 1 characters, from that of the first i. */
  lemma Base64ToBinaryNext(s: string, i: nat, out: string)
    requires i < |s| && Base64ToBinary(s[..i]) == Some(out) && Base64Value(s[i]).Some?
    ensures Base64ToBinary(s[..i + 1]) == Some(out + Code(s[i]))
  {
    assert s[..i + 1][..i] == s[..i];
  }

  /** The inner loop: the six binary digits of a character's value, filled in from the last. */
  method CharacterBits(value: nat) returns (block: array<char>)
    ensures fresh(block)
    ensures block[..] == ToBinary(value, 6)
  {
    var decimal := value;
    block := new char[6];
    var j := 6;
    while j > 0
      invariant 0 <= j <= 6
      invariant ToBinary(value, 6) == ToBinary(decimal, j) + block[j..]
    {
      block[j - 1] := BitChar(decimal % 2);
      decimal := decimal / 2;
      j := j - 1;
    }
  }

  /** Six binary digits hold any value below 64 exactly. */
  lemma SixBitsValue(d: nat)
    requires d < 64
    ensures BinaryValue(ToBinary(d, 6)) == d
  {
    ToBinaryValue(d, 6);
    assert Pow2(6) == 64;
  }

  /** The code of a password character reads back as its value. */
  lemma CodeValue(c: char)
    requires Base64Value(c).Some?
    ensures BinaryValue(Code(c)) == Base64Value(c).value
  {
    SixBitsValue(Base64Value(c).value);
  }

  /** Each 6-character block of the conversion reads back as the character's value. */
  lemma Base64BlockValue(s: string, j: nat)
    requires Base64ToBinary(s).Some? && j < |s|
    ensures BinaryValue(Base64ToBinary(s).value[6 * j .. 6 * j + 6]) == Base64Value(s[j]).value
  {
    Base64Blocks(s);
    CodeValue(s[j]);
  }

  /**
   * get_file_extension: the text after the last '.', or None when there is no '.'.
   * The name is the part before that dot, the dot, and the extension.
   */
  function FileExtension(name: string): (r: Option<string>)
    ensures r.None? <==> '.' !in name
    ensures r.Some? ==> '.' !in r.value && |r.value| < |name|
    ensures r.Some? ==> name == name[..|name| - |r.value| - 1] + "." + r.value
  {
    if name == [] then None
    else if name[|name| - 1] == '.' then Some([])
    else
      var init := name[..|name| - 1];
      assert name == init + [name[|name| - 1]];
      match FileExtension(init)
      case None => None
      case Some(e) => Some(e + [name[|name| - 1]])
  }

  /** Conversely, a name ending in a dot followed by dot-free text has that text as extension. */
  lemma {:induction false} FileExtensionOfSplit(base: string, ext: string)
    requires '.' !in ext
    ensures FileExtension(base + "." + ext) == Some(ext)
  {
    if ext != [] {
      var e := ext[..|ext| - 1];
      var c := ext[|ext| - 1];
      assert ext == e + [c];
      assert '.' !in e;
      FileExtensionOfSplit(base, e);
      assert base + "." + ext == (base + "." + e) + [c];
      FileExtensionSnoc(base + "." + e, c);
    }
  }

  /** A last character other than '.' extends the extension, if there is one. */
  lemma FileExtensionSnoc(init: string, c: char)
    requires c != '.'
    ensures FileExtension(init + [c]) == if FileExtension(init).Some? then Some(FileExtension(init).value + [c]) else None
  {
    assert (init + [c])[..|init|] == init;
  }

  /** Acceptance rule for output file names: at most one '.', no forbidden character. */
  predicate ValidFileName(name: string)
  {
    && (forall i, j :: 0 <= i < j < |name| && name[i] == '.' ==> name[j] != '.')
    && (forall i :: 0 <= i < |name| ==> name[i] !in ForbiddenInFileNames)
  }

  /** check_file_name: one pass, remembering whether a '.' was already seen. */
  method CheckFileName(name: string) returns (ok: bool)
    ensures ok == ValidFileName(name)
  {
    var extensionFound := false;
    var i := 0;
    while i < |name|
      invariant 0 <= i <= |name|
      invariant extensionFound == ('.' in name[..i])
      invariant forall p, q :: 0 <= p < q < i && name[p] == '.' ==> name[q] != '.'
      invariant forall k :: 0 <= k < i ==> name[k] !in ForbiddenInFileNames
    {
      assert name[..i + 1] == name[..i] + [name[i]];
      if name[i] == '.' {
        if !extensionFound {
          extensionFound := true;
        } else {
          return false;
        }
      }
      var j := 0;
      while j < |ForbiddenInFileNames|
        invariant 0 <= j <= |ForbiddenInFileNames|
        invariant forall m :: 0 <= m < j ==> name[i] != ForbiddenInFileNames[m]
      {
        if name[i] == ForbiddenInFileNames[j] {
          return false;
        }
        j := j + 1;
      }
      i := i + 1;
    }
    assert name[..i] == name;
    return true;
  }
}
