/** Worked examples of the string helpers, stated about the model. */
module UtilsExamples {
  import opened Wrappers
  import opened Utils

  /** Converting one more password character appends the six bits of its value. */
  lemma Base64Append(p: string, c: char, t: string, v: nat, bits: string, p': string)
    requires Base64ToBinary(p) == Some(t) && Base64Value(c) == Some(v) && ToBinary(v, 6) == bits
    requires p' == p + [c]
    ensures Base64ToBinary(p') == Some(t + bits)
  {
    assert p'[..|p|] == p;
  }

  /** Character 1 of the example password, 'M', has value 12: six bits 001100. */
  lemma PasswordChar1()
    ensures Base64Value('M') == Some(12) && ToBinary(12, 6) == "001100"
    ensures "" + ['M'] == "M"
  {
  }

  /** The first 1 characters of the example password. */
  lemma PasswordPrefix1()
    ensures Base64ToBinary("M") == Some("001100")
  {
    assert Base64ToBinary("") == Some("");
    PasswordChar1();
    Base64Append("", 'M', "", 12, "001100", "M");
    assert "" + "001100" == "001100";
  }

  /** Character 2 of the example password, 'a', has value 26: six bits 011010. */
  lemma PasswordChar2()
    ensures Base64Value('a') == Some(26) && ToBinary(26, 6) == "011010"
    ensures "M" + ['a'] == "Ma"
  {
  }

  /** The first 2 characters of the example password. */
  lemma PasswordPrefix2()
    ensures Base64ToBinary("Ma") == Some("001100" + "011010")
  {
    PasswordPrefix1();
    PasswordChar2();
    Base64Append("M", 'a', "001100", 26, "011010", "Ma");
  }

  /** Character 3 of the example password, 'i', has value 34: six bits 100010. */
  lemma PasswordChar3()
    ensures Base64Value('i') == Some(34) && ToBinary(34, 6) == "100010"
    ensures "Ma" + ['i'] == "Mai"
  {
  }

  /** The first 3 characters of the example password. */
  lemma PasswordPrefix3()
    ensures Base64ToBinary("Mai") == Some("001100" + "011010" + "100010")
  {
    PasswordPrefix2();
    PasswordChar3();
    Base64Append("Ma", 'i', "001100" + "011010", 34, "100010", "Mai");
  }

  /** Character 4 of the example password, 't', has value 45: six bits 101101. */
  lemma PasswordChar4()
    ensures Base64Value('t') == Some(45) && ToBinary(45, 6) == "101101"
    ensures "Mai" + ['t'] == "Mait"
  {
  }

  /** The first 4 characters of the example password. */
  lemma PasswordPrefix4()
    ensures Base64ToBinary("Mait") == Some("001100" + "011010" + "100010" + "101101")
  {
    PasswordPrefix3();
    PasswordChar4();
    Base64Append("Mai", 't', "001100" + "011010" + "100010", 45, "101101", "Mait");
  }

  /** Character 5 of the example password, 'r', has value 43: six bits 101011. */
  lemma PasswordChar5()
    ensures Base64Value('r') == Some(43) && ToBinary(43, 6) == "101011"
    ensures "Mait" + ['r'] == "Maitr"
  {
  }

  /** The first 5 characters of the example password. */
  lemma PasswordPrefix5()
    ensures Base64ToBinary("Maitr") == Some("001100" + "011010" + "100010" + "101101" + "101011")
  {
    PasswordPrefix4();
    PasswordChar5();
    Base64Append("Mait", 'r', "001100" + "011010" + "100010" + "101101", 43, "101011", "Maitr");
  }

  /** Character 6 of the example password, 'e', has value 30: six bits 011110. */
  lemma PasswordChar6()
    ensures Base64Value('e') == Some(30) && ToBinary(30, 6) == "011110"
    ensures "Maitr" + ['e'] == "Maitre"
  {
  }

  /** The first 6 characters of the example password. */
  lemma PasswordPrefix6()
    ensures Base64ToBinary("Maitre") == Some("001100" + "011010" + "100010" + "101101" + "101011" + "011110")
  {
    PasswordPrefix5();
    PasswordChar6();
    Base64Append("Maitr", 'e', "001100" + "011010" + "100010" + "101101" + "101011", 30, "011110", "Maitre");
  }

  /** Character 7 of the example password, 'G', has value 6: six bits 000110. */
  lemma PasswordChar7()
    ensures Base64Value('G') == Some(6) && ToBinary(6, 6) == "000110"
    ensures "Maitre" + ['G'] == "MaitreG"
  {
  }

  /** The first 7 characters of the example password. */
  lemma PasswordPrefix7()
    ensures Base64ToBinary("MaitreG") == Some("001100" + "011010" + "100010" + "101101" + "101011" + "011110" + "000110")
  {
    PasswordPrefix6();
    PasswordChar7();
    Base64Append("Maitre", 'G', "001100" + "011010" + "100010" + "101101" + "101011" + "011110", 6, "000110", "MaitreG");
  }

  /** Character 8 of the example password, 'i', has value 34: six bits 100010. */
  lemma PasswordChar8()
    ensures Base64Value('i') == Some(34) && ToBinary(34, 6) == "100010"
    ensures "MaitreG" + ['i'] == "MaitreGi"
  {
  }

  /** The first 8 characters of the example password. */
  lemma PasswordPrefix8()
    ensures Base64ToBinary("MaitreGi") == Some("001100" + "011010" + "100010" + "101101" + "101011" + "011110" + "000110" + "100010")
  {
    PasswordPrefix7();
    PasswordChar8();
    Base64Append("MaitreG", 'i', "001100" + "011010" + "100010" + "101101" + "101011" + "011110" + "000110", 34, "100010", "MaitreGi");
  }

  /** Character 9 of the example password, 'm', has value 38: six bits 100110. */
  lemma PasswordChar9()
    ensures Base64Value('m') == Some(38) && ToBinary(38, 6) == "100110"
    ensures "MaitreGi" + ['m'] == "MaitreGim"
  {
  }

  /** The first 9 characters of the example password. */
  lemma PasswordPrefix9()
    ensures Base64ToBinary("MaitreGim") == Some("001100" + "011010" + "100010" + "101101" + "101011" + "011110" + "000110" + "100010" + "100110")
  {
    PasswordPrefix8();
    PasswordChar9();
    Base64Append("MaitreGi", 'm', "001100" + "011010" + "100010" + "101101" + "101011" + "011110" + "000110" + "100010", 38, "100110", "MaitreGim");
  }

  /** Character 10 of the example password, 's', has value 44: six bits 101100. */
  lemma PasswordChar10()
    ensures Base64Value('s') == Some(44) && ToBinary(44, 6) == "101100"
    ensures "MaitreGim" + ['s'] == "MaitreGims"
  {
  }

  /**
   * The password "MaitreGims" converts to the 60 binary digits of its ten
   * characters' values, six per character.
   */
  lemma PasswordExample()
    ensures Base64ToBinary("MaitreGims") == Some("001100" + "011010" + "100010" + "101101" + "101011" + "011110" + "000110" + "100010" + "100110" + "101100")
  {
    PasswordPrefix9();
    PasswordChar10();
    Base64Append("MaitreGim", 's', "001100" + "011010" + "100010" + "101101" + "101011" + "011110" + "000110" + "100010" + "100110", 44, "101100", "MaitreGims");
  }

  /** A password holding characters outside the alphabet is refused. */
  lemma InvalidPasswordExample()
    ensures Base64ToBinary("dasjn0938*&()") == None
  {
  }

  /** The extension of "img.pgm" is "pgm"; "img" has none. */
  lemma FileExtensionExamples()
    ensures FileExtension("img.pgm") == Some("pgm")
    ensures FileExtension("img") == None
  {
    FileExtensionOfSplit("img", "pgm");
    assert "img" + "." + "pgm" == "img.pgm";
  }

  /** One dot and no forbidden character is accepted. */
  lemma ValidFileNameExample()
    ensures ValidFileName("img.pgm")
  {
  }

  /** A second dot, a '*' or a '/' makes a name invalid. */
  lemma InvalidFileNameExamples()
    ensures !ValidFileName("img.pg.m")
    ensures !ValidFileName("img*.pgm")
    ensures !ValidFileName("../badPath.ppm")
  {
    assert "img.pg.m"[3] == '.' && "img.pg.m"[6] == '.';
    assert "img*.pgm"[3] == ForbiddenInFileNames[3];
    assert "../badPath.ppm"[2] == ForbiddenInFileNames[0];
  }
}
