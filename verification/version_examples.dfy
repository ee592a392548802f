/** Worked encodings of `calc_version` on concrete arguments. */
module VersionExamples {
  import opened Version

  /** The components of "13.0.0" encode as 851968 = 13 << 16, those of
      "1.2.3" as 66051 = (1 << 16) | (2 << 8) | 3, and those of "0.0.0"
      as 10.10.10. */
  lemma PackedExamples()
    ensures VersionOf([13, 0, 0]) == 851968
    ensures VersionOf([1, 2, 3]) == 66051
    ensures VersionOf([0, 0, 0]) == FALLBACK_VERSION
  {
    VersionOfDotted([13, 0, 0]);
    VersionOfDotted([1, 2, 3]);
    VersionOfDotted([0, 0, 0]);
  }

  /** "13.0.0" is cut into the pieces "13", "0" and "0". */
  lemma PiecesExample(arg: string)
    requires arg == "13.0.0"
    ensures Pieces(arg) == ["13", "0", "0"]
  {
    assert arg == "13" + "." + "0" + "." + "0";
    ThreePieces("13", "0", "0");
  }

  /** "12abc" parses as 12 and "abc" as 0. The model also reads "" as 0,
      where the program leaves the component unassigned. */
  lemma ParseExamples()
    ensures ParseComponent("12abc") == 12
    ensures ParseComponent("abc") == 0
    ensures ParseComponent("") == 0
  {
    assert SkipSpaces("12abc") == "12abc";
    assert DigitPrefix("12abc") == "12" by {
      assert "12abc"[1..] == "2abc";
      assert "2abc"[1..] == "abc";
    }
    assert DecimalValue("12") == 12 by {
      assert "12"[..1] == "1";
      assert "1"[..0] == "";
    }
    assert SkipSpaces("abc") == "abc";
  }

  /** The empty string has no pieces and falls back to 10.10.10. */
  lemma VersionExampleEmpty()
    ensures VersionFromString("") == FALLBACK_VERSION
  {
    PiecesEmptyIff("");
  }
}
