/** The version-string encoder `calc_version`: a dotted string "X.Y.Z" becomes
    the packed word (X << 16) | (Y << 8) | Z, or 10.10.10 when that word is 0.

    The source reads the pieces between dots with `getline` and turns each
    piece into a `uint32_t` with stream extraction; a `uint8_t` counter says
    which piece it is. Both layers are modelled: the packing over a sequence
    of already-parsed components, and the split and parse of the string. */
module Version {

  /** The value returned instead of 0: 0x000A0A0A, version 10.10.10. */
  const FALLBACK_VERSION: bv32 := 657930

  /** The largest value a `uint32_t` extraction can yield. */
  const UINT32_MAX: nat := 0xFFFF_FFFF

  // ---------------------------------------------------------------------
  // Packing parsed components
  // ---------------------------------------------------------------------

  /** The loop state of `calc_version`: the word built so far and the
      `uint8_t` counter of pieces seen, kept below 256. */
  datatype PackState = PackState(value: bv32, index: nat)

  /** One turn of the loop: piece 0 replaces the word by `c << 16`, piece 1
      ORs in `c << 8`, piece 2 ORs in `c`, any other piece is ignored; then
      the 8-bit counter is incremented (and wraps from 255 to 0). */
  function PackStep(st: PackState, c: bv32): PackState
  {
    var v :=
      if st.index == 0 then c << 16
      else if st.index == 1 then st.value | (c << 8)
      else if st.index == 2 then st.value | c
      else st.value;
    PackState(v, (st.index + 1) % 256)
  }

  /** The loop state after the pieces `cs`, starting from value 0, index 0. */
  function Pack(cs: seq<bv32>): PackState
  {
    if |cs| == 0 then PackState(0, 0)
    else PackStep(Pack(cs[..|cs| - 1]), cs[|cs| - 1])
  }

  /** The counter holds the number of pieces seen, modulo 256. */
  lemma {:induction false} PackIndexCounts(cs: seq<bv32>)
    ensures Pack(cs).index == |cs| % 256
  {
    if |cs| > 0 {
      PackIndexCounts(cs[..|cs| - 1]);
    }
  }

  /** The component at position i, or 0 when the string has fewer pieces. */
  function ComponentOrZero(cs: seq<bv32>, i: nat): bv32
  {
    if i < |cs| then cs[i] else 0
  }

  /** The documented encoding of a dotted version: major in bits 16 and up,
      minor shifted by 8, patch unshifted, all combined with bitwise OR in
      32-bit arithmetic. A minor of 256 or more therefore reaches the major
      bits, and a major of 65536 or more loses its high bits. */
  function DottedValue(cs: seq<bv32>): bv32
  {
    (ComponentOrZero(cs, 0) << 16) | (ComponentOrZero(cs, 1) << 8) | ComponentOrZero(cs, 2)
  }

  /** What `calc_version` returns for the parsed components `cs`. */
  function VersionOf(cs: seq<bv32>): (r: bv32)
    ensures r != 0
    ensures Pack(cs).value != 0 ==> r == Pack(cs).value
  {
    if Pack(cs).value == 0 then FALLBACK_VERSION else Pack(cs).value
  }

  /** After three pieces, pieces 3 to 255 leave the word alone. */
  lemma {:induction false} PackIgnoresLaterPieces(cs: seq<bv32>, n: nat)
    requires 3 <= n <= |cs| && n <= 256
    ensures Pack(cs[..n]).value == Pack(cs[..3]).value
  {
    if n > 3 {
      PackIgnoresLaterPieces(cs, n - 1);
      assert cs[..n][..n - 1] == cs[..n - 1];
      PackIndexCounts(cs[..n - 1]);
    }
  }

  /** For strings of at most 256 pieces the loop computes the documented
      encoding: missing pieces count as 0 and pieces after the third are
      ignored. */
  lemma PackIsDottedValue(cs: seq<bv32>)
    requires |cs| <= 256
    ensures Pack(cs).value == DottedValue(cs)
  {
    if |cs| >= 3 {
      PackOfLong(cs);
      DottedOfLong(cs);
    } else if |cs| == 2 {
      PackOfTwo(cs);
      DottedOfTwo(cs);
    } else if |cs| == 1 {
      PackOfOne(cs);
      DottedOfOne(cs);
    } else {
      DottedOfEmpty(cs);
    }
  }

  lemma PackOfOne(cs: seq<bv32>)
    requires |cs| == 1
    ensures Pack(cs).value == cs[0] << 16
  {
  }

  lemma PackOfTwo(cs: seq<bv32>)
    requires |cs| == 2
    ensures Pack(cs).value == (cs[0] << 16) | (cs[1] << 8)
  {
    PackOfOne(cs[..1]);
    PackIndexCounts(cs[..1]);
  }

  lemma PackOfLong(cs: seq<bv32>)
    requires 3 <= |cs| <= 256
    ensures Pack(cs).value == (cs[0] << 16) | (cs[1] << 8) | cs[2]
  {
    PackIgnoresLaterPieces(cs, |cs|);
    assert cs[..|cs|] == cs;
    PackOfThree(cs[..3]);
  }

  lemma PackOfThree(cs: seq<bv32>)
    requires |cs| == 3
    ensures Pack(cs).value == (cs[0] << 16) | (cs[1] << 8) | cs[2]
  {
    PackOfTwo(cs[..2]);
    PackIndexCounts(cs[..2]);
  }

  lemma DottedOfEmpty(cs: seq<bv32>)
    requires |cs| == 0
    ensures DottedValue(cs) == 0
  {
  }

  lemma DottedOfOne(cs: seq<bv32>)
    requires |cs| == 1
    ensures DottedValue(cs) == cs[0] << 16
  {
  }

  lemma DottedOfTwo(cs: seq<bv32>)
    requires |cs| == 2
    ensures DottedValue(cs) == (cs[0] << 16) | (cs[1] << 8)
  {
  }

  lemma DottedOfLong(cs: seq<bv32>)
    requires |cs| >= 3
    ensures DottedValue(cs) == (cs[0] << 16) | (cs[1] << 8) | cs[2]
  {
  }

  /** The 8-bit counter wraps after 256 pieces, so piece 256 is treated as a
      new first piece: it overwrites the word, and everything before it is
      forgotten. */
  lemma {:induction false} PackRestartsAfterCounterWrap(cs: seq<bv32>)
    requires |cs| > 256
    ensures Pack(cs) == Pack(cs[256..])
  {
    var n := |cs|;
    if n == 257 {
      assert cs[..256] == cs[..n - 1];
      PackIndexCounts(cs[..256]);
      assert cs[256..][..0] == [];
    } else {
      PackRestartsAfterCounterWrap(cs[..n - 1]);
      assert cs[..n - 1][256..] == cs[256..][..n - 257];
    }
  }

  /** Where the last round of the 8-bit counter begins among n pieces:
      the counter is back at 0 after every 256 pieces. */
  function LastRoundStart(n: nat): (start: nat)
    ensures start <= n && n - start <= 256
    ensures start % 256 == 0
    ensures n > 0 ==> start < n
  {
    if n <= 256 then 0 else 256 + LastRoundStart(n - 256)
  }

  /** For any number of pieces, the word is the documented encoding of the
      pieces read since the counter last came back to 0. */
  lemma {:induction false} PackIsLastRound(cs: seq<bv32>)
    ensures Pack(cs).value == DottedValue(cs[LastRoundStart(|cs|)..])
    decreases |cs|
  {
    if |cs| <= 256 {
      assert cs[0..] == cs;
      PackIsDottedValue(cs);
    } else {
      PackRestartsAfterCounterWrap(cs);
      PackIsLastRound(cs[256..]);
      assert cs[256..][LastRoundStart(|cs| - 256)..] == cs[LastRoundStart(|cs|)..];
    }
  }

  /** `calc_version` on parsed components: the documented encoding, or
      10.10.10 when that encoding is 0. */
  lemma VersionOfDotted(cs: seq<bv32>)
    requires |cs| <= 256
    ensures DottedValue(cs) != 0 ==> VersionOf(cs) == DottedValue(cs)
    ensures DottedValue(cs) == 0 ==> VersionOf(cs) == FALLBACK_VERSION
  {
    PackIsDottedValue(cs);
  }

  /** Because the pieces are combined with OR rather than added, a minor
      of 256 or more spills into the major: "1.512" encodes like "3", and
      "1.256" like "1". */
  lemma MinorSpillsIntoMajor(major: bv32, minor: bv32)
    ensures DottedValue([major, minor]) == DottedValue([major | (minor >> 8), minor & 0xff])
    ensures DottedValue([1, 512]) == DottedValue([3])
    ensures DottedValue([1, 256]) == DottedValue([1])
  {
  }

  /** The major is shifted in 32 bits, so only its low 16 bits survive;
      "65536" encodes as 0 and is therefore reported as 10.10.10. */
  lemma MajorKeepsLow16Bits(major: bv32)
    ensures DottedValue([major]) == DottedValue([major & 0xffff])
    ensures VersionOf([0x1_0000]) == FALLBACK_VERSION
  {
  }

  // ---------------------------------------------------------------------
  // Splitting the string on '.'
  // ---------------------------------------------------------------------

  /** All the pieces between dots, including empty ones; a string without
      a dot is a single piece. */
  function SplitOnDots(s: string): (ps: seq<string>)
    ensures |ps| >= 1
  {
    if |s| == 0 then [""]
    else if s[0] == '.' then [""] + SplitOnDots(s[1..])
    else
      var rest := SplitOnDots(s[1..]);
      [[s[0]] + rest[0]] + rest[1..]
  }

  /** The pieces that successive `getline(…, '.')` calls deliver: every
      piece between dots, except that an empty last piece is not delivered
      (at end of input `getline` fails without extracting anything). */
  function Pieces(s: string): (ps: seq<string>)
  {
    var all := SplitOnDots(s);
    if all[|all| - 1] == "" then all[..|all| - 1] else all
  }

  /** A piece never contains a dot. */
  lemma {:induction false} SplitOnDotsHasNoDots(s: string)
    ensures forall i :: 0 <= i < |SplitOnDots(s)| ==> '.' !in SplitOnDots(s)[i]
  {
    if |s| > 0 {
      SplitOnDotsHasNoDots(s[1..]);
    }
  }

  /** The pieces joined again with '.' between them. */
  function Join(ps: seq<string>): (s: string)
  {
    if |ps| == 0 then ""
    else if |ps| == 1 then ps[0]
    else ps[0] + "." + Join(ps[1..])
  }

  /** Splitting on '.' loses nothing: joining the pieces gives the string back. */
  lemma {:induction false} JoinSplitOnDots(s: string)
    ensures Join(SplitOnDots(s)) == s
  {
    if |s| > 0 {
      JoinSplitOnDots(s[1..]);
      var rest := SplitOnDots(s[1..]);
      if s[0] == '.' {
        assert s == "." + s[1..];
      } else if |rest| == 1 {
        assert s == [s[0]] + s[1..];
      } else {
        assert Join(rest) == rest[0] + "." + Join(rest[1..]);
        assert s == [s[0]] + s[1..];
      }
    }
  }

  /** A trailing dot adds one empty piece at the end of the split. */
  lemma {:induction false} SplitOnDotsAppendDot(s: string)
    ensures SplitOnDots(s + ".") == SplitOnDots(s) + [""]
  {
    if |s| == 0 {
      assert "" + "." == ".";
      assert "."[1..] == "";
    } else {
      SplitOnDotsAppendDot(s[1..]);
      assert (s + ".")[1..] == s[1..] + ".";
    }
  }

  /** A non-empty string that does not end in '.' has a non-empty last piece. */
  lemma {:induction false} SplitOnDotsLastPiece(s: string)
    requires |s| > 0 && s[|s| - 1] != '.'
    ensures var ps := SplitOnDots(s); ps[|ps| - 1] != ""
  {
    if |s| > 1 {
      SplitOnDotsLastPiece(s[1..]);
    }
  }

  /** The `getline` rule: a piece is delivered for every '.'-terminated
      piece, and the final piece only when it is not empty. */
  lemma PiecesRule(s: string)
    ensures Pieces(s + ".") == SplitOnDots(s)
    ensures |s| > 0 && s[|s| - 1] != '.' ==> Pieces(s) == SplitOnDots(s)
  {
    SplitOnDotsAppendDot(s);
    var all := SplitOnDots(s + ".");
    assert all[..|all| - 1] == SplitOnDots(s);
    if |s| > 0 && s[|s| - 1] != '.' {
      SplitOnDotsLastPiece(s);
    }
  }

  /** The empty string yields no pieces at all, any other string at least one. */
  lemma {:induction false} PiecesEmptyIff(s: string)
    ensures |Pieces(s)| == 0 <==> |s| == 0
  {
  }

  lemma {:induction false} SplitOnDotsNoDot(x: string)
    requires '.' !in x
    ensures SplitOnDots(x) == [x]
  {
    if |x| > 0 {
      SplitOnDotsNoDot(x[1..]);
      assert [x[0]] + x[1..] == x;
    }
  }

  lemma {:induction false} SplitOnDotsAfterPiece(x: string, y: string)
    requires '.' !in x
    ensures SplitOnDots(x + "." + y) == [x] + SplitOnDots(y)
  {
    if |x| == 0 {
      assert x + "." + y == "." + y;
      assert ("." + y)[1..] == y;
    } else {
      SplitOnDotsAfterPiece(x[1..], y);
      assert (x + "." + y)[1..] == x[1..] + "." + y;
      assert [x[0]] + x[1..] == x;
    }
  }

  /** Three non-empty pieces without dots, joined by dots, come back as
      exactly those three pieces. */
  lemma ThreePieces(a: string, b: string, c: string)
    requires '.' !in a && '.' !in b && '.' !in c && |c| > 0
    ensures Pieces(a + "." + b + "." + c) == [a, b, c]
  {
    var bc := b + "." + c;
    SplitOnDotsAfterPiece(b, c);
    SplitOnDotsNoDot(c);
    assert SplitOnDots(bc) == [b, c];
    SplitOnDotsAfterPiece(a, bc);
    assert a + "." + b + "." + c == a + "." + bc;
    assert SplitOnDots(a + "." + b + "." + c) == [a, b, c];
  }

  // ---------------------------------------------------------------------
  // Parsing one piece
  // ---------------------------------------------------------------------

  predicate IsDigit(ch: char)
  {
    '0' <= ch <= '9'
  }

  /** The characters stream extraction skips before a number. */
  predicate IsSpace(ch: char)
  {
    ch == ' ' || ch == '\t' || ch == '\n' || ch == '\r' || ch == '\U{0B}' || ch == '\U{0C}'
  }

  function SkipSpaces(s: string): (r: string)
  {
    if |s| > 0 && IsSpace(s[0]) then SkipSpaces(s[1..]) else s
  }

  /** The longest prefix of `s` made of decimal digits. */
  function DigitPrefix(s: string): (r: string)
  {
    if |s| > 0 && IsDigit(s[0]) then [s[0]] + DigitPrefix(s[1..]) else ""
  }

  /** The number written by a string of decimal digits. */
  function DecimalValue(ds: string): nat
  {
    if |ds| == 0 then 0
    else
      var last := ds[|ds| - 1];
      DecimalValue(ds[..|ds| - 1]) * 10 + (if IsDigit(last) then last as int - '0' as int else 0)
  }

  /** `piece >> _versionnum` on a `uint32_t`: leading white space is
      skipped, then the decimal digits that follow are read. No digit at
      all yields 0; a number too large for 32 bits yields 0xFFFFFFFF.
      An empty or blank piece makes the program's extraction fail before
      it stores anything, leaving `_versionnum` indeterminate; the model
      reads that piece as 0 too. */
  function ParseComponent(piece: string): (n: nat)
    ensures n <= UINT32_MAX
  {
    var v := DecimalValue(DigitPrefix(SkipSpaces(piece)));
    if v > UINT32_MAX then UINT32_MAX else v
  }

  /** The decimal numeral of n, without leading zeros. */
  function Decimal(n: nat): (s: string)
    ensures |s| > 0
    ensures forall i :: 0 <= i < |s| ==> IsDigit(s[i])
  {
    var d := ('0' as int + n % 10) as char;
    if n < 10 then [d] else Decimal(n / 10) + [d]
  }

  lemma {:induction false} DecimalValueOfDecimal(n: nat)
    ensures DecimalValue(Decimal(n)) == n
  {
    if n >= 10 {
      DecimalValueOfDecimal(n / 10);
      var s := Decimal(n);
      assert s[..|s| - 1] == Decimal(n / 10);
    }
  }

  /** Skipping white space drops exactly the leading blanks. */
  lemma {:induction false} SkipSpacesOfBlanks(ws: string, s: string)
    requires forall i :: 0 <= i < |ws| ==> IsSpace(ws[i])
    requires s == "" || !IsSpace(s[0])
    ensures SkipSpaces(ws + s) == s
  {
    if |ws| > 0 {
      assert (ws + s)[1..] == ws[1..] + s;
      SkipSpacesOfBlanks(ws[1..], s);
    }
  }

  /** The digit prefix stops at the first character that is not a digit. */
  lemma {:induction false} DigitPrefixOfDigits(ds: string, rest: string)
    requires forall i :: 0 <= i < |ds| ==> IsDigit(ds[i])
    requires rest == "" || !IsDigit(rest[0])
    ensures DigitPrefix(ds + rest) == ds
  {
    if |ds| > 0 {
      assert (ds + rest)[1..] == ds[1..] + rest;
      DigitPrefixOfDigits(ds[1..], rest);
      assert [ds[0]] + ds[1..] == ds;
    }
  }

  /** A piece made of white space, the numeral of n, and anything that does
      not start with a digit extracts as n, or as 0xFFFFFFFF when n does not
      fit in 32 bits. This covers " 12", "12abc" and "12 ". */
  lemma ParseComponentValue(ws: string, n: nat, rest: string)
    requires forall i :: 0 <= i < |ws| ==> IsSpace(ws[i])
    requires rest == "" || !IsDigit(rest[0])
    ensures ParseComponent(ws + Decimal(n) + rest) == if n > UINT32_MAX then UINT32_MAX else n
  {
    var s := Decimal(n);
    assert ws + s + rest == ws + (s + rest);
    SkipSpacesOfBlanks(ws, s + rest);
    DigitPrefixOfDigits(s, rest);
    DecimalValueOfDecimal(n);
  }

  /** A piece whose first non-blank character is not a digit extracts as 0,
      the value a failed conversion stores. */
  lemma ParseNoDigits(ws: string, rest: string)
    requires forall i :: 0 <= i < |ws| ==> IsSpace(ws[i])
    requires rest == "" || (!IsSpace(rest[0]) && !IsDigit(rest[0]))
    ensures ParseComponent(ws + rest) == 0
  {
    SkipSpacesOfBlanks(ws, rest);
  }

  /** Parsing the numeral of a 32-bit number gives back that number. */
  lemma ParseDecimal(n: nat)
    requires n <= UINT32_MAX
    ensures ParseComponent(Decimal(n)) == n
  {
    ParseComponentValue("", n, "");
    assert "" + Decimal(n) + "" == Decimal(n);
  }

  // ---------------------------------------------------------------------
  // calc_version
  // ---------------------------------------------------------------------

  /** The `uint32_t` extracted from one piece. */
  function Component(piece: string): bv32
  {
    ParseComponent(piece) as bv32
  }

  /** The parsed value of every piece, in order. */
  function Components(ps: seq<string>): (cs: seq<bv32>)
    ensures |cs| == |ps|
  {
    seq(|ps|, i requires 0 <= i < |ps| => Component(ps[i]))
  }

  /** Packing one more component extends the packing of the prefix. */
  lemma PackPrefix(cs: seq<bv32>, i: nat)
    requires i < |cs|
    ensures Pack(cs[..i + 1]) == PackStep(Pack(cs[..i]), cs[i])
  {
    assert cs[..i + 1][..i] == cs[..i];
  }

  /** What `calc_version(arg)` returns. */
  function VersionFromString(arg: string): bv32
  {
    VersionOf(Components(Pieces(arg)))
  }

  /** `calc_version`: the `getline` loop with its 8-bit piece counter, then
      the replacement of 0 by 10.10.10. */
  method CalcVersion(arg: string) returns (versionnum: bv32)
    ensures versionnum == VersionFromString(arg)
    ensures versionnum != 0
    ensures var cs := Components(Pieces(arg));
            var encoded := DottedValue(cs[LastRoundStart(|cs|)..]);
            versionnum == if encoded == 0 then FALLBACK_VERSION else encoded
  {
    var pieces := Pieces(arg);
    ghost var cs := Components(pieces);
    versionnum := 0;
    var index: nat := 0;  // a uint8_t
    var i := 0;
    while i < |pieces|
      invariant 0 <= i <= |pieces|
      invariant PackState(versionnum, index) == Pack(cs[..i])
    {
      var component := Component(pieces[i]);
      versionnum, index := PackPiece(versionnum, index, component);
      PackPrefix(cs, i);
      i := i + 1;
    }
    assert cs[..i] == cs;
    PackIsLastRound(cs);
    if versionnum == 0 {
      versionnum := FALLBACK_VERSION;
    }
  }

  /** The body of the `getline` loop: place the component by the counter,
      then advance the 8-bit counter. It exists only to name that loop
      body, which `PackStep` specifies, so that `CalcVersion` can reason
      about one turn at a time. */
  method PackPiece(versionnum: bv32, index: nat, component: bv32) returns (versionnum': bv32, index': nat)
    ensures PackState(versionnum', index') == PackStep(PackState(versionnum, index), component)
  {
    versionnum' := versionnum;
    if index == 0 {
      versionnum' := component << 16;
    } else if index == 1 {
      versionnum' := versionnum' | (component << 8);
    } else if index == 2 {
      versionnum' := versionnum' | component;
    }
    index' := (index + 1) % 256;
  }

  /** For 32-bit numbers x, y, z the string "x.y.z" encodes as
      (x << 16) | (y << 8) | z in 32 bits, or 10.10.10 when that is 0. */
  lemma VersionOfDottedString(arg: string, x: bv32, y: bv32, z: bv32)
    requires arg == Decimal(x as nat) + "." + Decimal(y as nat) + "." + Decimal(z as nat)
    ensures var packed := (x << 16) | (y << 8) | z;
            VersionFromString(arg) == if packed == 0 then FALLBACK_VERSION else packed
  {
    StringOfThree(arg, x, y, z);
    VersionOfThree(x, y, z);
  }

  lemma StringOfThree(arg: string, x: bv32, y: bv32, z: bv32)
    requires arg == Decimal(x as nat) + "." + Decimal(y as nat) + "." + Decimal(z as nat)
    ensures VersionFromString(arg) == VersionOf([x, y, z])
  {
    PiecesOfNumerals(arg, x as nat, y as nat, z as nat);
    ComponentsOfNumerals(x, y, z);
  }

  lemma PiecesOfNumerals(arg: string, a: nat, b: nat, c: nat)
    requires arg == Decimal(a) + "." + Decimal(b) + "." + Decimal(c)
    ensures Pieces(arg) == [Decimal(a), Decimal(b), Decimal(c)]
  {
    NumeralHasNoDot(a);
    NumeralHasNoDot(b);
    NumeralHasNoDot(c);
    ThreePieces(Decimal(a), Decimal(b), Decimal(c));
  }

  lemma ComponentsOfNumerals(x: bv32, y: bv32, z: bv32)
    ensures Components([Decimal(x as nat), Decimal(y as nat), Decimal(z as nat)]) == [x, y, z]
  {
    ParseDecimal(x as nat);
    ParseDecimal(y as nat);
    ParseDecimal(z as nat);
    ComponentsOfThree(Decimal(x as nat), Decimal(y as nat), Decimal(z as nat));
  }

  lemma ComponentsOfThree(pa: string, pb: string, pc: string)
    ensures Components([pa, pb, pc]) == [Component(pa), Component(pb), Component(pc)]
  {
  }

  lemma VersionOfThree(x: bv32, y: bv32, z: bv32)
    ensures var packed := (x << 16) | (y << 8) | z;
            VersionOf([x, y, z]) == if packed == 0 then FALLBACK_VERSION else packed
  {
    var cs := [x, y, z];
    DottedOfThree(x, y, z);
    VersionOfDotted(cs);
  }

  lemma DottedOfThree(x: bv32, y: bv32, z: bv32)
    ensures DottedValue([x, y, z]) == (x << 16) | (y << 8) | z
  {
    var cs := [x, y, z];
    assert ComponentOrZero(cs, 0) == x && ComponentOrZero(cs, 1) == y && ComponentOrZero(cs, 2) == z;
  }

  lemma NumeralHasNoDot(n: nat)
    ensures '.' !in Decimal(n)
  {
  }
}
