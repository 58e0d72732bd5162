/**
 * What `colorSvg2Vd` promises, stated on `Converted`, the function the method
 * `ColorSvg2Vd` is proved to compute.
 */
module SvgColorProperties {
  import opened Wrappers
  import opened JavaText
  import opened SvgColor

  // ---------------------------------------------------------------------------
  // '#' values
  // ---------------------------------------------------------------------------

  /** "#RGBA" becomes "#ARGB": digit `k` of the result is digit `(k + 3) % 4` of the input. */
  lemma HexShortForm(svgColorValue: string, keywords: map<string, string>,
                     roundedPercent: string -> Option<int>)
    requires var c := Trim(svgColorValue); "#" <= c && |c| == 5
    ensures var c := Trim(svgColorValue);
      Converted(svgColorValue, keywords, roundedPercent) == Ok(Some("#" + c[4..] + c[1..4]))
    ensures var c := Trim(svgColorValue); var s := "#" + c[4..] + c[1..4];
      |s| == 5 && s[0] == '#' && forall j :: 1 <= j < 5 ==> s[j] == c[1 + (j + 2) % 4]
  {
    var c := Trim(svgColorValue);
    assert ReorderHex(c) == "#" + c[4..] + c[1..4] by {
      assert c[1..][3..] == c[4..] && c[1..][..3] == c[1..4];
    }
    var s := "#" + c[4..] + c[1..4];
    forall j | 1 <= j < 5
      ensures s[j] == c[1 + (j + 2) % 4]
    {
      RotateModulo(j - 1);
    }
  }

  /** "#RRGGBBAA" becomes "#AARRGGBB": the alpha pair moves in front of the colour pairs. */
  lemma HexLongForm(svgColorValue: string, keywords: map<string, string>,
                    roundedPercent: string -> Option<int>)
    requires var c := Trim(svgColorValue); "#" <= c && |c| == 9
    ensures var c := Trim(svgColorValue);
      Converted(svgColorValue, keywords, roundedPercent) == Ok(Some("#" + c[7..] + c[1..7]))
    ensures var c := Trim(svgColorValue); var s := "#" + c[7..] + c[1..7];
      |s| == 9 && s[0] == '#' && s[1..3] == c[7..9] && s[3..9] == c[1..7]
  {
    var c := Trim(svgColorValue);
    assert ReorderHex(c) == "#" + c[7..] + c[1..7] by {
      assert c[1..][6..] == c[7..] && c[1..][..6] == c[1..7];
    }
    var s := "#" + c[7..] + c[1..7];
    assert s[1..3] == c[7..9];
    assert s[3..9] == c[1..7];
  }

  /** A '#' value of any other length is returned trimmed but otherwise as it is. */
  lemma HexOtherLengths(svgColorValue: string, keywords: map<string, string>,
                        roundedPercent: string -> Option<int>)
    requires var c := Trim(svgColorValue); "#" <= c && |c| != 5 && |c| != 9
    ensures Converted(svgColorValue, keywords, roundedPercent) == Ok(Some(Trim(svgColorValue)))
  {
  }

  /**
   * A '#' value never throws and never gives `null`: its result has the same
   * length and the same characters, possibly reordered, and starts with '#'.
   */
  lemma HexIsPermutation(svgColorValue: string, keywords: map<string, string>,
                         roundedPercent: string -> Option<int>)
    requires "#" <= Trim(svgColorValue)
    ensures var r := Converted(svgColorValue, keywords, roundedPercent); var c := Trim(svgColorValue);
      r.Ok? && r.value.Some? && |r.value.value| == |c| && r.value.value[0] == '#'
      && multiset(r.value.value) == multiset(c)
  {
    ReorderHexPermutation(Trim(svgColorValue));
  }

  /** Reordering keeps the '#', the length and the characters. */
  lemma ReorderHexPermutation(c: string)
    requires "#" <= c
    ensures |ReorderHex(c)| == |c| && ReorderHex(c)[0] == '#' && multiset(ReorderHex(c)) == multiset(c)
  {
    assert c[0] == '#';
    if |c| == 5 || |c| == 9 {
      var t := c[1..];
      var w := if |c| == 5 then 1 else 2;
      assert ReorderHex(c) == "#" + AlphaFirst(t, w);
      AlphaFirstPermutation(t, w);
      assert c == "#" + t;
    }
  }

  /** Moving the alpha part to the front only reorders the elements. */
  lemma AlphaFirstPermutation<T>(s: seq<T>, w: nat)
    requires w <= |s|
    ensures multiset(AlphaFirst(s, w)) == multiset(s)
  {
    assert s == s[..|s| - w] + s[|s| - w..];
  }

  /** Moving the alpha digits back to the end recovers the trimmed input. */
  lemma HexReorderUndone(svgColorValue: string, keywords: map<string, string>,
                         roundedPercent: string -> Option<int>)
    requires var c := Trim(svgColorValue); "#" <= c && (|c| == 5 || |c| == 9)
    ensures var r := Converted(svgColorValue, keywords, roundedPercent); var c := Trim(svgColorValue);
      r.Ok? && r.value.Some? && |r.value.value| == |c|
      && "#" + AlphaLast(r.value.value[1..], (|c| - 1) / 4) == c
  {
    var c := Trim(svgColorValue);
    var w := (|c| - 1) / 4;
    AlphaRoundTrip(c[1..], w);
    assert ("#" + AlphaFirst(c[1..], w))[1..] == AlphaFirst(c[1..], w);
    assert c == "#" + c[1..];
  }

  // ---------------------------------------------------------------------------
  // none
  // ---------------------------------------------------------------------------

  /** `none` is fully transparent black: alpha, red, green and blue all zero. */
  lemma NoneIsTransparent(svgColorValue: string, keywords: map<string, string>,
                          roundedPercent: string -> Option<int>)
    requires Trim(svgColorValue) == "none"
    ensures Converted(svgColorValue, keywords, roundedPercent) == Ok(Some(Transparent))
    ensures Transparent == HexColor([0, 0, 0, 0])
  {
    assert Trim(svgColorValue)[0] == 'n';
    TransparentIsZero();
  }

  /** "#00000000" is the colour whose four components are zero. */
  lemma TransparentIsZero()
    ensures Transparent == HexColor([0, 0, 0, 0])
  {
    assert Hex2(0) == "00";
    var z1: seq<Byte> := [0];
    var z2: seq<Byte> := [0, 0];
    var z3: seq<Byte> := [0, 0, 0];
    var z4: seq<Byte> := [0, 0, 0, 0];
    assert z2[..1] == z1 && z3[..2] == z2 && z4[..3] == z3;
    assert HexString(z1) == "00";
    assert HexString(z2) == "0000";
    assert HexString(z3) == "000000";
    assert HexString(z4) == "00000000";
  }

  // ---------------------------------------------------------------------------
  // rgb(r,g,b) and rgba(r,g,b,a)
  // ---------------------------------------------------------------------------

  /** No value takes both functional branches: "rgba(" and "rgb(" differ in their fourth character. */
  lemma FunctionalFormsDisjoint(color: string)
    ensures !(IsFunctional(color, "rgb") && IsFunctional(color, "rgba"))
  {
    if "rgb(" <= color {
      assert color[3] == "rgb("[3];
    }
    if "rgba(" <= color {
      assert color[3] == "rgba("[3];
    }
  }

  /**
   * A sequence of component results collects exactly when each one is `Ok`,
   * and then digits `2k+1` and `2k+2` of the colour are component `k`.
   */
  lemma {:induction false} CollectHex(rs: seq<Result<Byte>>, message: string)
    ensures Collect(rs, message).Ok? <==> forall k :: 0 <= k < |rs| ==> rs[k].Ok?
    ensures Collect(rs, message).Ok? ==>
      forall k :: 0 <= k < |rs| ==> HexColor(Collect(rs, message).value)[1 + 2 * k..3 + 2 * k] == Hex2(rs[k].value)
  {
    CollectOkIff(rs, message);
    var r := Collect(rs, message);
    if r.Ok? {
      CollectAt(rs, message);
      forall k | 0 <= k < |rs|
        ensures HexColor(r.value)[1 + 2 * k..3 + 2 * k] == Hex2(rs[k].value)
      {
        HexStringAt(r.value, k);
        assert HexColor(r.value)[1 + 2 * k..3 + 2 * k] == HexString(r.value)[2 * k..2 * k + 2];
      }
    }
  }

  /** Parsing the rotated arguments is rotating the parsed components. */
  lemma ComponentResultsRotate(parts: seq<string>, svgColorValue: string,
                               roundedPercent: string -> Option<int>)
    requires |parts| >= 1
    ensures ComponentResults(AlphaFirst(parts, 1), svgColorValue, roundedPercent)
         == AlphaFirst(ComponentResults(parts, svgColorValue, roundedPercent), 1)
  {
    var lhs := ComponentResults(AlphaFirst(parts, 1), svgColorValue, roundedPercent);
    var rhs := AlphaFirst(ComponentResults(parts, svgColorValue, roundedPercent), 1);
    assert |lhs| == |rhs|;
    forall k | 0 <= k < |lhs|
      ensures lhs[k] == rhs[k]
    {
      if k == 0 {
        assert AlphaFirst(parts, 1)[0] == parts[|parts| - 1];
      } else {
        assert AlphaFirst(parts, 1)[k] == parts[k - 1];
      }
    }
  }

  /**
   * `rgb(...)`: an exception carrying the value unless the arguments split
   * into exactly three parts that each parse; then "#RRGGBB" with the
   * components in their written order. `rs[k]` is the component parsed from
   * part `k` (the postcondition of `ComponentResults`).
   */
  lemma RgbOutcome(svgColorValue: string, keywords: map<string, string>,
                   roundedPercent: string -> Option<int>)
    requires IsFunctional(Trim(svgColorValue), "rgb")
    ensures var parts := Split(Arguments(Trim(svgColorValue), "rgb"));
      var rs := ComponentResults(parts, svgColorValue, roundedPercent);
      var r := Converted(svgColorValue, keywords, roundedPercent);
      && (r.Ok? <==> |parts| == 3 && forall k :: 0 <= k < 3 ==> rs[k].Ok?)
      && (r.IllegalArgument? ==> r.message == svgColorValue)
      && (r.Ok? ==>
            && r.value.Some? && |r.value.value| == 7 && r.value.value[0] == '#'
            && forall k :: 0 <= k < 3 ==> r.value.value[1 + 2 * k..3 + 2 * k] == Hex2(rs[k].value))
  {
    var c := Trim(svgColorValue);
    ConvertedRgb(svgColorValue, keywords, roundedPercent);
    var parts := Split(Arguments(c, "rgb"));
    if |parts| == 3 {
      var rs := ComponentResults(parts, svgColorValue, roundedPercent);
      assert ComponentValues(parts, svgColorValue, roundedPercent) == Collect(rs, svgColorValue);
      CollectHex(rs, svgColorValue);
    }
  }

  /** A trimmed `rgb(...)` value is converted by the `rgb` branch. */
  lemma ConvertedRgb(svgColorValue: string, keywords: map<string, string>,
                     roundedPercent: string -> Option<int>)
    requires IsFunctional(Trim(svgColorValue), "rgb")
    ensures Converted(svgColorValue, keywords, roundedPercent)
         == RgbColor(Arguments(Trim(svgColorValue), "rgb"), svgColorValue, roundedPercent)
  {
    assert Trim(svgColorValue)[0] == 'r';
  }

  /** Moving the last of four elements to the front: position `k` then holds element `(k + 3) % 4`. */
  lemma RotationIndex<T>(xs: seq<T>)
    requires |xs| == 4
    ensures forall k :: 0 <= k < 4 ==> AlphaFirst(xs, 1)[k] == xs[(k + 3) % 4]
  {
    forall k | 0 <= k < 4
      ensures AlphaFirst(xs, 1)[k] == xs[(k + 3) % 4]
    {
      RotateModulo(k);
    }
  }

  /** Rotating four results leaves them all `Ok` exactly when they were. */
  lemma RotationAllOk(rs: seq<Result<Byte>>)
    requires |rs| == 4
    ensures (forall k :: 0 <= k < 4 ==> AlphaFirst(rs, 1)[k].Ok?) <==> (forall k :: 0 <= k < 4 ==> rs[k].Ok?)
  {
    var rotated := AlphaFirst(rs, 1);
    if forall k :: 0 <= k < 4 ==> rotated[k].Ok? {
      forall k | 0 <= k < 4
        ensures rs[k].Ok?
      {
        assert rs[k] == rotated[if k == 3 then 0 else k + 1];
      }
    }
  }

  /** Two sequences of results that succeed alike and agree on their values collect alike. */
  lemma {:induction false} CollectAlike<T>(rs1: seq<Result<T>>, rs2: seq<Result<T>>, m1: string, m2: string)
    requires |rs1| == |rs2|
    requires forall k :: 0 <= k < |rs1| ==> rs1[k].Ok? == rs2[k].Ok?
    requires forall k :: 0 <= k < |rs1| ==> rs1[k].Ok? ==> rs1[k].value == rs2[k].value
    ensures Collect(rs1, m1).Ok? == Collect(rs2, m2).Ok?
    ensures Collect(rs1, m1).Ok? ==> Collect(rs1, m1).value == Collect(rs2, m2).value
  {
    if rs1 != [] {
      var n := |rs1| - 1;
      CollectAlike(rs1[..n], rs2[..n], m1, m2);
    }
  }

  /** Whether the components parse, and their values, do not depend on the message the exception would carry. */
  lemma FunctionalColorMessage(parts: seq<string>, v1: string, v2: string,
                               roundedPercent: string -> Option<int>)
    ensures FunctionalColor(parts, v1, roundedPercent).Ok? == FunctionalColor(parts, v2, roundedPercent).Ok?
    ensures FunctionalColor(parts, v1, roundedPercent).Ok? ==>
              FunctionalColor(parts, v1, roundedPercent) == FunctionalColor(parts, v2, roundedPercent)
  {
    var rs1 := ComponentResults(parts, v1, roundedPercent);
    var rs2 := ComponentResults(parts, v2, roundedPercent);
    CollectAlike(rs1, rs2, v1, v2);
  }

  /**
   * `rgb(args,)` converts exactly when `rgb(args)` does, and to the same
   * colour: `split` drops the trailing empty argument.
   */
  lemma RgbTrailingComma(args: string, keywords: map<string, string>,
                         roundedPercent: string -> Option<int>)
    ensures var plain := Converted("rgb(" + args + ")", keywords, roundedPercent);
      var comma := Converted("rgb(" + args + ",)", keywords, roundedPercent);
      comma.Ok? == plain.Ok? && (comma.Ok? ==> comma == plain)
  {
    var plain := "rgb(" + args + ")";
    var comma := "rgb(" + args + ",)";
    assert comma == "rgb(" + (args + ",") + ")";
    RgbArguments(args);
    RgbArguments(args + ",");
    if args == "" {
      assert plain == "rgb()" && comma == "rgb(,)";
      EmptyRgbThrows(keywords, roundedPercent);
    } else {
      SplitTrailingComma(args);
      var parts := Split(args);
      FunctionalColorMessage(parts, plain, comma, roundedPercent);
    }
  }

  /** `rgb()` has the one part "" and `rgb(,)` none: both throw. */
  lemma EmptyRgbThrows(keywords: map<string, string>, roundedPercent: string -> Option<int>)
    ensures Converted("rgb()", keywords, roundedPercent) == IllegalArgument("rgb()")
    ensures Converted("rgb(,)", keywords, roundedPercent) == IllegalArgument("rgb(,)")
  {
    RgbArguments("");
    RgbArguments(",");
    assert "rgb(" + "" + ")" == "rgb()";
    assert "rgb(" + "," + ")" == "rgb(,)";
    assert Split("") == [""];
    FieldsJoin(",");
    assert |Split(",")| <= 2;
  }

  /** The text `rgb(args)` is trimmed, takes the `rgb` branch and has `args` as its arguments. */
  lemma RgbArguments(args: string)
    ensures var color := "rgb(" + args + ")";
      Trim(color) == color && IsFunctional(color, "rgb") && Arguments(color, "rgb") == args
      && !("#" <= color) && color != "none"
  {
    var color := "rgb(" + args + ")";
    assert color[0] == 'r' && color[|color| - 1] == ')';
    TrimOfTrimmed(color);
    assert "rgb(" <= color;
    assert color[|color| - 1..] == ")";
    assert color[4..|color| - 1] == args;
  }

  /**
   * `rgba(...)`: an exception carrying the value unless the arguments split
   * into exactly four parts that each parse; then "#AARRGGBB", where
   * component `k` of the result is the one parsed from part `(k + 3) % 4`.
   */
  lemma RgbaOutcome(svgColorValue: string, keywords: map<string, string>,
                    roundedPercent: string -> Option<int>)
    requires IsFunctional(Trim(svgColorValue), "rgba")
    ensures var parts := Split(Arguments(Trim(svgColorValue), "rgba"));
      var rs := ComponentResults(parts, svgColorValue, roundedPercent);
      var r := Converted(svgColorValue, keywords, roundedPercent);
      && (r.Ok? <==> |parts| == 4 && forall k :: 0 <= k < 4 ==> rs[k].Ok?)
      && (r.IllegalArgument? ==> r.message == svgColorValue)
      && (r.Ok? ==>
            && r.value.Some? && |r.value.value| == 9 && r.value.value[0] == '#'
            && forall k :: 0 <= k < 4 ==> r.value.value[1 + 2 * k..3 + 2 * k] == Hex2(rs[(k + 3) % 4].value))
  {
    var c := Trim(svgColorValue);
    ConvertedRgba(svgColorValue, keywords, roundedPercent);
    var parts := Split(Arguments(c, "rgba"));
    if |parts| == 4 {
      var rs := ComponentResults(parts, svgColorValue, roundedPercent);
      var rotated := AlphaFirst(rs, 1);
      ComponentResultsRotate(parts, svgColorValue, roundedPercent);
      assert ComponentValues(AlphaFirst(parts, 1), svgColorValue, roundedPercent) == Collect(rotated, svgColorValue);
      RotatedHex(rs, svgColorValue);
    }
  }

  /** A trimmed `rgba(...)` value takes the `rgba` branch, never the `rgb` one. */
  lemma ConvertedRgba(svgColorValue: string, keywords: map<string, string>,
                      roundedPercent: string -> Option<int>)
    requires IsFunctional(Trim(svgColorValue), "rgba")
    ensures Converted(svgColorValue, keywords, roundedPercent)
         == RgbaColor(Arguments(Trim(svgColorValue), "rgba"), svgColorValue, roundedPercent)
  {
    var c := Trim(svgColorValue);
    assert c[0] == 'r';
    FunctionalFormsDisjoint(c);
  }

  /**
   * Four results collected alpha first: they collect exactly when all four
   * parse, and then digits `2k+1`, `2k+2` are result `(k + 3) % 4`.
   */
  lemma RotatedHex(rs: seq<Result<Byte>>, message: string)
    requires |rs| == 4
    ensures var c := Collect(AlphaFirst(rs, 1), message);
      && (c.Ok? <==> forall k :: 0 <= k < 4 ==> rs[k].Ok?)
      && (c.Ok? ==> forall k :: 0 <= k < 4 ==> HexColor(c.value)[1 + 2 * k..3 + 2 * k] == Hex2(rs[(k + 3) % 4].value))
  {
    var rotated := AlphaFirst(rs, 1);
    CollectHex(rotated, message);
    RotationIndex(rs);
    RotationAllOk(rs);
    var collected := Collect(rotated, message);
    if collected.Ok? {
      var vs := collected.value;
      forall k | 0 <= k < 4
        ensures HexColor(vs)[1 + 2 * k..3 + 2 * k] == Hex2(rs[(k + 3) % 4].value)
      {
        assert rotated[k] == rs[(k + 3) % 4];
      }
    }
  }

  // ---------------------------------------------------------------------------
  // Trimming
  // ---------------------------------------------------------------------------

  /**
   * Surrounding whitespace changes nothing but the exception message: the
   * trimmed value converts exactly when the value does, and to the same result.
   */
  lemma SurroundingWhitespaceIgnored(svgColorValue: string, keywords: map<string, string>,
                                     roundedPercent: string -> Option<int>)
    ensures var trimmed := Converted(Trim(svgColorValue), keywords, roundedPercent);
      var r := Converted(svgColorValue, keywords, roundedPercent);
      trimmed.Ok? == r.Ok? && (r.Ok? ==> trimmed == r)
  {
    var c := Trim(svgColorValue);
    TrimIdempotent(svgColorValue);
    if "#" <= c || c == "none" {
    } else if IsFunctional(c, "rgb") {
      var parts := Split(Arguments(c, "rgb"));
      assert Converted(c, keywords, roundedPercent) == RgbColor(Arguments(c, "rgb"), c, roundedPercent);
      assert Converted(svgColorValue, keywords, roundedPercent) == RgbColor(Arguments(c, "rgb"), svgColorValue, roundedPercent);
      FunctionalColorMessage(parts, c, svgColorValue, roundedPercent);
    } else if IsFunctional(c, "rgba") {
      var parts := Split(Arguments(c, "rgba"));
      assert Converted(c, keywords, roundedPercent) == RgbaColor(Arguments(c, "rgba"), c, roundedPercent);
      assert Converted(svgColorValue, keywords, roundedPercent) == RgbaColor(Arguments(c, "rgba"), svgColorValue, roundedPercent);
      if |parts| == 4 {
        FunctionalColorMessage(AlphaFirst(parts, 1), c, svgColorValue, roundedPercent);
      }
    }
  }

  // ---------------------------------------------------------------------------
  // Colour keywords
  // ---------------------------------------------------------------------------

  /** The sample entries have the shape of the SVG keyword table. */
  lemma SampleKeywordsWellFormed()
    ensures KeywordTable(SampleKeywords)
  {
    assert SampleKeywords.Keys == {"aliceblue", "black", "red", "white", "yellowgreen"};
    SampleKeysAreKeywords();
    SampleValuesAreColours();
  }

  /** The five sample names are lower-case ASCII words, as every key of the table is. */
  lemma SampleKeysAreKeywords()
    ensures IsKeyword("aliceblue") && IsKeyword("black") && IsKeyword("red")
    ensures IsKeyword("white") && IsKeyword("yellowgreen")
  {
    assert IsKeyword("aliceblue");
    assert IsKeyword("yellowgreen");
  }

  /** The five sample values are '#' and six lower-case hex digits, as every value of the table is. */
  lemma SampleValuesAreColours()
    ensures IsRgbTableValue("#f0f8ff") && IsRgbTableValue("#000000") && IsRgbTableValue("#ff0000")
    ensures IsRgbTableValue("#ffffff") && IsRgbTableValue("#9acd32")
  {
    assert IsRgbTableValue("#f0f8ff");
    assert IsRgbTableValue("#9acd32");
  }

  /**
   * A real table entry written in another case and surrounded by blanks:
   * `" Red "` converts to the entry of "red".
   */
  lemma SampleKeywordAnyCase(roundedPercent: string -> Option<int>)
    ensures Converted(" Red ", SampleKeywords, roundedPercent) == Ok(Some("#ff0000"))
  {
    SampleKeywordsWellFormed();
    assert TrimStart(" Red ") == "Red ";
    assert Trim(" Red ") == "Red";
    assert ToLower("Red") == "red";
    KeywordCaseInsensitive(" Red ", SampleKeywords, roundedPercent);
  }

  /** Any other value is the table entry for its lower-case form, or `null`. */
  lemma KeywordBranch(svgColorValue: string, keywords: map<string, string>,
                      roundedPercent: string -> Option<int>)
    requires KeywordCandidate(Trim(svgColorValue))
    ensures Converted(svgColorValue, keywords, roundedPercent) == Ok(Lookup(keywords, ToLower(Trim(svgColorValue))))
  {
  }

  /**
   * A keyword of the table written in any mix of cases converts to its table
   * entry; only the literal `none` is taken by the branch before.
   */
  lemma KeywordCaseInsensitive(svgColorValue: string, keywords: map<string, string>,
                               roundedPercent: string -> Option<int>)
    requires KeywordTable(keywords)
    requires ToLower(Trim(svgColorValue)) in keywords && Trim(svgColorValue) != "none"
    ensures Converted(svgColorValue, keywords, roundedPercent)
         == Ok(Some(keywords[ToLower(Trim(svgColorValue))]))
  {
    var c := Trim(svgColorValue);
    var key := ToLower(c);
    assert IsKeyword(key);
    assert 'a' <= key[0] <= 'z';
    assert c[0] != '#';
    if |c| >= 4 {
      assert 'a' <= key[3] <= 'z';
      assert c[3] != '(';
    }
    if |c| >= 5 {
      assert 'a' <= key[4] <= 'z';
      assert c[4] != '(';
    }
  }

  /** Two spellings that differ only in case convert alike when both reach the table. */
  lemma KeywordSpellingsAgree(v1: string, v2: string, keywords: map<string, string>,
                              roundedPercent: string -> Option<int>)
    requires KeywordCandidate(Trim(v1)) && KeywordCandidate(Trim(v2))
    requires ToLower(Trim(v1)) == ToLower(Trim(v2))
    ensures Converted(v1, keywords, roundedPercent) == Converted(v2, keywords, roundedPercent)
  {
  }

  /** `null` comes only from a value that reaches the table and is not in it. */
  lemma NullOnlyForUnknownKeywords(svgColorValue: string, keywords: map<string, string>,
                                   roundedPercent: string -> Option<int>)
    ensures Converted(svgColorValue, keywords, roundedPercent) == Ok(None)
        <==> KeywordCandidate(Trim(svgColorValue)) && ToLower(Trim(svgColorValue)) !in keywords
  {
  }

  // ---------------------------------------------------------------------------
  // Exceptions and the shape of the results
  // ---------------------------------------------------------------------------

  /** Only the functional forms throw, and the exception always carries the untrimmed value. */
  lemma ErrorsComeFromFunctionalForms(svgColorValue: string, keywords: map<string, string>,
                                      roundedPercent: string -> Option<int>)
    ensures var r := Converted(svgColorValue, keywords, roundedPercent);
      r.IllegalArgument? ==>
        (IsFunctional(Trim(svgColorValue), "rgb") || IsFunctional(Trim(svgColorValue), "rgba"))
        && r.message == svgColorValue
  {
  }

  /** The vector-drawable colour forms "#RRGGBB" and "#AARRGGBB". */
  predicate IsVdColor(s: string) {
    (|s| == 7 || |s| == 9) && s[0] == '#' && forall i :: 1 <= i < |s| ==> IsHexDigit(s[i])
  }

  /** The digits of a converted colour are all hexadecimal digits. */
  lemma HexColorDigits(vals: seq<Byte>)
    ensures forall i :: 1 <= i < |HexColor(vals)| ==> IsUpperHexDigit(HexColor(vals)[i])
  {
    HexStringDigits(vals);
    assert forall i :: 1 <= i < |HexColor(vals)| ==> HexColor(vals)[i] == HexString(vals)[i - 1];
  }

  /**
   * Every value that is not a '#' value converts, if at all, to a well-formed
   * vector-drawable colour. ('#' values are passed through unchecked.)
   */
  lemma WellFormedOutput(svgColorValue: string, keywords: map<string, string>,
                         roundedPercent: string -> Option<int>)
    requires KeywordTable(keywords)
    requires !("#" <= Trim(svgColorValue))
    ensures var r := Converted(svgColorValue, keywords, roundedPercent);
      r.Ok? && r.value.Some? ==> IsVdColor(r.value.value)
  {
    var c := Trim(svgColorValue);
    var r := Converted(svgColorValue, keywords, roundedPercent);
    if r.Ok? && r.value.Some? {
      if c == "none" {
        assert r.value.value == Transparent;
      } else if IsFunctional(c, "rgb") {
        var parts := Split(Arguments(c, "rgb"));
        HexColorDigits(ComponentValues(parts, svgColorValue, roundedPercent).value);
      } else if IsFunctional(c, "rgba") {
        var parts := Split(Arguments(c, "rgba"));
        HexColorDigits(ComponentValues(AlphaFirst(parts, 1), svgColorValue, roundedPercent).value);
      } else {
        var v := keywords[ToLower(c)];
        assert IsRgbTableValue(v);
        assert r.value.value == v;
      }
    }
  }

  // ---------------------------------------------------------------------------
  // clampColor and getColorComponent
  // ---------------------------------------------------------------------------

  /** `Math.max(0, Math.min(255, val))`, written with Java's two library calls. */
  function JavaMax(a: int, b: int): int { if a >= b then a else b }
  function JavaMin(a: int, b: int): int { if a <= b then a else b }

  /** `clampColor` agrees with its Java formulation, and clamping twice is clamping once. */
  lemma ClampColorProperties(val: int)
    ensures ClampColor(val) == JavaMax(0, JavaMin(255, val))
    ensures ClampColor(ClampColor(val)) == ClampColor(val)
  {
  }

  /** Clamping is monotone: a larger value never gives a smaller component. */
  lemma ClampColorMonotone(a: int, b: int)
    requires a <= b
    ensures ClampColor(a) <= ClampColor(b)
  {
  }

  /** A printed `int` component is parsed and clamped; it never throws. */
  lemma ComponentOfInteger(n: int, svgColorValue: string, roundedPercent: string -> Option<int>)
    requires IntMin <= n <= IntMax
    ensures GetColorComponent(IntToString(n), svgColorValue, roundedPercent) == Ok(ClampColor(n))
  {
    ParseIntRoundTrip(n);
    var s := IntToString(n);
    var d := Decimal(if n < 0 then -n else n);
    assert s[|s| - 1] == d[|d| - 1];
    assert IsDigit(s[|s| - 1]);
    assert s[|s| - 1..] != "%";
  }

  /**
   * Without a trailing '%' a component is read by `Integer.parseInt`: it
   * converts exactly when the text parses, to the clamped value, and throws
   * otherwise.
   */
  lemma ComponentOfNonPercent(s: string, svgColorValue: string, roundedPercent: string -> Option<int>)
    requires !EndsWith(s, "%")
    ensures GetColorComponent(s, svgColorValue, roundedPercent).Ok? <==> ParseInt(s).Some?
    ensures ParseInt(s).Some? ==> GetColorComponent(s, svgColorValue, roundedPercent) == Ok(ClampColor(ParseInt(s).value))
    ensures ParseInt(s).None? ==> GetColorComponent(s, svgColorValue, roundedPercent) == IllegalArgument(svgColorValue)
  {
  }

  /** A component with a character that is neither a digit nor a leading sign, and no '%' at the end, throws. */
  lemma ComponentRejectsNonDigit(s: string, i: nat, svgColorValue: string, roundedPercent: string -> Option<int>)
    requires !EndsWith(s, "%")
    requires i < |s| && !IsDigit(s[i]) && !(i == 0 && (s[0] == '+' || s[0] == '-'))
    ensures GetColorComponent(s, svgColorValue, roundedPercent) == IllegalArgument(svgColorValue)
  {
    ParseIntRejectsNonDigit(s, i);
  }

  /**
   * A component beyond the 32-bit range, above or below, is not clamped but
   * throws: the `NumberFormatException` of `Integer.parseInt` becomes the
   * exception.
   */
  lemma ComponentOverflow(n: nat, svgColorValue: string, roundedPercent: string -> Option<int>)
    requires n > IntMax
    ensures GetColorComponent(Decimal(n), svgColorValue, roundedPercent) == IllegalArgument(svgColorValue)
    ensures n > -IntMin ==>
      GetColorComponent("-" + Decimal(n), svgColorValue, roundedPercent) == IllegalArgument(svgColorValue)
  {
    ParseIntOverflow(n);
    var d := Decimal(n);
    assert IsDigit(d[|d| - 1]);
    assert d[|d| - 1..] != "%";
    var m := "-" + d;
    assert m[|m| - 1] == d[|d| - 1];
    assert m[|m| - 1..] != "%";
  }

  /** A percentage is rounded by `roundedPercent` and then clamped like an integer. */
  lemma ComponentOfPercent(p: string, svgColorValue: string, roundedPercent: string -> Option<int>)
    ensures GetColorComponent(p + "%", svgColorValue, roundedPercent)
         == match roundedPercent(p)
            case Some(v) => Ok(ClampColor(v))
            case None => IllegalArgument(svgColorValue)
  {
    assert (p + "%")[..|p|] == p;
    assert (p + "%")[|p|..] == "%";
  }
}
