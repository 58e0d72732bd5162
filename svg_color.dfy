/**
 * Conversion of an SVG colour value to the "#RRGGBB" / "#AARRGGBB" form
 * used by vector drawables (class `SvgColor`).
 *
 * Two collaborators are parameters: the table of SVG 1.1 colour keywords
 * (section 4.4 of SVG 1.1, "Recognized color keyword names"), of which only
 * its shape is modelled, and the floating-point reading of a percentage.
 */
module SvgColor {
  import opened Wrappers
  import opened JavaText

  // ---------------------------------------------------------------------------
  // The colour keyword table
  // ---------------------------------------------------------------------------

  /** A keyword: a non-empty run of lower-case ASCII letters. */
  predicate IsKeyword(k: string) {
    |k| > 0 && forall i :: 0 <= i < |k| ==> 'a' <= k[i] <= 'z'
  }

  /** A table value: '#' and six lower-case hexadecimal digits. */
  predicate IsRgbTableValue(v: string) {
    |v| == 7 && v[0] == '#' && forall i :: 1 <= i < 7 ==> IsLowerHexDigit(v[i])
  }

  /** The shape of the keyword table the converter looks colour names up in. */
  predicate KeywordTable(m: map<string, string>) {
    forall k :: k in m ==> IsKeyword(k) && IsRgbTableValue(m[k])
  }

  /**
   * Five real entries of the SVG 1.1 keyword table: they show that
   * `KeywordTable` is met by the table's own entries (`SampleKeywordsWellFormed`)
   * and give the lookup a concrete instance (`SampleKeywordAnyCase`).
   */
  const SampleKeywords: map<string, string> :=
    map["aliceblue" := "#f0f8ff", "black" := "#000000", "red" := "#ff0000",
        "white" := "#ffffff", "yellowgreen" := "#9acd32"]

  /** `Map.get`: the entry for `key`, or `None` for Java's `null`. */
  function Lookup(m: map<string, string>, key: string): (r: Option<string>)
    ensures r.Some? <==> key in m
    ensures r.Some? ==> r.value == m[key]
  {
    if key in m then Some(m[key]) else None
  }

  // ---------------------------------------------------------------------------
  // clampColor and getColorComponent
  // ---------------------------------------------------------------------------

  /** `clampColor`: the nearest value in 0..255. */
  function ClampColor(val: int): (r: Byte)
    ensures 0 <= val <= 255 ==> r == val
    ensures val < 0 ==> r == 0
    ensures val > 255 ==> r == 255
  {
    if val < 0 then 0 else if val > 255 then 255 else val
  }

  /**
   * `getColorComponent`: a component written as a percentage ("50%") or as an
   * integer, clamped to 0..255; a component that does not parse throws an
   * `IllegalArgumentException` carrying the whole SVG colour value.
   * `roundedPercent(p)` stands for `Math.round(Float.parseFloat(p) * 255f / 100f)`,
   * with `None` for the `NumberFormatException` of `Float.parseFloat`.
   */
  function GetColorComponent(colorComponent: string, svgColorValue: string,
                             roundedPercent: string -> Option<int>): (r: Result<Byte>)
    ensures r.IllegalArgument? ==> r.message == svgColorValue
  {
    if EndsWith(colorComponent, "%") then
      match roundedPercent(colorComponent[..|colorComponent| - 1])
      case Some(v) => Ok(ClampColor(v))
      case None => IllegalArgument(svgColorValue)
    else
      match ParseInt(colorComponent)
      case Some(v) => Ok(ClampColor(v))
      case None => IllegalArgument(svgColorValue)
  }

  // ---------------------------------------------------------------------------
  // Specification of colorSvg2Vd
  // ---------------------------------------------------------------------------

  /** The value `none` converts to: fully transparent black. */
  const Transparent: string := "#00000000"

  /** `s` with its last `w` elements moved to the front (alpha-last to alpha-first). */
  function AlphaFirst<T>(s: seq<T>, w: nat): (r: seq<T>)
    requires w <= |s|
    ensures |r| == |s|
    ensures forall i :: 0 <= i < w ==> r[i] == s[|s| - w + i]
    ensures forall i :: w <= i < |s| ==> r[i] == s[i - w]
  {
    s[|s| - w..] + s[..|s| - w]
  }

  /** `s` with its first `w` elements moved to the back (alpha-first to alpha-last). */
  function AlphaLast<T>(s: seq<T>, w: nat): (r: seq<T>)
    requires w <= |s|
    ensures |r| == |s|
  {
    s[w..] + s[..w]
  }

  /** Moving the alpha part to the front and back again restores the sequence. */
  lemma AlphaRoundTrip<T>(s: seq<T>, w: nat)
    requires w <= |s|
    ensures AlphaLast(AlphaFirst(s, w), w) == s
    ensures AlphaFirst(AlphaLast(s, w), w) == s
  {
    assert AlphaLast(AlphaFirst(s, w), w) == s[..|s| - w] + s[|s| - w..];
    assert AlphaFirst(AlphaLast(s, w), w) == s[..w] + s[w..];
  }

  /**
   * A '#'-prefixed value: the CSS forms "#RGBA" and "#RRGGBBAA" get their
   * alpha digits moved to the front; every other length is kept as it is.
   */
  function ReorderHex(color: string): (r: string)
    ensures |r| == |color|
    ensures "#" <= color ==> "#" <= r
  {
    if |color| == 5 then "#" + AlphaFirst(color[1..], 1)
    else if |color| == 9 then "#" + AlphaFirst(color[1..], 2)
    else color
  }

  /** `color.startsWith(name + "(") && color.endsWith(")")`. */
  predicate IsFunctional(color: string, name: string) {
    name + "(" <= color && EndsWith(color, ")")
  }

  /** The text between the parentheses of a functional colour. */
  function Arguments(color: string, name: string): (r: string)
    requires IsFunctional(color, name)
    ensures |r| == |color| - |name| - 2
  {
    assert color[|name|] == (name + "(")[|name|] == '(';
    color[|name| + 1..|color| - 1]
  }

  /** A trimmed value that none of the hex, `none`, `rgb(...)` and `rgba(...)` branches takes. */
  predicate KeywordCandidate(color: string) {
    !("#" <= color) && color != "none" && !IsFunctional(color, "rgb") && !IsFunctional(color, "rgba")
  }

  /**
   * The values of a sequence of results, in order, when every one of them is
   * `Ok`; otherwise `IllegalArgument(message)`.
   */
  function Collect<T>(rs: seq<Result<T>>, message: string): (r: Result<seq<T>>)
    ensures r.Ok? ==> |r.value| == |rs|
    ensures r.IllegalArgument? ==> r.message == message
  {
    if rs == [] then Ok([])
    else
      match Collect(rs[..|rs| - 1], message)
      case IllegalArgument(m) => IllegalArgument(m)
      case Ok(vs) =>
        match rs[|rs| - 1]
        case IllegalArgument(_) => IllegalArgument(message)
        case Ok(v) => Ok(vs + [v])
  }

  /** The results collect exactly when each of them is `Ok`. */
  lemma {:induction false} CollectOkIff<T>(rs: seq<Result<T>>, message: string)
    ensures Collect(rs, message).Ok? <==> forall k :: 0 <= k < |rs| ==> rs[k].Ok?
  {
    if rs != [] {
      var init := rs[..|rs| - 1];
      CollectOkIff(init, message);
      if !Collect(init, message).Ok? {
        var j :| 0 <= j < |init| && !init[j].Ok?;
        assert !rs[j].Ok?;
      }
    }
  }

  /** When they collect, value `k` is the value of result `k`. */
  lemma {:induction false} CollectAt<T>(rs: seq<Result<T>>, message: string)
    requires Collect(rs, message).Ok?
    ensures forall k :: 0 <= k < |rs| ==> rs[k] == Ok(Collect(rs, message).value[k])
  {
    if rs != [] {
      var init := rs[..|rs| - 1];
      CollectAt(init, message);
    }
  }

  /** One more result: the values so far and its own, or the exception. */
  lemma CollectStep<T>(rs: seq<Result<T>>, i: nat, message: string)
    requires i < |rs| && Collect(rs[..i], message).Ok?
    ensures Collect(rs[..i + 1], message)
        == if rs[i].Ok? then Ok(Collect(rs[..i], message).value + [rs[i].value])
           else IllegalArgument(message)
  {
    assert rs[..i + 1][..i] == rs[..i];
  }

  /** Once a prefix of the results fails, so does the whole sequence. */
  lemma {:induction false} CollectPrefixError<T>(rs: seq<Result<T>>, i: nat, message: string)
    requires i <= |rs| && Collect(rs[..i], message).IllegalArgument?
    ensures Collect(rs, message) == IllegalArgument(message)
    decreases |rs| - i
  {
    if i < |rs| {
      assert rs[..i + 1][..i] == rs[..i];
      CollectPrefixError(rs, i + 1, message);
    } else {
      assert rs[..i] == rs;
    }
  }

  /** The component parsed from each argument (trimmed first), in order. */
  function ComponentResults(parts: seq<string>, svgColorValue: string,
                            roundedPercent: string -> Option<int>): (rs: seq<Result<Byte>>)
    ensures |rs| == |parts|
    ensures forall k :: 0 <= k < |parts| ==> rs[k] == GetColorComponent(Trim(parts[k]), svgColorValue, roundedPercent)
  {
    seq(|parts|, k requires 0 <= k < |parts| => GetColorComponent(Trim(parts[k]), svgColorValue, roundedPercent))
  }

  /**
   * The integer value of each argument, in order, when every argument parses;
   * otherwise the `IllegalArgumentException` carrying the colour value.
   */
  function ComponentValues(parts: seq<string>, svgColorValue: string,
                           roundedPercent: string -> Option<int>): (r: Result<seq<Byte>>)
    ensures r.Ok? ==> |r.value| == |parts|
    ensures r.IllegalArgument? ==> r.message == svgColorValue
  {
    Collect(ComponentResults(parts, svgColorValue, roundedPercent), svgColorValue)
  }

  /** Each byte as its two upper-case hexadecimal digits, in order. */
  function HexString(vals: seq<Byte>): (r: string)
    ensures |r| == 2 * |vals|
  {
    if vals == [] then ""
    else
      HexString(vals[..|vals| - 1]) + Hex2(vals[|vals| - 1])
  }

  /** Byte `i` occupies digits `2 * i` and `2 * i + 1`. */
  lemma {:induction false} HexStringAt(vals: seq<Byte>, i: nat)
    requires i < |vals|
    ensures HexString(vals)[2 * i..2 * i + 2] == Hex2(vals[i])
  {
    var init := vals[..|vals| - 1];
    if i < |init| {
      HexStringAt(init, i);
      assert HexString(vals) == HexString(init) + Hex2(vals[|vals| - 1]);
    }
  }

  /** Every digit of the hex string is an upper-case hexadecimal digit. */
  lemma {:induction false} HexStringDigits(vals: seq<Byte>)
    ensures forall j :: 0 <= j < |HexString(vals)| ==> IsUpperHexDigit(HexString(vals)[j])
  {
    if vals != [] {
      HexStringDigits(vals[..|vals| - 1]);
    }
  }

  /** A converted colour: '#' and two upper-case hex digits per component. */
  function HexColor(vals: seq<Byte>): (r: string)
    ensures |r| == 1 + 2 * |vals| && r[0] == '#'
  {
    "#" + HexString(vals)
  }

  /** The colour built from the components in the order `parts` lists them, or the exception. */
  function FunctionalColor(parts: seq<string>, svgColorValue: string,
                           roundedPercent: string -> Option<int>): (r: Result<Option<string>>)
    ensures r.Ok? ==> r.value.Some? && |r.value.value| == 1 + 2 * |parts|
    ensures r.IllegalArgument? ==> r.message == svgColorValue
  {
    match ComponentValues(parts, svgColorValue, roundedPercent)
    case Ok(vs) => Ok(Some(HexColor(vs)))
    case IllegalArgument(m) => IllegalArgument(m)
  }

  /** The `rgb(...)` branch on the text between the parentheses: three components, in order. */
  function RgbColor(arguments: string, svgColorValue: string,
                    roundedPercent: string -> Option<int>): (r: Result<Option<string>>)
    ensures r.Ok? ==> r.value.Some? && |r.value.value| == 7
    ensures r.IllegalArgument? ==> r.message == svgColorValue
  {
    var parts := Split(arguments);
    if |parts| != 3 then IllegalArgument(svgColorValue)
    else FunctionalColor(parts, svgColorValue, roundedPercent)
  }

  /** The `rgba(...)` branch on the text between the parentheses: four components, alpha first. */
  function RgbaColor(arguments: string, svgColorValue: string,
                     roundedPercent: string -> Option<int>): (r: Result<Option<string>>)
    ensures r.Ok? ==> r.value.Some? && |r.value.value| == 9
    ensures r.IllegalArgument? ==> r.message == svgColorValue
  {
    var parts := Split(arguments);
    if |parts| != 4 then IllegalArgument(svgColorValue)
    else FunctionalColor(AlphaFirst(parts, 1), svgColorValue, roundedPercent)
  }

  /**
   * What `colorSvg2Vd` returns for `svgColorValue`: `Ok(Some(c))` for a
   * converted colour, `Ok(None)` for Java's `null` (not a colour), or the
   * `IllegalArgumentException` it throws.
   */
  function Converted(svgColorValue: string, keywords: map<string, string>,
                     roundedPercent: string -> Option<int>): (r: Result<Option<string>>)
    ensures r.IllegalArgument? ==> r.message == svgColorValue
  {
    var color := Trim(svgColorValue);
    if "#" <= color then Ok(Some(ReorderHex(color)))
    else if color == "none" then Ok(Some(Transparent))
    else if IsFunctional(color, "rgb") then RgbColor(Arguments(color, "rgb"), svgColorValue, roundedPercent)
    else if IsFunctional(color, "rgba") then RgbaColor(Arguments(color, "rgba"), svgColorValue, roundedPercent)
    else Ok(Lookup(keywords, ToLower(color)))
  }

  // ---------------------------------------------------------------------------
  // colorSvg2Vd
  // ---------------------------------------------------------------------------

  /**
   * `colorSvg2Vd`: trim, then try the hex forms, `none`, `rgb(r,g,b)`,
   * `rgba(r,g,b,a)` and finally the keyword table, in that order. The two
   * functional forms append the components one by one; `rgba` visits its
   * arguments in the order 3, 0, 1, 2, so alpha comes first.
   */
  method ColorSvg2Vd(svgColorValue: string, keywords: map<string, string>,
                     roundedPercent: string -> Option<int>) returns (r: Result<Option<string>>)
    ensures r == Converted(svgColorValue, keywords, roundedPercent)
  {
    var color := Trim(svgColorValue);

    if "#" <= color {
      assert Converted(svgColorValue, keywords, roundedPercent) == Ok(Some(ReorderHex(color)));
      if |color| == 5 {
        assert ReorderHex(color) == "#" + color[4..] + color[1..4] by {
          assert color[1..][3..] == color[4..] && color[1..][..3] == color[1..4];
        }
        return Ok(Some("#" + color[4..] + color[1..4]));
      } else if |color| == 9 {
        assert ReorderHex(color) == "#" + color[7..] + color[1..7] by {
          assert color[1..][6..] == color[7..] && color[1..][..6] == color[1..7];
        }
        return Ok(Some("#" + color[7..] + color[1..7]));
      }
      return Ok(Some(color));
    }

    if color == "none" {
      return Ok(Some("#00000000"));
    }

    if "rgb(" <= color && EndsWith(color, ")") {
      assert color[3] == '(' && color[|color| - 1] == ')';
      var rgb := color[4..|color| - 1];
      assert rgb == Arguments(color, "rgb");
      r := RgbBranch(rgb, svgColorValue, roundedPercent);
      return;
    }

    if "rgba(" <= color && EndsWith(color, ")") {
      assert color[4] == '(' && color[|color| - 1] == ')';
      var rgb := color[5..|color| - 1];
      assert rgb == Arguments(color, "rgba");
      r := RgbaBranch(rgb, svgColorValue, roundedPercent);
      return;
    }

    return Ok(Lookup(keywords, ToLower(color)));
  }

  /**
   * The `rgb` branch after the parentheses are stripped: split at commas,
   * insist on three parts, then append '#' and each component as `%02X`.
   */
  method RgbBranch(rgb: string, svgColorValue: string,
                   roundedPercent: string -> Option<int>) returns (r: Result<Option<string>>)
    ensures r == RgbColor(rgb, svgColorValue, roundedPercent)
  {
    var numbers := Split(rgb);
    if |numbers| != 3 {
      return IllegalArgument(svgColorValue);
    }
    var builder := "#";
    ghost var results := ComponentResults(numbers, svgColorValue, roundedPercent);
    ghost var values: seq<Byte> := [];
    for i := 0 to 3
      invariant Collect(results[..i], svgColorValue) == Ok(values)
      invariant builder == HexColor(values)
    {
      var component := GetColorComponent(Trim(numbers[i]), svgColorValue, roundedPercent);
      CollectHexStep(results, i, values, svgColorValue);
      if component.IllegalArgument? {
        return IllegalArgument(svgColorValue);
      }
      values := values + [component.value];
      builder := builder + Hex2(component.value);
    }
    assert results[..3] == results;
    assert |builder| == 7;
    return Ok(Some(builder));
  }

  /**
   * One step of the loops: if result `i` is a component, the values so far
   * extend by it and the colour by its two digits; otherwise the whole
   * sequence fails.
   */
  lemma CollectHexStep(results: seq<Result<Byte>>, i: nat, values: seq<Byte>, message: string)
    requires i < |results| && Collect(results[..i], message) == Ok(values)
    ensures results[i].Ok? ==>
      Collect(results[..i + 1], message) == Ok(values + [results[i].value])
      && HexColor(values + [results[i].value]) == HexColor(values) + Hex2(results[i].value)
    ensures results[i].IllegalArgument? ==> Collect(results, message) == IllegalArgument(message)
  {
    CollectStep(results, i, message);
    if results[i].Ok? {
      HexStringStep(values, results[i].value);
    } else {
      CollectPrefixError(results, i + 1, message);
    }
  }

  /** One more byte appends its two digits. */
  lemma HexStringStep(vals: seq<Byte>, v: Byte)
    ensures HexString(vals + [v]) == HexString(vals) + Hex2(v)
  {
    assert (vals + [v])[..|vals|] == vals;
  }

  /** The index the `rgba` loop reads at step `i`: the last argument first, then the others in order. */
  lemma RotateModulo(i: int)
    requires 0 <= i < 4
    ensures (i + 3) % 4 == if i == 0 then 3 else i - 1
  {
  }

  /**
   * The `rgba` branch after the parentheses are stripped: split at commas,
   * insist on four parts, then append '#' and the components in the order
   * 3, 0, 1, 2 (alpha first), each as `%02X`.
   */
  method RgbaBranch(rgb: string, svgColorValue: string,
                    roundedPercent: string -> Option<int>) returns (r: Result<Option<string>>)
    ensures r == RgbaColor(rgb, svgColorValue, roundedPercent)
  {
    var numbers := Split(rgb);
    if |numbers| != 4 {
      return IllegalArgument(svgColorValue);
    }
    ghost var rotated := AlphaFirst(numbers, 1);
    var builder := "#";
    ghost var results := ComponentResults(rotated, svgColorValue, roundedPercent);
    ghost var values: seq<Byte> := [];
    for i := 0 to 4
      invariant Collect(results[..i], svgColorValue) == Ok(values)
      invariant builder == HexColor(values)
    {
      RotateModulo(i);
      assert rotated[i] == numbers[(i + 3) % 4];
      var component := GetColorComponent(Trim(numbers[(i + 3) % 4]), svgColorValue, roundedPercent);
      CollectHexStep(results, i, values, svgColorValue);
      if component.IllegalArgument? {
        return IllegalArgument(svgColorValue);
      }
      values := values + [component.value];
      builder := builder + Hex2(component.value);
    }
    assert results[..4] == results;
    assert |builder| == 9;
    return Ok(Some(builder));
  }
}
