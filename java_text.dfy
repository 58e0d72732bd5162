/**
 * The parts of `java.lang.String`, `java.lang.Integer` and `java.util.Formatter`
 * that the colour converter relies on, stated over `string` (`seq<char>`).
 */
module JavaText {
  import opened Wrappers

  // ---------------------------------------------------------------------------
  // String.trim()
  // ---------------------------------------------------------------------------

  /** `String.trim()` removes every character whose code is at most U+0020. */
  predicate IsTrimmable(c: char) {
    c <= ' '
  }

  /** A string with no trimmable character at either end. */
  predicate Trimmed(s: string) {
    s == [] || (!IsTrimmable(s[0]) && !IsTrimmable(s[|s| - 1]))
  }

  /** `s` without its leading trimmable characters. */
  function TrimStart(s: string): (r: string)
    ensures |r| <= |s|
  {
    if s != [] && IsTrimmable(s[0]) then TrimStart(s[1..]) else s
  }

  /** `s` without its trailing trimmable characters. */
  function TrimEnd(s: string): (r: string)
    ensures |r| <= |s|
  {
    if s != [] && IsTrimmable(s[|s| - 1]) then TrimEnd(s[..|s| - 1]) else s
  }

  /** `String.trim()`: `s` without its leading and trailing trimmable characters. */
  function Trim(s: string): (r: string)
    ensures |r| <= |s|
  {
    TrimEnd(TrimStart(s))
  }

  /** `TrimStart` drops a run of trimmable characters and stops at the first other one. */
  lemma {:induction false} TrimStartSpec(s: string)
    ensures var r := TrimStart(s);
      |r| <= |s| && r == s[|s| - |r|..]
      && (r == [] || !IsTrimmable(r[0]))
      && (forall i :: 0 <= i < |s| - |r| ==> IsTrimmable(s[i]))
  {
    if s != [] && IsTrimmable(s[0]) {
      TrimStartSpec(s[1..]);
    }
  }

  /** `TrimEnd` drops a run of trimmable characters at the end and stops at the last other one. */
  lemma {:induction false} TrimEndSpec(s: string)
    ensures var r := TrimEnd(s);
      |r| <= |s| && r == s[..|r|]
      && (r == [] || !IsTrimmable(r[|r| - 1]))
      && (forall i :: |r| <= i < |s| ==> IsTrimmable(s[i]))
  {
    if s != [] && IsTrimmable(s[|s| - 1]) {
      TrimEndSpec(s[..|s| - 1]);
    }
  }

  /**
   * What trimming removes: `Trim(s)` has no trimmable character at either end,
   * and is the slice of `s` after its `k` leading trimmable characters, with
   * only trimmable characters after it.
   */
  lemma TrimIsSlice(s: string)
    ensures Trimmed(Trim(s))
    ensures var k := |s| - |TrimStart(s)|; var r := Trim(s);
      k + |r| <= |s| && r == s[k..k + |r|]
      && (forall i :: 0 <= i < k ==> IsTrimmable(s[i]))
      && (forall i :: k + |r| <= i < |s| ==> IsTrimmable(s[i]))
  {
    var t := TrimStart(s);
    var r := TrimEnd(t);
    var k := |s| - |t|;
    TrimStartSpec(s);
    TrimEndSpec(t);
    assert t == s[k..];
    assert r == t[..|r|];
    assert r == s[k..k + |r|];
    forall i | k + |r| <= i < |s|
      ensures IsTrimmable(s[i])
    {
      assert s[i] == t[i - k];
    }
  }

  /** Trimming a string that is already trimmed changes nothing. */
  lemma TrimOfTrimmed(s: string)
    requires Trimmed(s)
    ensures Trim(s) == s
  {
    assert TrimStart(s) == s;
    assert TrimEnd(s) == s;
  }

  /** Trimming is idempotent. */
  lemma TrimIdempotent(s: string)
    ensures Trim(Trim(s)) == Trim(s)
  {
    TrimIsSlice(s);
    TrimOfTrimmed(Trim(s));
  }

  // ---------------------------------------------------------------------------
  // String.startsWith / String.endsWith
  // ---------------------------------------------------------------------------

  /** `s.endsWith(suffix)`. (`s.startsWith(prefix)` is Dafny's `prefix <= s`.) */
  predicate EndsWith(s: string, suffix: string) {
    |suffix| <= |s| && s[|s| - |suffix|..] == suffix
  }

  // ---------------------------------------------------------------------------
  // String.split(",")
  // ---------------------------------------------------------------------------

  /** The pieces joined back together with a comma between each two. */
  function JoinCommas(parts: seq<string>): string {
    if parts == [] then ""
    else if |parts| == 1 then parts[0]
    else parts[0] + "," + JoinCommas(parts[1..])
  }

  /** Every field of `s` between commas, in order, empty ones included. */
  function Fields(s: string): (r: seq<string>)
    ensures |r| >= 1
    ensures forall i :: 0 <= i < |r| ==> ',' !in r[i]
  {
    if s == [] then [""]
    else
      var rest := Fields(s[1..]);
      if s[0] == ',' then [""] + rest
      else [[s[0]] + rest[0]] + rest[1..]
  }

  /** There is one more field than there are commas. */
  function CommaCount(s: string): nat {
    if s == [] then 0 else (if s[0] == ',' then 1 else 0) + CommaCount(s[1..])
  }

  /** The fields of `s`, joined with commas, give back `s`; there are as many fields as commas plus one. */
  lemma {:induction false} FieldsJoin(s: string)
    ensures JoinCommas(Fields(s)) == s
    ensures |Fields(s)| == CommaCount(s) + 1
  {
    if s != [] {
      FieldsJoin(s[1..]);
      var rest := Fields(s[1..]);
      if s[0] == ',' {
        assert Fields(s) == [""] + rest;
        assert ([""] + rest)[1..] == rest;
      } else {
        var r := Fields(s);
        assert r[0] == [s[0]] + rest[0] && r[1..] == rest[1..];
        if |rest| == 1 {
          assert JoinCommas(r) == [s[0]] + rest[0];
        } else {
          assert JoinCommas(r) == [s[0]] + rest[0] + "," + JoinCommas(rest[1..]);
          assert JoinCommas(rest) == rest[0] + "," + JoinCommas(rest[1..]);
        }
      }
    }
  }

  /** `parts` with its trailing empty strings removed. */
  function DropTrailingEmpty(parts: seq<string>): (r: seq<string>)
    ensures |r| <= |parts| && r == parts[..|r|]
    ensures r == [] || r[|r| - 1] != ""
    ensures forall i :: |r| <= i < |parts| ==> parts[i] == ""
  {
    if parts != [] && parts[|parts| - 1] == "" then DropTrailingEmpty(parts[..|parts| - 1]) else parts
  }

  /**
   * `s.split(",")`: without a comma the whole string is the one piece (so
   * `"".split(",")` has one empty piece); otherwise the fields between commas,
   * with the trailing empty ones discarded.
   */
  function Split(s: string): (r: seq<string>)
    ensures forall i :: 0 <= i < |r| ==> ',' !in r[i]
    ensures ',' !in s ==> r == [s]
    ensures ',' in s ==> r == DropTrailingEmpty(Fields(s))
  {
    if ',' !in s then [s] else DropTrailingEmpty(Fields(s))
  }

  /** The pieces of a split, joined back with commas, give back the input up to commas dropped at its end. */
  lemma SplitJoin(s: string)
    ensures exists n: nat :: JoinCommas(Split(s)) + Repeat(',', n) == s
  {
    FieldsJoin(s);
    if ',' in s {
      var f := Fields(s);
      var r := DropTrailingEmpty(f);
      var n := |f| - |r|;
      JoinDropped(f, r);
      assert JoinCommas(r) + Repeat(',', if r == [] then n - 1 else n) == s;
    } else {
      assert JoinCommas(Split(s)) + Repeat(',', 0) == s;
    }
  }

  /** `n` copies of `c`. */
  function Repeat(c: char, n: nat): (r: string)
    ensures |r| == n && forall i :: 0 <= i < n ==> r[i] == c
  {
    if n == 0 then "" else [c] + Repeat(c, n - 1)
  }

  /** Joining a list that ends in empty strings adds one comma per dropped empty string. */
  lemma {:induction false} JoinDropped(f: seq<string>, r: seq<string>)
    requires |f| >= 1 && |r| <= |f| && r == f[..|r|]
    requires forall i :: |r| <= i < |f| ==> f[i] == ""
    ensures r != [] ==> JoinCommas(r) + Repeat(',', |f| - |r|) == JoinCommas(f)
    ensures r == [] ==> Repeat(',', |f| - 1) == JoinCommas(f)
    decreases |f|
  {
    if |f| == |r| {
      assert f == r;
    } else {
      var g := f[..|f| - 1];
      if |g| >= 1 {
        assert g[..|r|] == r;
        JoinDropped(g, r);
        JoinAppendEmpty(g);
        assert f == g + [""];
        if r != [] {
          assert Repeat(',', |f| - |r|) == Repeat(',', |g| - |r|) + ",";
        } else {
          assert Repeat(',', |f| - 1) == Repeat(',', |g| - 1) + ",";
        }
      } else {
        assert f == [""];
        assert r == [];
      }
    }
  }

  /** Appending an empty piece appends one comma. */
  lemma {:induction false} JoinAppendEmpty(g: seq<string>)
    requires |g| >= 1
    ensures JoinCommas(g + [""]) == JoinCommas(g) + ","
    decreases |g|
  {
    if |g| > 1 {
      assert (g + [""])[1..] == g[1..] + [""];
      JoinAppendEmpty(g[1..]);
    }
  }

  /** A piece without a comma is a single field. */
  lemma {:induction false} FieldsNoComma(a: string)
    requires ',' !in a
    ensures Fields(a) == [a]
  {
    if a != [] {
      FieldsNoComma(a[1..]);
      assert [a[0]] + a[1..] == a;
    }
  }

  /** A comma-free piece followed by a comma is the first field, and the fields of the rest follow. */
  lemma {:induction false} FieldsAppend(a: string, t: string)
    requires ',' !in a
    ensures Fields(a + "," + t) == [a] + Fields(t)
  {
    if a == [] {
      assert ("" + "," + t)[1..] == t;
    } else {
      assert (a + "," + t)[1..] == a[1..] + "," + t;
      FieldsAppend(a[1..], t);
      assert [a[0]] + a[1..] == a;
    }
  }

  /** The fields of comma-free pieces joined with commas are those pieces. */
  lemma {:induction false} FieldsOfJoin(parts: seq<string>)
    requires |parts| >= 1 && forall i :: 0 <= i < |parts| ==> ',' !in parts[i]
    ensures Fields(JoinCommas(parts)) == parts
  {
    if |parts| == 1 {
      FieldsNoComma(parts[0]);
    } else {
      FieldsOfJoin(parts[1..]);
      FieldsAppend(parts[0], JoinCommas(parts[1..]));
      assert [parts[0]] + parts[1..] == parts;
    }
  }

  /**
   * `split(",")` undoes joining with commas, when no piece holds a comma and
   * the last piece is not empty (or is the only one).
   */
  lemma SplitOfJoin(parts: seq<string>)
    requires |parts| >= 1 && forall i :: 0 <= i < |parts| ==> ',' !in parts[i]
    requires |parts| == 1 || parts[|parts| - 1] != ""
    ensures Split(JoinCommas(parts)) == parts
  {
    FieldsOfJoin(parts);
    if |parts| > 1 {
      assert JoinCommas(parts) == parts[0] + "," + JoinCommas(parts[1..]);
      assert JoinCommas(parts)[|parts[0]|] == ',';
    }
  }

  /** A comma at the end of a non-empty string only adds an empty field, which `split` discards. */
  lemma SplitTrailingComma(s: string)
    requires s != ""
    ensures Split(s + ",") == Split(s)
  {
    var f := Fields(s);
    FieldsJoin(s);
    JoinAppendEmpty(f);
    FieldsOfJoin(f + [""]);
    assert (f + [""])[..|f|] == f;
    assert ',' in s + "," by {
      assert (s + ",")[|s|] == ',';
    }
    if ',' !in s {
      FieldsNoComma(s);
    }
  }

  // ---------------------------------------------------------------------------
  // String.toLowerCase(Locale.ENGLISH)
  // ---------------------------------------------------------------------------

  /** The KELVIN SIGN, the one character outside ASCII whose lower case is an ASCII letter ('k'). */
  const KelvinSign: char := '\U{212A}'

  /** The lower case of one character, for A-Z and the Kelvin sign; every other character is kept. */
  function LowerChar(c: char): (r: char)
    ensures 'A' <= c <= 'Z' ==> r as int == c as int + 32
    ensures !('A' <= r <= 'Z')
    ensures c == KelvinSign ==> r == 'k'
    ensures c != KelvinSign && !('A' <= c <= 'Z') ==> r == c
  {
    if 'A' <= c <= 'Z' then (c as int + 32) as char
    else if c == KelvinSign then 'k'
    else c
  }

  /** `s.toLowerCase(Locale.ENGLISH)`, character by character. */
  function ToLower(s: string): (r: string)
    ensures |r| == |s|
  {
    seq(|s|, i requires 0 <= i < |s| => LowerChar(s[i]))
  }

  /**
   * What lower-casing does to each character: no upper-case ASCII letter is
   * left, A-Z move down to a-z, the Kelvin sign becomes 'k', and every other
   * character stays where it is.
   */
  lemma ToLowerSpec(s: string)
    ensures forall i :: 0 <= i < |s| ==> !('A' <= ToLower(s)[i] <= 'Z')
    ensures forall i :: 0 <= i < |s| && 'A' <= s[i] <= 'Z' ==> ToLower(s)[i] as int == s[i] as int + 32
    ensures forall i :: 0 <= i < |s| && s[i] == KelvinSign ==> ToLower(s)[i] == 'k'
    ensures forall i :: 0 <= i < |s| && s[i] != KelvinSign && !('A' <= s[i] <= 'Z') ==> ToLower(s)[i] == s[i]
  {
  }

  /** Lower-casing twice is lower-casing once. */
  lemma ToLowerIdempotent(s: string)
    ensures ToLower(ToLower(s)) == ToLower(s)
  {
  }

  // ---------------------------------------------------------------------------
  // Integer.parseInt(String)
  // ---------------------------------------------------------------------------

  const IntMin: int := -0x8000_0000
  const IntMax: int := 0x7FFF_FFFF

  predicate IsDigit(c: char) {
    '0' <= c <= '9'
  }

  predicate AllDigits(s: string) {
    forall i :: 0 <= i < |s| ==> IsDigit(s[i])
  }

  /** The value of a string of decimal digits (leading zeros allowed). */
  function DigitsValue(s: string): nat
    requires AllDigits(s)
  {
    if s == [] then 0 else 10 * DigitsValue(s[..|s| - 1]) + (s[|s| - 1] as int - '0' as int)
  }

  /**
   * `Integer.parseInt(s)`: an optional '+' or '-', then one or more decimal
   * digits, whose value must fit in 32-bit `int`; `None` stands for the
   * `NumberFormatException` thrown otherwise.
   */
  function ParseInt(s: string): (r: Option<int>)
    ensures r.Some? ==> IntMin <= r.value <= IntMax
    ensures s == [] || s == "+" || s == "-" ==> r.None?
  {
    if s == [] then None
    else
      var digits := if s[0] == '-' || s[0] == '+' then s[1..] else s;
      if digits == [] || !AllDigits(digits) then None
      else
        var magnitude: int := DigitsValue(digits);
        var v := if s[0] == '-' then -magnitude else magnitude;
        if IntMin <= v <= IntMax then Some(v) else None
  }

  /** The decimal digits of `n`, without leading zeros. */
  function Decimal(n: nat): (r: string)
    ensures r != [] && AllDigits(r)
  {
    if n < 10 then [('0' as int + n) as char]
    else Decimal(n / 10) + [('0' as int + n % 10) as char]
  }

  /** Decimal digits denote the number they were written from. */
  lemma {:induction false} DecimalValue(n: nat)
    ensures DigitsValue(Decimal(n)) == n
  {
    if n >= 10 {
      DecimalValue(n / 10);
      var d := Decimal(n);
      assert d[..|d| - 1] == Decimal(n / 10);
    }
  }

  /** How Java prints an `int` in decimal: a '-' for negatives, then the digits of the magnitude. */
  function IntToString(n: int): string {
    if n < 0 then "-" + Decimal(-n) else Decimal(n)
  }

  /** Parsing a printed `int` gives it back; a '+' in front changes nothing. */
  lemma ParseIntRoundTrip(n: int)
    requires IntMin <= n <= IntMax
    ensures ParseInt(IntToString(n)) == Some(n)
    ensures n >= 0 ==> ParseInt("+" + IntToString(n)) == Some(n)
  {
    var m := if n < 0 then -n else n;
    DecimalValue(m);
    var d := Decimal(m);
    if n < 0 {
      assert ("-" + d)[1..] == d;
    } else {
      assert ("+" + d)[1..] == d;
    }
  }

  /**
   * Any character that is not a decimal digit, other than one sign in front,
   * is a `NumberFormatException`: "1.5", "12px" and " 7" are all rejected.
   */
  lemma ParseIntRejectsNonDigit(s: string, i: nat)
    requires i < |s| && !IsDigit(s[i]) && !(i == 0 && (s[0] == '+' || s[0] == '-'))
    ensures ParseInt(s) == None
  {
    if s[0] == '-' || s[0] == '+' {
      assert s[1..][i - 1] == s[i];
    }
  }

  /**
   * A value outside 32-bit range is a `NumberFormatException`, however it is
   * written: above `IntMax` with or without '+', below `IntMin` with '-'.
   */
  lemma ParseIntOverflow(n: nat)
    requires n > IntMax
    ensures ParseInt(Decimal(n)) == None
    ensures ParseInt("+" + Decimal(n)) == None
    ensures n > -IntMin ==> ParseInt("-" + Decimal(n)) == None
  {
    DecimalValue(n);
    assert ("+" + Decimal(n))[1..] == Decimal(n);
    assert ("-" + Decimal(n))[1..] == Decimal(n);
  }

  // ---------------------------------------------------------------------------
  // String.format("%02X", n) for 0 <= n <= 255
  // ---------------------------------------------------------------------------

  /** An `int` in 0..255, the range `%02X` prints as exactly two digits. */
  type Byte = n: int | 0 <= n <= 255

  predicate IsUpperHexDigit(c: char) {
    '0' <= c <= '9' || 'A' <= c <= 'F'
  }

  predicate IsLowerHexDigit(c: char) {
    '0' <= c <= '9' || 'a' <= c <= 'f'
  }

  predicate IsHexDigit(c: char) {
    IsUpperHexDigit(c) || IsLowerHexDigit(c)
  }

  /** The upper-case hexadecimal digit for 0..15. */
  function HexChar(d: int): (c: char)
    requires 0 <= d < 16
    ensures IsUpperHexDigit(c)
  {
    if d < 10 then ('0' as int + d) as char else ('A' as int + d - 10) as char
  }

  /** The value of a hexadecimal digit of either case. */
  function HexDigitValue(c: char): (v: int)
    requires IsHexDigit(c)
    ensures 0 <= v < 16
  {
    if '0' <= c <= '9' then c as int - '0' as int
    else if 'A' <= c <= 'F' then c as int - 'A' as int + 10
    else c as int - 'a' as int + 10
  }

  /** `String.format("%02X", n)`: exactly two upper-case hex digits, high digit first. */
  function Hex2(n: Byte): (r: string)
    ensures |r| == 2 && IsUpperHexDigit(r[0]) && IsUpperHexDigit(r[1])
  {
    [HexChar(n / 16), HexChar(n % 16)]
  }

  /** The byte two hexadecimal digits denote. */
  function Hex2Value(s: string): int
    requires |s| == 2 && IsHexDigit(s[0]) && IsHexDigit(s[1])
  {
    16 * HexDigitValue(s[0]) + HexDigitValue(s[1])
  }

  /** Reading back the two digits of `%02X` gives the number that was formatted. */
  lemma Hex2RoundTrip(n: Byte)
    ensures Hex2Value(Hex2(n)) == n
  {
  }

  /** `%02X` is one-to-one on 0..255. */
  lemma Hex2Injective(m: Byte, n: Byte)
    ensures Hex2(m) == Hex2(n) ==> m == n
  {
    Hex2RoundTrip(m);
    Hex2RoundTrip(n);
  }
}
