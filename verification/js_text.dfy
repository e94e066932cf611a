/** The JavaScript text conversions the downloader depends on: the decimal
    rendering of a non-negative integer (`Number.prototype.toString()`),
    `String.prototype.split` with a one-character separator, and the global
    `parseInt` without a radix argument. */
module JsText {

  /** A JavaScript number produced by `parseInt`: an integer, or NaN. */
  datatype JsNumber = Num(value: int) | NaN

  // ---------------------------------------------------------------- digits

  /** The value of `c` as a base-36 digit, or 36 when `c` is no digit at all. */
  function DigitVal(c: char): (v: nat)
    ensures v <= 36
  {
    if '0' <= c <= '9' then c as nat - '0' as nat
    else if 'a' <= c <= 'z' then c as nat - 'a' as nat + 10
    else if 'A' <= c <= 'Z' then c as nat - 'A' as nat + 10
    else 36
  }

  predicate IsDecimalDigit(c: char) {
    '0' <= c <= '9'
  }

  function DigitChar(d: nat): (c: char)
    requires d < 10
    ensures IsDecimalDigit(c) && DigitVal(c) == d
  {
    "0123456789"[d]
  }

  /** The value of a run of digits in the given radix, most significant first. */
  function DigitsValue(d: string, radix: nat): nat
  {
    if |d| == 0 then 0
    else DigitsValue(d[..|d| - 1], radix) * radix + DigitVal(d[|d| - 1])
  }

  // ------------------------------------------------- Number.prototype.toString

  /** Decimal rendering of a non-negative integer, as `n.toString()` gives it
      for integers below 10^21. */
  function NatToString(n: nat): (s: string)
    ensures |s| >= 1
    ensures forall i :: 0 <= i < |s| ==> IsDecimalDigit(s[i])
    ensures s[0] == '0' ==> n == 0 && |s| == 1
  {
    if n < 10 then [DigitChar(n)]
    else NatToString(n / 10) + [DigitChar(n % 10)]
  }

  /** Reading the decimal rendering back gives the number. */
  lemma {:induction false} NatToStringValue(n: nat)
    ensures DigitsValue(NatToString(n), 10) == n
  {
    var s := NatToString(n);
    if n < 10 {
      assert s[..0] == "";
    } else {
      NatToStringValue(n / 10);
      assert s[..|s| - 1] == NatToString(n / 10);
    }
  }

  /** A decimal rendering holds no character other than digits. */
  lemma NatToStringLacks(n: nat, c: char)
    requires !IsDecimalDigit(c)
    ensures c !in NatToString(n)
  {
  }

  // ----------------------------------------------------------- whitespace

  /** The white-space and line-terminator characters `parseInt` skips. */
  predicate IsJsSpace(c: char) {
    var n := c as int;
    n == 0x09 || n == 0x0A || n == 0x0B || n == 0x0C || n == 0x0D || n == 0x20
    || n == 0xA0 || n == 0x1680 || (0x2000 <= n <= 0x200A) || n == 0x2028
    || n == 0x2029 || n == 0x202F || n == 0x205F || n == 0x3000 || n == 0xFEFF
  }

  /** `s` with its leading white space removed. */
  function TrimStart(s: string): (t: string)
    ensures |t| <= |s| && t == s[|s| - |t|..]
    ensures forall i :: 0 <= i < |s| - |t| ==> IsJsSpace(s[i])
    ensures |t| > 0 ==> !IsJsSpace(t[0])
  {
    if |s| > 0 && IsJsSpace(s[0]) then TrimStart(s[1..]) else s
  }

  // ------------------------------------------------------------- parseInt

  /** The longest prefix of `s` made of digits of the given radix. */
  function DigitRun(s: string, radix: nat): (d: string)
    ensures |d| <= |s| && d == s[..|d|]
    ensures forall i :: 0 <= i < |d| ==> DigitVal(d[i]) < radix
    ensures |d| < |s| ==> DigitVal(s[|d|]) >= radix
  {
    if |s| == 0 || DigitVal(s[0]) >= radix then ""
    else [s[0]] + DigitRun(s[1..], radix)
  }

  /** True when `u` starts with the hexadecimal prefix `0x` or `0X`. */
  predicate HasHexPrefix(u: string) {
    |u| >= 2 && u[0] == '0' && (u[1] == 'x' || u[1] == 'X')
  }

  /** `parseInt(s)` with no radix: skip leading white space, read an optional
      sign, switch to base 16 after a `0x`/`0X` prefix, then read the longest
      run of digits; no digits at all gives NaN. */
  function ParseInt(s: string): JsNumber
  {
    var t := TrimStart(s);
    var negative := |t| > 0 && t[0] == '-';
    var u := if |t| > 0 && (t[0] == '-' || t[0] == '+') then t[1..] else t;
    var radix := if HasHexPrefix(u) then 16 else 10;
    var v := if HasHexPrefix(u) then u[2..] else u;
    var d := DigitRun(v, radix);
    if |d| == 0 then NaN
    else if negative then Num(-(DigitsValue(d, radix) as int))
    else Num(DigitsValue(d, radix))
  }

  /** A digit run followed by anything that is not a digit reads back as the run. */
  lemma {:induction false} DigitRunStops(d: string, rest: string, radix: nat)
    requires forall i :: 0 <= i < |d| ==> DigitVal(d[i]) < radix
    requires |rest| == 0 || DigitVal(rest[0]) >= radix
    ensures DigitRun(d + rest, radix) == d
  {
    if |d| > 0 {
      assert (d + rest)[1..] == d[1..] + rest;
      DigitRunStops(d[1..], rest, radix);
    } else {
      assert d + rest == rest;
    }
  }

  /** `parseInt` of a text that starts with a decimal digit other than a
      leading `0x` is the value of its leading decimal digit run. */
  lemma ParseIntOfDigitStart(s: string)
    requires |s| > 0 && IsDecimalDigit(s[0]) && !HasHexPrefix(s)
    ensures ParseInt(s) == Num(DigitsValue(DigitRun(s, 10), 10))
  {
    assert !IsJsSpace(s[0]);
    assert TrimStart(s) == s;
    assert DigitVal(s[0]) < 10;
    assert |DigitRun(s, 10)| > 0;
  }

  /** `parseInt` reads a decimal rendering back, whatever follows it after a
      character that is neither a digit nor a letter. */
  lemma ParseIntOfDecimal(n: nat, rest: string)
    requires |rest| == 0 || DigitVal(rest[0]) == 36
    ensures ParseInt(NatToString(n) + rest) == Num(n)
  {
    var d := NatToString(n);
    var s := d + rest;
    assert s[0] == d[0];
    assert !HasHexPrefix(s) by {
      if |d| == 1 {
        assert |rest| > 0 ==> s[1] == rest[0];
      } else {
        assert s[1] == d[1];
      }
    }
    ParseIntOfDigitStart(s);
    DigitRunStops(d, rest, 10);
    NatToStringValue(n);
  }

  /** A text that starts with neither white space, a sign nor a decimal digit
      has no number in front: `parseInt` gives NaN. */
  lemma ParseIntOfNonNumeric(s: string)
    requires |s| == 0 || (DigitVal(s[0]) >= 10 && !IsJsSpace(s[0]) && s[0] != '-' && s[0] != '+')
    ensures ParseInt(s) == NaN
  {
    assert TrimStart(s) == s;
  }

  /** `parseInt(undefined)` reads the text "undefined", which has no digits. */
  lemma ParseIntOfUndefined()
    ensures ParseInt("undefined") == NaN
  {
    ParseIntOfNonNumeric("undefined");
  }

  // --------------------------------------------------------------- split

  /** Index of the first occurrence of `c` in `s`. */
  function IndexOf(s: string, c: char): (i: nat)
    requires c in s
    ensures i < |s| && s[i] == c && c !in s[..i]
  {
    if s[0] == c then 0 else 1 + IndexOf(s[1..], c)
  }

  /** `s.split(sep)` for a one-character separator: the maximal pieces between
      separators, including empty ones; `"".split(sep)` is `[""]`. */
  function Split(s: string, sep: char): (parts: seq<string>)
    ensures |parts| >= 1
    ensures forall i :: 0 <= i < |parts| ==> sep !in parts[i]
    decreases |s|
  {
    if sep !in s then [s]
    else
      var i := IndexOf(s, sep);
      [s[..i]] + Split(s[i + 1..], sep)
  }

  /** `parts.join(sep)`. */
  function Join(parts: seq<string>, sep: char): string
    requires |parts| >= 1
  {
    if |parts| == 1 then parts[0] else parts[0] + [sep] + Join(parts[1..], sep)
  }

  /** Splitting then joining gives back the text. */
  lemma {:induction false} JoinSplit(s: string, sep: char)
    ensures Join(Split(s, sep), sep) == s
    decreases |s|
  {
    if sep in s {
      var i := IndexOf(s, sep);
      JoinSplit(s[i + 1..], sep);
      assert s == s[..i] + [sep] + s[i + 1..];
    }
  }

  /** Splitting a text with a separator-free head cuts at the first separator. */
  lemma SplitAtFirst(x: string, y: string, sep: char)
    requires sep !in x
    ensures Split(x + [sep] + y, sep) == [x] + Split(y, sep)
  {
    var s := x + [sep] + y;
    assert s[|x|] == sep;
    var i := IndexOf(s, sep);
    if i < |x| {
      assert false;
    }
    if i > |x| {
      assert false;
    }
    assert s[..i] == x;
    assert s[i + 1..] == y;
  }

  /** Joining separator-free pieces then splitting gives back the pieces. */
  lemma {:induction false} SplitJoin(parts: seq<string>, sep: char)
    requires |parts| >= 1
    requires forall i :: 0 <= i < |parts| ==> sep !in parts[i]
    ensures Split(Join(parts, sep), sep) == parts
  {
    if |parts| > 1 {
      SplitJoin(parts[1..], sep);
      SplitAtFirst(parts[0], Join(parts[1..], sep), sep);
      assert [parts[0]] + parts[1..] == parts;
    }
  }
}
