/**
  The few pieces of JavaScript value semantics that the controllers rely on:
  nullable values, `||` defaulting on falsy values, `String.prototype.trim`,
  the global `parseInt` (no radix) and `Math.round` of a ratio of integers.
 */
module Js {

  datatype Option<+T> = None | Some(value: T)

  /** A JavaScript number as produced by `parseInt`: `NaN` or an integer. */
  datatype JsNumber = NaN | Num(n: int)

  /** `x || d` where `x` is a nullable integer: `null`, `undefined` and `0` are falsy. */
  function IntOr(x: Option<int>, d: int): (r: int)
    ensures x.Some? && x.value != 0 ==> r == x.value
    ensures x.None? || x.value == 0 ==> r == d
  {
    if x.Some? && x.value != 0 then x.value else d
  }

  /** `x || d` where `x` is the result of `parseInt`: `NaN` and `0` are falsy. */
  function NumOr(x: JsNumber, d: int): (r: int)
    ensures x.Num? && x.n != 0 ==> r == x.n
    ensures x.NaN? || x.n == 0 ==> r == d
  {
    if x.Num? && x.n != 0 then x.n else d
  }

  /** Truthiness of a request-body string: `undefined` and `""` are falsy. */
  predicate Truthy(s: Option<string>)
  {
    s.Some? && s.value != ""
  }

  /** `s === lit` for a possibly-undefined request-body string. */
  predicate StrictEquals(s: Option<string>, lit: string)
  {
    s.Some? && s.value == lit
  }

  /** The WhiteSpace and LineTerminator code points of ECMAScript, which `trim` and `parseInt` skip. */
  predicate IsWhiteSpace(c: char)
  {
    c == '\t' || c == '\n' || c == '\U{000B}' || c == '\U{000C}' || c == '\r' || c == ' '
    || c == '\U{00A0}' || c == '\U{1680}' || ('\U{2000}' <= c <= '\U{200A}')
    || c == '\U{2028}' || c == '\U{2029}' || c == '\U{202F}' || c == '\U{205F}'
    || c == '\U{3000}' || c == '\U{FEFF}'
  }

  predicate AllWhiteSpace(s: string)
  {
    forall i :: 0 <= i < |s| ==> IsWhiteSpace(s[i])
  }

  /** Drops the leading white space: the result is a suffix of `s` and starts with a non-space. */
  function TrimStart(s: string): (r: string)
    ensures |r| <= |s| && r == s[|s| - |r|..]
    ensures AllWhiteSpace(s[..|s| - |r|])
    ensures r == [] || !IsWhiteSpace(r[0])
  {
    if s != [] && IsWhiteSpace(s[0]) then TrimStart(s[1..]) else s
  }

  /** Drops the trailing white space: the result is a prefix of `s` and ends with a non-space. */
  function TrimEnd(s: string): (r: string)
    ensures |r| <= |s| && r == s[..|r|]
    ensures AllWhiteSpace(s[|r|..])
    ensures r == [] || !IsWhiteSpace(r[|r| - 1])
  {
    if s != [] && IsWhiteSpace(s[|s| - 1]) then TrimEnd(s[..|s| - 1]) else s
  }

  /** `s.trim()` */
  function Trim(s: string): (r: string)
  {
    TrimEnd(TrimStart(s))
  }

  /** A string is blank after `trim()` exactly when every one of its characters is white space. */
  lemma TrimBlank(s: string)
    ensures Trim(s) == [] <==> AllWhiteSpace(s)
  {
    var t := TrimStart(s);
    TrimEndKeepsLeadingText(t);
    assert s == s[..|s| - |t|] + t;
    if AllWhiteSpace(s) {
      TrimStartOfWhiteSpace(s);
    }
  }

  lemma {:induction false} TrimStartOfWhiteSpace(s: string)
    requires AllWhiteSpace(s)
    ensures TrimStart(s) == []
  {
    if s != [] {
      TrimStartOfWhiteSpace(s[1..]);
    }
  }

  lemma {:induction false} TrimEndKeepsLeadingText(t: string)
    ensures t != [] && !IsWhiteSpace(t[0]) ==> TrimEnd(t) != [] && TrimEnd(t)[0] == t[0]
  {
    if |t| > 1 {
      TrimEndKeepsLeadingText(t[..|t| - 1]);
    }
  }

  /** Trimming leaves a string without surrounding white space, inside the original. */
  lemma TrimShape(s: string)
    ensures Trim(s) == [] || (!IsWhiteSpace(Trim(s)[0]) && !IsWhiteSpace(Trim(s)[|Trim(s)| - 1]))
    ensures |Trim(s)| <= |s|
  {
    TrimEndKeepsLeadingText(TrimStart(s));
  }

  // ---------------------------------------------------------------------------
  // parseInt(string) with the radix left undefined

  /** The value of a digit character in base 16 or less; -1 for anything else. */
  function DigitValue(c: char): (v: int)
    ensures -1 <= v < 16
  {
    if '0' <= c <= '9' then c as int - '0' as int
    else if 'a' <= c <= 'f' then c as int - 'a' as int + 10
    else if 'A' <= c <= 'F' then c as int - 'A' as int + 10
    else -1
  }

  predicate IsDigit(c: char, radix: nat)
  {
    0 <= DigitValue(c) < radix
  }

  /** The longest prefix of `s` made only of digits of the radix. */
  function DigitPrefix(s: string, radix: nat): (r: string)
    ensures |r| <= |s| && r == s[..|r|]
    ensures forall i :: 0 <= i < |r| ==> IsDigit(r[i], radix)
    ensures |r| < |s| ==> !IsDigit(s[|r|], radix)
  {
    if s != [] && IsDigit(s[0], radix) then [s[0]] + DigitPrefix(s[1..], radix) else []
  }

  /** The value of a digit string, most significant digit first. */
  function DigitsValue(s: string, radix: nat): (v: nat)
    requires forall i :: 0 <= i < |s| ==> IsDigit(s[i], radix)
  {
    if s == [] then 0
    else
      var last := s[|s| - 1];
      assert IsDigit(last, radix);
      DigitsValue(s[..|s| - 1], radix) * radix + DigitValue(last)
  }

  /**
    `parseInt(x)`: `undefined` is converted to the string "undefined" (hence `NaN`);
    leading white space is skipped, then an optional sign, then an optional `0x`/`0X`
    prefix that selects base 16; the longest run of digits that follows is read and
    anything after it is ignored. No digit at all gives `NaN`.
   */
  function ParseInt(x: Option<string>): (r: JsNumber)
  {
    if x.None? then NaN
    else
      var s := TrimStart(x.value);
      var negative := s != [] && s[0] == '-';
      var unsigned := if s != [] && (s[0] == '-' || s[0] == '+') then s[1..] else s;
      var hex := |unsigned| >= 2 && unsigned[0] == '0' && (unsigned[1] == 'x' || unsigned[1] == 'X');
      var radix := if hex then 16 else 10;
      var body := if hex then unsigned[2..] else unsigned;
      var digits := DigitPrefix(body, radix);
      if digits == [] then NaN
      else
        var magnitude: int := DigitsValue(digits, radix);
        Num(if negative then -magnitude else magnitude)
  }

  /** The decimal representation of a natural number, as `String(n)` writes it. */
  function Decimal(n: nat): (s: string)
    ensures |s| > 0
    ensures forall i :: 0 <= i < |s| ==> '0' <= s[i] <= '9'
    ensures n >= 10 ==> s[0] != '0'
  {
    if n < 10 then [('0' as int + n) as char]
    else Decimal(n / 10) + [('0' as int + n % 10) as char]
  }

  lemma {:induction false} DecimalValue(n: nat)
    ensures forall i :: 0 <= i < |Decimal(n)| ==> IsDigit(Decimal(n)[i], 10)
    ensures DigitsValue(Decimal(n), 10) == n
  {
    if n >= 10 {
      DecimalValue(n / 10);
      var s := Decimal(n);
      assert s[..|s| - 1] == Decimal(n / 10);
    }
  }

  lemma {:induction false} DigitPrefixOfDigits(s: string, radix: nat)
    requires forall i :: 0 <= i < |s| ==> IsDigit(s[i], radix)
    ensures DigitPrefix(s, radix) == s
  {
    if s != [] {
      DigitPrefixOfDigits(s[1..], radix);
    }
  }

  /** `parseInt(String(n)) === n`. */
  lemma ParseIntDecimal(n: nat)
    ensures ParseInt(Some(Decimal(n))) == Num(n)
  {
    var d := Decimal(n);
    DecimalValue(n);
    DigitPrefixOfDigits(d, 10);
    assert d[0] != '-' && d[0] != '+' && !IsWhiteSpace(d[0]);
    assert TrimStart(d) == d;
  }

  /** `parseInt("-" + String(n)) === -n`. */
  lemma ParseIntNegativeDecimal(n: nat)
    ensures ParseInt(Some("-" + Decimal(n))) == Num(0 - n)
  {
    var d := Decimal(n);
    DecimalValue(n);
    DigitPrefixOfDigits(d, 10);
    var m := "-" + d;
    assert !IsWhiteSpace(m[0]);
    assert TrimStart(m) == m;
    assert m[1..] == d;
  }

  // ---------------------------------------------------------------------------
  // Math.round

  /**
    `Math.round(p / q)` for integers with `q > 0`, computed exactly: `Math.round(x)` is
    `floor(x + 1/2)` (halves round up), which is `(2p + q) div 2q` in integer arithmetic.
   */
  function RoundRatio(p: int, q: int): (r: int)
    requires q > 0
    ensures 2 * q * r <= 2 * p + q < 2 * q * r + 2 * q
  {
    var a, b := 2 * p + q, 2 * q;
    assert a == b * (a / b) + a % b;
    a / b
  }

  /** `Math.round((c / t) * 100)` guarded by `t > 0`, else 0: the percentage idiom of the controllers. */
  function Percent(c: int, t: int): (r: int)
  {
    if t > 0 then RoundRatio(100 * c, t) else 0
  }

  /** A percentage of a part over its whole lies in 0..100; all is 100 and none is 0. */
  lemma PercentBounds(c: int, t: int)
    requires 0 <= c <= t
    ensures 0 <= Percent(c, t) <= 100
    ensures t > 0 && c == t ==> Percent(c, t) == 100
    ensures c == 0 ==> Percent(c, t) == 0
  {
    if t > 0 {
      RoundBounds(100 * c, t, 0, 100);
      if c == t { RoundBounds(100 * c, t, 100, 100); }
      if c == 0 { RoundBounds(100 * c, t, 0, 0); }
    }
  }

  /** Rounding a ratio that lies between two whole numbers stays between them. */
  lemma RoundBounds(p: int, q: int, lo: int, hi: int)
    requires q > 0 && lo * q <= p <= hi * q
    ensures lo <= RoundRatio(p, q) <= hi
  {
    var r := RoundRatio(p, q);
    assert 2 * q * r < 2 * q * (hi + 1);
    MulCancel(2 * q, r, hi + 1);
    assert 2 * q * lo < 2 * q * (r + 1);
    MulCancel(2 * q, lo, r + 1);
  }

  lemma MulCancel(m: int, a: int, b: int)
    requires m > 0 && m * a < m * b
    ensures a < b
  {
  }
}
