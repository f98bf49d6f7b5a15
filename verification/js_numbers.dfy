/**
 * The slice of JavaScript number semantics the routes depend on: `parseInt` on path and
 * query strings, truthiness of `x || default`, NaN-propagating arithmetic on query values,
 * and `Array.prototype.slice` with its clamping of negative and oversized indices.
 * Numbers are restricted to integers and NaN.
 */
module JsNumbers {

  /** A JavaScript number that is an integer, or NaN. */
  datatype Num = Int(value: int) | NaN

  /** `!!n`: NaN and zero are falsy, every other number is truthy. */
  predicate Truthy(n: Num) {
    n.Int? && n.value != 0
  }

  /** `n || fallback` for a number. */
  function OrDefault(n: Num, fallback: int): (r: int)
    ensures Truthy(n) ==> r == n.value
    ensures !Truthy(n) ==> r == fallback
    ensures fallback != 0 ==> r != 0
  {
    if Truthy(n) then n.value else fallback
  }

  function Minus(a: Num, b: Num): Num {
    if a.Int? && b.Int? then Int(a.value - b.value) else NaN
  }

  function Times(a: Num, b: Num): Num {
    if a.Int? && b.Int? then Int(a.value * b.value) else NaN
  }

  /** ToIntegerOrInfinity for the numbers modelled here: NaN becomes 0. */
  function ToInteger(n: Num): int {
    if n.Int? then n.value else 0
  }

  // ---------------------------------------------------------------- parseInt

  /** StrWhiteSpaceChar: the white space and line terminators `parseInt` skips at the start. */
  predicate IsWhiteSpace(c: char) {
    var k := c as int;
    || k == 0x09 || k == 0x0A || k == 0x0B || k == 0x0C || k == 0x0D || k == 0x20
    || k == 0xA0 || k == 0x1680 || (0x2000 <= k <= 0x200A) || k == 0x2028 || k == 0x2029
    || k == 0x202F || k == 0x205F || k == 0x3000 || k == 0xFEFF
  }

  /** The value of `c` as a digit in radix 36; 36 for a character that is no digit at all. */
  function DigitValue(c: char): (v: int)
    ensures 0 <= v <= 36
    ensures v < 10 <==> '0' <= c <= '9'
  {
    if '0' <= c <= '9' then c as int - '0' as int
    else if 'a' <= c <= 'z' then c as int - 'a' as int + 10
    else if 'A' <= c <= 'Z' then c as int - 'A' as int + 10
    else 36
  }

  predicate IsDigit(c: char, radix: int) {
    DigitValue(c) < radix
  }

  /** `s` without its leading white space. */
  function TrimStart(s: string): (t: string)
    ensures |t| <= |s| && t == s[|s| - |t|..]
    ensures forall i :: 0 <= i < |s| - |t| ==> IsWhiteSpace(s[i])
    ensures |t| > 0 ==> !IsWhiteSpace(t[0])
  {
    if |s| > 0 && IsWhiteSpace(s[0]) then TrimStart(s[1..]) else s
  }

  /** The length of the longest prefix of `s` made of digits of `radix`. */
  function DigitRun(s: string, radix: int): (n: nat)
    ensures n <= |s|
    ensures forall i :: 0 <= i < n ==> IsDigit(s[i], radix)
    ensures n < |s| ==> !IsDigit(s[n], radix)
  {
    if |s| == 0 || !IsDigit(s[0], radix) then 0 else 1 + DigitRun(s[1..], radix)
  }

  /** The value of a string of digits of `radix`, most significant first. */
  function DigitsValue(digits: string, radix: int): (v: int)
    requires 2 <= radix <= 36
    requires forall i :: 0 <= i < |digits| ==> IsDigit(digits[i], radix)
    ensures v >= 0
  {
    if |digits| == 0 then 0
    else
      var high := DigitsValue(digits[..|digits| - 1], radix);
      assert high * radix >= 0;
      high * radix + DigitValue(digits[|digits| - 1])
  }

  predicate HasHexPrefix(s: string) {
    |s| >= 2 && s[0] == '0' && (s[1] == 'x' || s[1] == 'X')
  }

  /**
   * `parseInt(s, radix)`, with `radix` already converted to an integer (an omitted radix is 0).
   * Leading white space is skipped, one sign is read, radix 0 means 10 unless the digits start
   * with "0x" or "0X" (which radix 16 also skips), and the longest run of digits is read;
   * a run of length zero gives NaN.
   */
  function ParseInt(s: string, radix: int): (n: Num)
    ensures n.Int? ==> radix == 0 || 2 <= radix <= 36
    ensures n.Int? ==> exists i :: 0 <= i < |s| && IsDigit(s[i], if radix == 0 then 16 else radix)
  {
    var t := TrimStart(s);
    var negative := |t| > 0 && t[0] == '-';
    var unsigned := Unsigned(t);
    if radix != 0 && (radix < 2 || radix > 36) then NaN
    else
      var hex := (radix == 0 || radix == 16) && HasHexPrefix(unsigned);
      var base := if hex then 16 else if radix == 0 then 10 else radix;
      var body := if hex then unsigned[2..] else unsigned;
      var run := DigitRun(body, base);
      if run == 0 then NaN
      else
        DigitInSuffix(s, body, if radix == 0 then 16 else radix);
        var magnitude := DigitsValue(body[..run], base);
        Int(if negative then -magnitude else magnitude)
  }

  /** `t` without the one sign character `parseInt` reads. */
  function Unsigned(t: string): (u: string)
    ensures |u| <= |t| && u == t[|t| - |u|..]
    ensures |u| < |t| ==> t[0] == '-' || t[0] == '+'
  {
    if |t| > 0 && (t[0] == '-' || t[0] == '+') then t[1..] else t
  }

  /** A digit at the front of a suffix of `s` is a digit of `s`. */
  lemma DigitInSuffix(s: string, u: string, radix: int)
    requires |s| - |u| >= 0 && u == s[|s| - |u|..]
    requires |u| > 0 && IsDigit(u[0], radix)
    ensures exists i :: 0 <= i < |s| && IsDigit(s[i], radix)
  {
    assert s[|s| - |u|] == u[0];
  }

  /** The characters '0'..'9' for the values 0..9. */
  function DigitChar(d: int): (c: char)
    requires 0 <= d < 10
    ensures DigitValue(c) == d
  {
    (d + '0' as int) as char
  }

  /** The decimal digits of a natural number, without leading zeros. */
  function Digits(n: nat): (s: string)
    ensures |s| > 0
    ensures forall i :: 0 <= i < |s| ==> IsDigit(s[i], 10)
    ensures s[0] == '0' ==> n == 0 && |s| == 1
  {
    if n < 10 then [DigitChar(n)] else Digits(n / 10) + [DigitChar(n % 10)]
  }

  /** The decimal representation of an integer, as `String(n)` writes it. */
  function DecimalString(n: int): (s: string)
    ensures |s| > 0
  {
    if n < 0 then "-" + Digits(-n) else Digits(n)
  }

  lemma {:induction false} DigitsValueOfDigits(n: nat)
    ensures DigitsValue(Digits(n), 10) == n
    decreases n
  {
    var s := Digits(n);
    if n >= 10 {
      DigitsValueOfDigits(n / 10);
      assert s[..|s| - 1] == Digits(n / 10);
    }
  }

  /**
   * `parseInt` with radix 10, and with the radix omitted, reads back every integer written
   * in decimal: the path ids the catalogue routes parse round-trip through their decimal form.
   */
  lemma ParseIntOfDecimalString(n: int, radix: int)
    requires radix == 10 || radix == 0
    ensures ParseInt(DecimalString(n), radix) == Int(n)
  {
    var s := DecimalString(n);
    var m: nat := if n < 0 then -n else n;
    var d := Digits(m);
    assert !IsWhiteSpace(s[0]);
    assert TrimStart(s) == s;
    var unsigned := if n < 0 then s[1..] else s;
    assert unsigned == d;
    assert !HasHexPrefix(d);
    assert DigitRun(d, 10) == |d|;
    assert d[..|d|] == d;
    DigitsValueOfDigits(m);
  }

  /**
   * With radix 10, or with the radix omitted as the query routes do, a string holding no
   * decimal digit parses to NaN: letters such as "abc" included.
   */
  lemma NoDigitsIsNaN(s: string, radix: int)
    requires radix == 0 || radix == 10
    requires forall i :: 0 <= i < |s| ==> !('0' <= s[i] <= '9')
    ensures ParseInt(s, radix).NaN?
  {
    var unsigned := Unsigned(TrimStart(s));
    assert unsigned == s[|s| - |unsigned|..];
    assert !HasHexPrefix(unsigned);
    if |unsigned| > 0 {
      assert !IsDigit(unsigned[0], 10);
    }
  }

  // ---------------------------------------------------------------- Array.prototype.slice

  /** The index `slice` starts or stops at for an argument `k`: negative counts from the end. */
  function RelativeIndex(k: int, len: nat): (i: nat)
    ensures i <= len
    ensures k >= 0 ==> i == (if k < len then k else len)
    ensures k < 0 ==> i == (if len + k < 0 then 0 else len + k)
  {
    if k < 0 then (if len + k < 0 then 0 else len + k)
    else if k < len then k
    else len
  }

  /** `xs.slice(start, end)`. */
  function Slice<T>(xs: seq<T>, start: Num, end: Num): (r: seq<T>)
    ensures |r| <= |xs|
    ensures forall x :: x in r ==> x in xs
    ensures var a, b := ToInteger(start), ToInteger(end);
      0 <= a <= b ==> r == xs[Min(a, |xs|)..Min(b, |xs|)]
    ensures var a, b := ToInteger(start), ToInteger(end);
      0 <= b <= a ==> r == []
  {
    var from := RelativeIndex(ToInteger(start), |xs|);
    var to := RelativeIndex(ToInteger(end), |xs|);
    if from < to then xs[from..to] else []
  }

  function Min(a: int, b: int): int {
    if a < b then a else b
  }
}
