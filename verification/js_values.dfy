/**
 * The slice of JavaScript value semantics the viewer's data code relies on:
 * optional values, numbers produced by `Number(...)`, missing array cells,
 * `String.prototype.trim`, the byte-order-mark strip and `Array.prototype.indexOf`.
 */
module JsValues {

  datatype Option<+T> = None | Some(value: T)

  /** A JavaScript number as the viewer sees it: an integer or NaN. */
  datatype Num = NaN | Int(v: int)

  /** The byte-order mark U+FEFF. */
  const Bom: char := '\U{FEFF}'

  predicate IsDigit(c: char) {
    '0' <= c <= '9'
  }

  predicate AllDigits(s: string) {
    forall i :: 0 <= i < |s| ==> IsDigit(s[i])
  }

  /** The value of a run of decimal digits, most significant first. */
  function DigitsValue(s: string): (n: nat)
    requires AllDigits(s)
    ensures s == [] ==> n == 0
    ensures |s| == 1 ==> n == (s[0] as int) - ('0' as int)
  {
    if s == [] then 0
    else DigitsValue(s[..|s| - 1]) * 10 + ((s[|s| - 1] as int) - ('0' as int))
  }

  /**
   * `Number(s)` restricted to integers: the empty string is 0, an optional
   * sign followed by at least one decimal digit is that integer, anything
   * else is NaN.
   */
  function ToNum(s: string): (r: Num)
    ensures s == "" ==> r == Int(0)
    ensures r.Int? <==>
              s == "" || AllDigits(s) || (|s| > 1 && (s[0] == '-' || s[0] == '+') && AllDigits(s[1..]))
    ensures s != "" && AllDigits(s) ==> r == Int(DigitsValue(s))
    ensures |s| > 1 && s[0] == '+' && AllDigits(s[1..]) ==> r == Int(DigitsValue(s[1..]))
    ensures |s| > 1 && s[0] == '-' && AllDigits(s[1..]) ==> r == Int(0 - DigitsValue(s[1..]))
  {
    if s == "" then Int(0)
    else if (s[0] == '-' || s[0] == '+') && |s| > 1 && AllDigits(s[1..]) then
      (if s[0] == '-' then Int(0 - DigitsValue(s[1..])) else Int(DigitsValue(s[1..])))
    else if AllDigits(s) then Int(DigitsValue(s))
    else NaN
  }

  /** The decimal numeral of `n`, without sign or leading zeros: `String(n)`. */
  function Decimal(n: nat): (s: string)
    ensures |s| >= 1 && AllDigits(s)
    decreases n
  {
    var d := ('0' as int + n % 10) as char;
    if n < 10 then [d] else Decimal(n / 10) + [d]
  }

  /** `Number(String(n))` is `n`, for every integer `n`, written with or without a minus sign. */
  lemma {:induction false} ToNumDecimal(n: nat)
    ensures ToNum(Decimal(n)) == Int(n)
    ensures ToNum("-" + Decimal(n)) == Int(-(n as int))
    decreases n
  {
    var s := Decimal(n);
    if n >= 10 {
      ToNumDecimal(n / 10);
      assert s[..|s| - 1] == Decimal(n / 10);
    }
    assert DigitsValue(s) == n;
    assert ("-" + s)[1..] == s;
  }

  /** A leading zero does not change the value of a run of digits. */
  lemma {:induction false} DigitsValueLeadingZero(s: string)
    requires AllDigits(s)
    ensures AllDigits("0" + s) && DigitsValue("0" + s) == DigitsValue(s)
    decreases |s|
  {
    var z := "0" + s;
    assert AllDigits(z) by {
      forall k | 0 <= k < |z| ensures IsDigit(z[k]) {
        if k > 0 { assert z[k] == s[k - 1]; }
      }
    }
    if s != [] {
      assert z[..|z| - 1] == "0" + s[..|s| - 1];
      assert AllDigits(s[..|s| - 1]);
      DigitsValueLeadingZero(s[..|s| - 1]);
    }
  }

  /**
   * `Number` ignores leading zeros, so week cells `"07"` and `"7"` give the
   * same number and meet on one axis point.
   */
  lemma ToNumLeadingZero(s: string)
    requires s != "" && AllDigits(s)
    ensures ToNum("0" + s) == ToNum(s)
  {
    DigitsValueLeadingZero(s);
  }

  /** `row[i]`: the cell, or None (JavaScript `undefined`) outside the row. */
  function Cell(row: seq<string>, i: int): (c: Option<string>)
    ensures c.Some? <==> 0 <= i < |row|
    ensures c.Some? ==> c.value == row[i]
  {
    if 0 <= i < |row| then Some(row[i]) else None
  }

  /** `Number(row[i])`: `Number(undefined)` is NaN. */
  function CellNum(c: Option<string>): (r: Num)
    ensures c.None? ==> r == NaN
  {
    match c
    case None => NaN
    case Some(s) => ToNum(s)
  }

  /** `a === b` on numbers: NaN equals nothing, not even NaN. */
  predicate StrictEq(a: Num, b: Num) {
    a.Int? && a == b
  }

  /** A JavaScript truthiness test on a cell: defined and not the empty string. */
  predicate Truthy(c: Option<string>) {
    c.Some? && c.value != ""
  }

  /** ECMAScript WhiteSpace and LineTerminator code points, the ones `trim` removes. */
  predicate IsJsWhitespace(c: char) {
    c == '\t' || c == '\n' || c == '\U{000B}' || c == '\U{000C}' || c == '\r' || c == ' '
    || c == '\U{00A0}' || c == '\U{1680}' || ('\U{2000}' <= c <= '\U{200A}')
    || c == '\U{2028}' || c == '\U{2029}' || c == '\U{202F}' || c == '\U{205F}'
    || c == '\U{3000}' || c == Bom
  }

  /** The number of white-space characters `s` starts with. */
  function LeadingBlanks(s: string): (n: nat)
    ensures n <= |s|
    ensures forall k :: 0 <= k < n ==> IsJsWhitespace(s[k])
    ensures n == |s| || !IsJsWhitespace(s[n])
    decreases |s|
  {
    if s != [] && IsJsWhitespace(s[0]) then
      assert forall k :: 0 <= k < |s| - 1 ==> s[1..][k] == s[k + 1];
      1 + LeadingBlanks(s[1..])
    else 0
  }

  /** The number of white-space characters `s` ends with. */
  function TrailingBlanks(s: string): (n: nat)
    ensures n <= |s|
    ensures forall k :: |s| - n <= k < |s| ==> IsJsWhitespace(s[k])
    ensures n == |s| || !IsJsWhitespace(s[|s| - n - 1])
    decreases |s|
  {
    if s != [] && IsJsWhitespace(s[|s| - 1]) then
      assert forall k :: 0 <= k < |s| - 1 ==> s[..|s| - 1][k] == s[k];
      1 + TrailingBlanks(s[..|s| - 1])
    else 0
  }

  /** `s.trim()`: `s` without its leading and trailing white space. */
  function Trim(s: string): (r: string)
    ensures r == [] || (!IsJsWhitespace(r[0]) && !IsJsWhitespace(r[|r| - 1]))
  {
    var a := LeadingBlanks(s);
    var n := TrailingBlanks(s[a..]);
    assert n < |s| - a ==> s[a..][|s| - a - n - 1] == s[|s| - n - 1];
    s[a..|s| - n]
  }

  /** Every character of `s` is white space. */
  predicate Blank(s: string) {
    forall k :: 0 <= k < |s| ==> IsJsWhitespace(s[k])
  }

  /**
   * `trim` keeps a slice of the text: what lies between its leading white
   * space and its trailing white space.
   */
  lemma TrimFacts(s: string)
    ensures exists a, b :: 0 <= a <= b <= |s| && Trim(s) == s[a..b] && Blank(s[..a]) && Blank(s[b..])
  {
    var a := LeadingBlanks(s);
    var n := TrailingBlanks(s[a..]);
    var b := |s| - n;
    assert Trim(s) == s[a..b];
    assert Blank(s[..a]);
    assert forall k :: b <= k < |s| ==> s[k] == s[a..][k - a];
    assert Blank(s[b..]);
  }

  /** `s.replace(/^\uFEFF/, "")`: removes one leading byte-order mark. */
  function StripBom(s: string): (r: string)
    ensures |s| > 0 && s[0] == Bom ==> r == s[1..]
    ensures (|s| == 0 || s[0] != Bom) ==> r == s
  {
    if |s| > 0 && s[0] == Bom then s[1..] else s
  }

  /** `a.indexOf(x)`: the first position holding `x`, or -1. */
  function IndexOf<T(==)>(a: seq<T>, x: T): (r: int)
    ensures -1 <= r < |a|
    ensures r == -1 <==> x !in a
    ensures r >= 0 ==> a[r] == x && forall k :: 0 <= k < r ==> a[k] != x
  {
    if a == [] then -1
    else if a[0] == x then 0
    else
      var r := IndexOf(a[1..], x);
      if r == -1 then -1 else r + 1
  }
}
