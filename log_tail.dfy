/** The number of log lines the view asks the backend for. */
module LogTail {
  import opened Wrappers
  import opened JsString

  /** The fallback of line 93. */
  const DEFAULT_TAIL: int := 200

  predicate IsDigit(c: char) {
    '0' <= c <= '9'
  }

  predicate AllDigits(z: string) {
    forall i | 0 <= i < |z| :: IsDigit(z[i])
  }

  /** The length of the run of decimal digits `s` starts with. */
  function DigitRun(s: string): (n: nat)
    ensures n <= |s| && AllDigits(s[..n])
    ensures n < |s| ==> !IsDigit(s[n])
  {
    if s != [] && IsDigit(s[0]) then
      var n := 1 + DigitRun(s[1..]);
      assert s[..n] == [s[0]] + s[1..][..n - 1];
      n
    else 0
  }

  function DigitValue(c: char): nat
    requires IsDigit(c)
  {
    (c as int) - ('0' as int)
  }

  /** The value of a string of decimal digits, most significant first. */
  function DecimalValue(z: string): nat
    requires AllDigits(z)
  {
    if z == [] then 0
    else
      var n := |z| - 1;
      10 * DecimalValue(z[..n]) + DigitValue(z[n])
  }

  /** `parseInt(s, 10)` on the string `s`: leading white space is skipped,
      then one optional sign, then the longest run of decimal digits; no
      digits at all is `NaN` (`None`). A `-0` result is the value 0. */
  function ParseInt(s: string): (r: Option<int>)
    ensures var t := TrimStart(s);
            var body := if t != [] && (t[0] == '+' || t[0] == '-') then t[1..] else t;
            r.None? <==> body == [] || !IsDigit(body[0])
  {
    ParseSigned(TrimStart(s))
  }

  /** `parseInt` after the white space: the sign, then the digits. */
  function ParseSigned(t: string): (r: Option<int>)
    ensures r.Some? && r.value < 0 ==> t != [] && t[0] == '-'
  {
    if t != [] && t[0] == '-' then
      match ParseDigits(t[1..])
      case Some(v) => Some(-v)
      case None => None
    else if t != [] && t[0] == '+' then ParseDigits(t[1..])
    else ParseDigits(t)
  }

  /** The value of the digit run `t` starts with, if there is one. */
  function ParseDigits(t: string): (r: Option<int>)
    ensures r.None? <==> t == [] || !IsDigit(t[0])
    ensures r.Some? ==> r.value >= 0
  {
    var n := DigitRun(t);
    if n == 0 then None else Some(DecimalValue(t[..n]))
  }

  /** `parseInt(x, 10) || 200` (line 93): `NaN` and zero are falsy and give
      the fallback; any other value is taken as it is. */
  function LogTail(raw: string): (lines: int)
    ensures lines != 0
  {
    match ParseInt(raw)
    case Some(n) => if n != 0 then n else DEFAULT_TAIL
    case None => DEFAULT_TAIL
  }

  /** The fallback is taken exactly when the string does not parse or
      parses to zero. */
  lemma LogTailFallback(raw: string)
    ensures LogTail(raw) == DEFAULT_TAIL
      <==> ParseInt(raw) == None || ParseInt(raw) == Some(0) || ParseInt(raw) == Some(DEFAULT_TAIL)
    ensures ParseInt(raw).Some? && ParseInt(raw).value != 0 ==> LogTail(raw) == ParseInt(raw).value
  {
  }

  function Digit(d: nat): (c: char)
    requires d < 10
    ensures IsDigit(c) && DigitValue(c) == d
  {
    ('0' as int + d) as char
  }

  /** The decimal numeral of `n`, without leading zeros. */
  function Decimal(n: nat): (z: string)
    ensures z != [] && AllDigits(z)
  {
    if n < 10 then [Digit(n)] else Decimal(n / 10) + [Digit(n % 10)]
  }

  /** The numeral `String(i)` of an integer. */
  function Show(i: int): string {
    if i < 0 then "-" + Decimal(-i) else Decimal(i)
  }

  /** Reading back a numeral gives its value. */
  lemma {:induction false} DecimalValueOfDecimal(n: nat)
    ensures DecimalValue(Decimal(n)) == n
    decreases n
  {
    if n >= 10 {
      DecimalValueOfDecimal(n / 10);
      var z := Decimal(n);
      assert z[..|z| - 1] == Decimal(n / 10);
    }
  }

  /** A digit run stops where the digits end. */
  lemma DigitRunOf(z: string, rest: string)
    requires AllDigits(z)
    requires rest == [] || !IsDigit(rest[0])
    ensures DigitRun(z + rest) == |z| && (z + rest)[..|z|] == z
  {
    DigitRunStops(z, rest);
  }

  lemma {:induction false} DigitRunStops(z: string, rest: string)
    requires AllDigits(z)
    requires rest == [] || !IsDigit(rest[0])
    ensures DigitRun(z + rest) == |z|
    decreases |z|
  {
    if z == [] {
      assert z + rest == rest;
    } else {
      assert (z + rest)[1..] == z[1..] + rest;
      DigitRunStops(z[1..], rest);
    }
  }

  /** The digits of a numeral are read back up to what follows them. */
  lemma ParseDigitsOf(n: nat, rest: string)
    requires rest == [] || !IsDigit(rest[0])
    ensures ParseDigits(Decimal(n) + rest) == Some(n)
  {
    DecimalValueOfDecimal(n);
    DigitRunOf(Decimal(n), rest);
  }

  /** After the white space, a numeral is read back with its sign. */
  lemma ParseSignedOf(i: int, rest: string)
    requires rest == [] || !IsDigit(rest[0])
    ensures ParseSigned(Show(i) + rest) == Some(i)
  {
    if i < 0 {
      ParseNegative(-i, rest);
    } else {
      ParseNonNegative(i, rest);
    }
  }

  lemma ParseNegative(n: nat, rest: string)
    requires n > 0 && (rest == [] || !IsDigit(rest[0]))
    ensures ParseSigned("-" + Decimal(n) + rest) == Some(-(n as int))
  {
    var t := "-" + Decimal(n) + rest;
    assert t == ['-'] + (Decimal(n) + rest);
    assert t[0] == '-' && t[1..] == Decimal(n) + rest;
    ParseDigitsOf(n, rest);
  }

  lemma ParseNonNegative(n: nat, rest: string)
    requires rest == [] || !IsDigit(rest[0])
    ensures ParseSigned(Decimal(n) + rest) == Some(n)
  {
    var z := Decimal(n);
    assert IsDigit(z[0]) && (z + rest)[0] == z[0];
    ParseDigitsOf(n, rest);
  }

  /** `parseInt` reads back the numeral of any integer, whatever follows
      it that is not a digit (`"12px"`, `"12.5"` and `"12 lines"` give 12)
      and whatever white space comes before it. */
  lemma ParseShow(ws: string, i: int, rest: string)
    requires AllWhiteSpace(ws)
    requires rest == [] || !IsDigit(rest[0])
    ensures ParseInt(ws + Show(i) + rest) == Some(i)
  {
    var s := Show(i) + rest;
    assert ws + Show(i) + rest == ws + s;
    assert !IsWhiteSpace(s[0]);
    TrimStartPrefix(ws, s);
    ParseSignedOf(i, rest);
  }

  /** A configured non-zero count is used as it is. */
  lemma LogTailOfShow(ws: string, i: int, rest: string)
    requires AllWhiteSpace(ws) && i != 0
    requires rest == [] || !IsDigit(rest[0])
    ensures LogTail(ws + Show(i) + rest) == i
  {
    ParseShow(ws, i, rest);
  }

  /** A value that is missing or does not start with a number, once white
      space and one sign are skipped, gives the fallback. */
  lemma LogTailOfNonNumber(raw: string)
    requires var t := TrimStart(raw);
      var body := if t != [] && (t[0] == '+' || t[0] == '-') then t[1..] else t;
      body == [] || !IsDigit(body[0])
    ensures LogTail(raw) == DEFAULT_TAIL
  {
  }
}
