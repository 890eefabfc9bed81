/** Amount formatting (index.js:103-108, 112): a raw token amount, an integer
    in millionths, is parsed with `parseInt(amount, 10)`, divided by one
    million and shown with exactly six fractional digits. The division and
    the rendering are modelled as exact integer fixed point. */
module Amount {
  import opened Text

  /** The scale factor: HOT amounts carry six decimals. */
  const Scale: nat := 1000000

  /** What an amount that is absent (or the empty string) is shown as. */
  const Zero: string := "0.000000"

  predicate IsDigit(c: char) {
    '0' <= c <= '9'
  }

  predicate AllDigits(s: string) {
    forall k :: 0 <= k < |s| ==> IsDigit(s[k])
  }

  function DigitValue(c: char): nat
    requires IsDigit(c)
  {
    c as int - '0' as int
  }

  function DigitChar(d: nat): (c: char)
    requires d < 10
    ensures IsDigit(c) && DigitValue(c) == d
  {
    ('0' as int + d) as char
  }

  function Pow10(k: nat): (p: nat)
    ensures p >= 1
  {
    if k == 0 then 1 else 10 * Pow10(k - 1)
  }

  /** The value of a string of decimal digits, most significant first. */
  function DecimalValue(ds: string): nat
    requires AllDigits(ds)
  {
    if ds == [] then 0 else DecimalValue(ds[..|ds| - 1]) * 10 + DigitValue(ds[|ds| - 1])
  }

  lemma DecimalValueSnoc(ds: string, c: char)
    requires AllDigits(ds) && IsDigit(c)
    ensures AllDigits(ds + [c]) && DecimalValue(ds + [c]) == DecimalValue(ds) * 10 + DigitValue(c)
  {
    assert (ds + [c])[..|ds|] == ds;
  }

  /** The decimal rendering of a whole number: no sign, no leading zero. */
  function NatToDecimal(n: nat): (r: string)
    ensures r != [] && AllDigits(r) && DecimalValue(r) == n
    ensures r[0] == '0' <==> n == 0
    ensures n == 0 ==> r == "0"
  {
    if n < 10 then [DigitChar(n)]
    else
      var high := NatToDecimal(n / 10);
      DecimalValueSnoc(high, DigitChar(n % 10));
      high + [DigitChar(n % 10)]
  }

  /** The last `k` decimal digits of `n`, padded with leading zeros. */
  function LowDigits(n: nat, k: nat): (r: string)
    ensures |r| == k && AllDigits(r) && DecimalValue(r) == n % Pow10(k)
  {
    if k == 0 then []
    else
      var high := LowDigits(n / 10, k - 1);
      DecimalValueSnoc(high, DigitChar(n % 10));
      ModPow10Step(n, k - 1);
      high + [DigitChar(n % 10)]
  }

  lemma ModPow10Step(n: nat, k: nat)
    ensures (n / 10) % Pow10(k) * 10 + n % 10 == n % Pow10(k + 1)
  {
    var p := Pow10(k);
    var q, d := n / 10, n % 10;
    var a, b := q / p, q % p;
    assert n == 10 * q + d;
    assert q == p * a + b;
    assert n == (10 * p) * a + (10 * b + d);
    assert 0 <= 10 * b + d < 10 * p;
    DivModUnique(n, 10 * p, a, 10 * b + d);
  }

  lemma DivModUnique(n: nat, m: nat, a: nat, b: nat)
    requires m > 0 && n == m * a + b && b < m
    ensures n % m == b
  {
    var q, r := n / m, n % m;
    assert m * q + r == m * a + b;
    if q > a {
      MulAtLeast(m, q - a);
    } else if q < a {
      MulAtLeast(m, a - q);
    }
  }

  lemma MulAtLeast(m: nat, k: nat)
    requires k >= 1
    ensures m * k >= m
  {
  }

  /** `(x / 1e6).toFixed(6)` for an integer `x`: a minus sign for negative
      values, the whole part, a point and six fractional digits. */
  function FixedPoint(x: int): string {
    var m: nat := if x < 0 then -x else x;
    (if x < 0 then "-" else "") + NatToDecimal(m / Scale) + "." + LowDigits(m, 6)
  }

  /** Reads back a fixed-point rendering: an optional minus sign, then an
      unsigned rendering. */
  function ParseFixed(s: string): Option<int> {
    if s != [] && s[0] == '-' then
      match ParseUnsignedFixed(s[1..])
      case None => None
      case Some(v) => Some(-(v as int))
    else ParseUnsignedFixed(s)
  }

  /** A non-empty digit string, a point and exactly six digits. */
  function ParseUnsignedFixed(body: string): Option<nat> {
    if |body| < 8 || body[|body| - 7] != '.' then None
    else
      var whole, frac := body[..|body| - 7], body[|body| - 6..];
      if !AllDigits(whole) || !AllDigits(frac) then None
      else Some(DecimalValue(whole) * Scale + DecimalValue(frac))
  }

  /** The rendering loses nothing: reading it back gives the amount. It ends
      in a point followed by exactly six digits. */
  lemma FixedPointRoundTrip(x: int)
    ensures ParseFixed(FixedPoint(x)) == Some(x)
    ensures var r := FixedPoint(x); |r| >= 8 && r[|r| - 7] == '.' && AllDigits(r[|r| - 6..])
  {
    var m: nat := if x < 0 then -x else x;
    ParseFixedOf(x < 0, NatToDecimal(m / Scale), LowDigits(m, 6));
    assert Pow10(6) == Scale;
    assert m / Scale * Scale + m % Scale == m;
  }

  /** A sign, a digit string, a point and six digits read back as their
      value. */
  lemma ParseFixedOf(neg: bool, whole: string, frac: string)
    requires whole != [] && AllDigits(whole) && |frac| == 6 && AllDigits(frac)
    ensures var r := (if neg then "-" else "") + whole + "." + frac;
      var v := DecimalValue(whole) * Scale + DecimalValue(frac);
      ParseFixed(r) == Some(if neg then -v else v)
      && |r| >= 8 && r[|r| - 7] == '.' && r[|r| - 6..] == frac
  {
    var body := whole + "." + frac;
    ParseUnsignedFixedOf(whole, frac);
    var r := (if neg then "-" else "") + whole + "." + frac;
    assert r == (if neg then "-" else "") + body;
    if neg {
      assert r[1..] == body;
    } else {
      assert r == body;
      assert r[0] == whole[0] && IsDigit(whole[0]);
    }
  }

  lemma ParseUnsignedFixedOf(whole: string, frac: string)
    requires whole != [] && AllDigits(whole) && |frac| == 6 && AllDigits(frac)
    ensures var body := whole + "." + frac;
      ParseUnsignedFixed(body) == Some(DecimalValue(whole) * Scale + DecimalValue(frac))
      && |body| >= 8 && body[|body| - 7] == '.' && body[|body| - 6..] == frac
  {
    var body := whole + "." + frac;
    var n := |whole|;
    assert |body| == n + 7;
    var w, f := body[..n], body[n + 1..];
    assert forall k :: 0 <= k < n ==> w[k] == whole[k];
    assert w == whole;
    assert forall k :: 0 <= k < 6 ==> f[k] == frac[k];
    assert f == frac;
    assert body[n] == '.';
  }

  /** The longest prefix of decimal digits. */
  function DigitPrefix(s: string): (r: string)
    ensures |r| <= |s| && r == s[..|r|] && AllDigits(r)
    ensures |r| == |s| || !IsDigit(s[|r|])
  {
    if s == [] || !IsDigit(s[0]) then []
    else
      var rest := DigitPrefix(s[1..]);
      assert s[..1 + |rest|] == [s[0]] + rest;
      [s[0]] + rest
  }

  /** `parseInt(s, 10)`: leading white space and one sign are skipped, then
      the longest run of digits is read; no digit at all gives NaN (`None`). */
  function ParseInt(s: string): Option<int> {
    ParseSigned(TrimStart(s))
  }

  /** What `parseInt` reads once the leading white space is gone. */
  function ParseSigned(t: string): Option<int> {
    var signed := t != [] && (t[0] == '-' || t[0] == '+');
    var ds := DigitPrefix(if signed then t[1..] else t);
    if ds == [] then None
    else if signed && t[0] == '-' then Some(-(DecimalValue(ds) as int))
    else Some(DecimalValue(ds))
  }

  /** `parseInt` skips leading white space and one sign, reads the run of
      digits and ignores whatever follows it. */
  lemma ParseIntOf(ws: string, sign: string, ds: string, rest: string)
    requires AllSpace(ws) && (sign == "" || sign == "-" || sign == "+")
    requires ds != [] && AllDigits(ds) && (rest == [] || !IsDigit(rest[0]))
    ensures ParseInt(ws + sign + ds + rest) == Some(if sign == "-" then -(DecimalValue(ds) as int) else DecimalValue(ds))
  {
    var t := sign + ds + rest;
    assert ws + sign + ds + rest == ws + t;
    assert t[0] == if sign == "" then ds[0] else sign[0];
    TrimStartSkips(ws, t);
    ParseSignedOf(sign, ds, rest);
  }

  lemma ParseSignedOf(sign: string, ds: string, rest: string)
    requires sign == "" || sign == "-" || sign == "+"
    requires ds != [] && AllDigits(ds) && (rest == [] || !IsDigit(rest[0]))
    ensures ParseSigned(sign + ds + rest) == Some(if sign == "-" then -(DecimalValue(ds) as int) else DecimalValue(ds))
  {
    if sign == "" {
      assert sign + ds + rest == ds + rest;
      ParseUnsignedOf(ds, rest);
    } else {
      assert sign + ds + rest == [sign[0]] + (ds + rest);
      ParseSignOf(sign[0], ds, rest);
    }
  }

  lemma ParseUnsignedOf(ds: string, rest: string)
    requires ds != [] && AllDigits(ds) && (rest == [] || !IsDigit(rest[0]))
    ensures ParseSigned(ds + rest) == Some(DecimalValue(ds))
  {
    var t := ds + rest;
    assert t[0] == ds[0] && IsDigit(t[0]);
    DigitPrefixOf(ds, rest);
  }

  lemma ParseSignOf(c: char, ds: string, rest: string)
    requires c == '-' || c == '+'
    requires ds != [] && AllDigits(ds) && (rest == [] || !IsDigit(rest[0]))
    ensures ParseSigned([c] + (ds + rest)) == Some(if c == '-' then -(DecimalValue(ds) as int) else DecimalValue(ds))
  {
    var t := [c] + (ds + rest);
    assert t[0] == c && t[1..] == ds + rest;
    DigitPrefixOf(ds, rest);
    assert DigitPrefix(t[1..]) == ds;
  }

  /** No digit after the white space and the sign: `parseInt` gives NaN. */
  lemma ParseIntNaN(ws: string, sign: string, rest: string)
    requires AllSpace(ws) && (sign == "" || sign == "-" || sign == "+")
    requires rest == [] || !IsDigit(rest[0])
    requires sign == "" && rest != [] ==> !IsJsSpace(rest[0]) && rest[0] != '-' && rest[0] != '+'
    ensures ParseInt(ws + sign + rest) == None
  {
    var t := sign + rest;
    assert ws + sign + rest == ws + t;
    TrimStartSkips(ws, t);
  }

  lemma {:induction false} DigitPrefixOf(ds: string, rest: string)
    requires AllDigits(ds) && (rest == [] || !IsDigit(rest[0]))
    ensures DigitPrefix(ds + rest) == ds
  {
    if ds == [] {
      assert ds + rest == rest;
    } else {
      assert (ds + rest)[0] == ds[0] && (ds + rest)[1..] == ds[1..] + rest;
      DigitPrefixOf(ds[1..], rest);
    }
  }

  /** `formatAmount`: NaN renders as "NaN". */
  function FormatAmount(amount: string): string {
    match ParseInt(amount)
    case None => "NaN"
    case Some(x) => FixedPoint(x)
  }

  /** `amount ? formatAmount(amount) : "0.000000"`: an absent amount and the
      empty string are falsy. */
  function FormatClaimed(amount: Option<string>): string {
    if amount.None? || amount.value == [] then Zero else FormatAmount(amount.value)
  }

  /** A raw amount written as plain digits is shown as its value divided by
      one million, to six places. */
  lemma FormatAmountOfDigits(ds: string)
    requires ds != [] && AllDigits(ds)
    ensures FormatAmount(ds) == FixedPoint(DecimalValue(ds))
    ensures ParseFixed(FormatAmount(ds)) == Some(DecimalValue(ds))
  {
    ParseIntOfDigits(ds);
    FixedPointRoundTrip(DecimalValue(ds));
  }

  /** `parseInt` reads a plain digit string as its value. */
  lemma ParseIntOfDigits(ds: string)
    requires ds != [] && AllDigits(ds)
    ensures ParseInt(ds) == Some(DecimalValue(ds))
  {
    assert !IsJsSpace(ds[0]);
    assert TrimStart(ds) == ds;
    DigitPrefixAll(ds);
  }

  lemma {:induction false} DigitPrefixAll(ds: string)
    requires AllDigits(ds)
    ensures DigitPrefix(ds) == ds
  {
    if ds != [] {
      DigitPrefixAll(ds[1..]);
    }
  }

  /** An absent or empty amount shows as zero, the same text a raw amount of
      zero gives. */
  lemma FormatClaimedDefault(amount: Option<string>)
    ensures amount.None? || amount == Some([]) ==> FormatClaimed(amount) == Zero
    ensures FixedPoint(0) == Zero
  {
    assert NatToDecimal(0) == "0";
    assert LowDigits(0, 6) == "000000" by {
      assert LowDigits(0, 0) == [];
    }
  }

  /** The worked example: 1500000 millionths show as "1.500000". */
  lemma FormatExample()
    ensures FormatAmount("1500000") == "1.500000"
  {
    ExampleValue();
    FormatAmountOfDigits("1500000");
    ExampleRendering();
  }

  lemma ExampleRendering()
    ensures FixedPoint(1500000) == "1.500000"
  {
    FixedPointOfNat(1500000);
    assert 1500000 / Scale == 1;
    assert NatToDecimal(1) == "1";
    ExampleFraction();
    assert "1" + "." + "500000" == "1.500000";
  }

  /** A non-negative amount has no sign. */
  lemma FixedPointOfNat(x: nat)
    ensures FixedPoint(x) == NatToDecimal(x / Scale) + "." + LowDigits(x, 6)
  {
    var whole := NatToDecimal(x / Scale);
    assert "" + whole == whole;
  }

  lemma ExampleValue()
    ensures AllDigits("1500000") && DecimalValue("1500000") == 1500000
  {
    assert DecimalValue("1") == 1 by { assert "1"[..0] == []; }
    assert DecimalValue("15") == 15 by { assert "15"[..1] == "1"; }
    assert DecimalValue("150") == 150 by { assert "150"[..2] == "15"; }
    assert DecimalValue("1500") == 1500 by { assert "1500"[..3] == "150"; }
    assert DecimalValue("15000") == 15000 by { assert "15000"[..4] == "1500"; }
    assert DecimalValue("150000") == 150000 by { assert "150000"[..5] == "15000"; }
    assert "1500000"[..6] == "150000";
  }

  lemma ExampleFraction()
    ensures LowDigits(1500000, 6) == "500000"
  {
    assert LowDigits(1, 0) == [];
    assert LowDigits(15, 1) == "5";
    assert LowDigits(150, 2) == "50";
    assert LowDigits(1500, 3) == "500";
    assert LowDigits(15000, 4) == "5000";
    assert LowDigits(150000, 5) == "50000";
  }
}
