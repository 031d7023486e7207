/** Number parsing and printing as the report uses them: `parseFloat` on a
    cell, `${n}` for a count and `toFixed(f)` for a statistic. Numbers are
    exact reals, so these are the decimal behaviours of the JavaScript
    built-ins without binary floating-point rounding. */
module Numbers {
  import opened Wrappers
  import opened Text

  predicate IsDigit(c: char) {
    '0' <= c <= '9'
  }

  predicate AllDigits(s: string) {
    forall i :: 0 <= i < |s| ==> IsDigit(s[i])
  }

  /** Some character of `s` is a digit. */
  predicate HasDigit(s: string) {
    exists i :: 0 <= i < |s| && IsDigit(s[i])
  }

  lemma HasDigitSuffix(s: string, k: nat)
    requires k <= |s| && HasDigit(s[k..])
    ensures HasDigit(s)
  {
    var i :| 0 <= i < |s[k..]| && IsDigit(s[k..][i]);
    assert s[k + i] == s[k..][i];
  }

  /** The value of a digit character (0 for any other character). */
  function DigitValue(c: char): nat
  {
    if IsDigit(c) then c as int - '0' as int else 0
  }

  function Digit(d: nat): (c: char)
    requires d < 10
    ensures IsDigit(c) && DigitValue(c) == d
  {
    ('0' as int + d) as char
  }

  function Pow10(n: nat): (r: nat)
    ensures r >= 1
  {
    if n == 0 then 1 else 10 * Pow10(n - 1)
  }

  /** Value of a string of decimal digits, most significant digit first. */
  function DigitsValue(s: string): nat
  {
    if s == [] then 0 else DigitsValue(s[..|s| - 1]) * 10 + DigitValue(s[|s| - 1])
  }

  /** Length of the longest run of digits at the front of `s`. */
  function LeadingDigits(s: string): (n: nat)
    ensures n <= |s|
    ensures forall i :: 0 <= i < n ==> IsDigit(s[i])
    ensures n == |s| || !IsDigit(s[n])
  {
    if s == [] || !IsDigit(s[0]) then 0 else 1 + LeadingDigits(s[1..])
  }

  /** The parts of a decimal literal: integer digits, fraction digits and
      a power-of-ten exponent. */
  datatype Decimal = Decimal(whole: string, fraction: string, exponent: int)

  /** `x` times 10 to the power `e`, one factor of ten at a time. */
  function Shift(x: real, e: int): real
    decreases if e >= 0 then e else -e
  {
    if e == 0 then x
    else if e > 0 then Shift(x, e - 1) * 10.0
    else Shift(x, e + 1) / 10.0
  }

  /** The value of the digits `f` after a decimal point. */
  function FractionValue(f: string): real
  {
    if f == [] then 0.0 else (DigitValue(f[0]) as real + FractionValue(f[1..])) / 10.0
  }

  /** The value the decimal literal `d` denotes. */
  function DecimalValue(d: Decimal): real
  {
    Shift(DigitsValue(d.whole) as real + FractionValue(d.fraction), d.exponent)
  }

  /** The exponent of an optional exponent part `e[+-]digits` at the front
      of `s`; 0 when there is none (a bare `e` is not an exponent). */
  function ExponentPart(s: string): int
  {
    if |s| >= 2 && (s[0] == 'e' || s[0] == 'E') then
      var signed := s[1] == '+' || s[1] == '-';
      var digits := if signed then s[2..] else s[1..];
      var e: int := DigitsValue(digits[..LeadingDigits(digits)]);
      if s[1] == '-' then -e else e
    else 0
  }

  /** The longest prefix of `u` of the form `digits[.digits][exponent]`
      with at least one digit in the mantissa, or None if there is none. */
  function ScanDecimal(u: string): (r: Option<Decimal>)
    ensures r.Some? ==> HasDigit(u)
  {
    var i := LeadingDigits(u);
    var point := i < |u| && u[i] == '.';
    var j := if point then LeadingDigits(u[i + 1..]) else 0;
    if i + j == 0 then None
    else
      var fraction := if point then u[i + 1..][..j] else [];
      var rest := if point then u[i + 1 + j..] else u[i..];
      assert IsDigit(u[if i == 0 then 1 else 0]);
      Some(Decimal(u[..i], fraction, ExponentPart(rest)))
  }

  /** The sign (true for minus) and the decimal literal that `parseFloat`
      reads: leading whitespace skipped, an optional `+` or `-`, then the
      longest decimal prefix. None when no digit starts the literal. */
  function ScanNumber(s: string): (r: Option<(bool, Decimal)>)
    ensures r.Some? ==> HasDigit(s)
  {
    var t := TrimStart(s);
    var signed := |t| > 0 && (t[0] == '-' || t[0] == '+');
    var u := if signed then t[1..] else t;
    match ScanDecimal(u)
    case None => None
    case Some(d) =>
      assert HasDigit(s) by {
        if signed {
          HasDigitSuffix(t, 1);
        }
        HasDigitSuffix(s, |s| - |t|);
      }
      Some((signed && t[0] == '-', d))
  }

  /** `v` with a sign applied: negated when `negative`. */
  function Signed(negative: bool, v: real): real
  {
    if negative then -v else v
  }

  /** `parseFloat(s)`, with `NaN` as None. */
  function ParseFloat(s: string): Option<real>
  {
    var r := ScanNumber(s);
    if r.None? then None else Some(Signed(r.value.0, DecimalValue(r.value.1)))
  }

  /** Text without a digit is NaN. */
  lemma ParseFloatNeedsDigit(s: string)
    ensures ParseFloat(s).Some? ==> HasDigit(s)
  {
  }

  /** In particular the empty string is NaN. */
  lemma ParseEmpty()
    ensures ParseFloat([]) == None
  {
    ParseFloatNeedsDigit([]);
  }

  /** `${n}` for a non-negative integer: its decimal digits, no leading zero. */
  function NatToString(n: nat): (s: string)
    ensures |s| >= 1 && AllDigits(s)
    ensures s[0] == '0' ==> n == 0
  {
    if n < 10 then [Digit(n)] else NatToString(n / 10) + [Digit(n % 10)]
  }

  lemma {:induction false} NatToStringValue(n: nat)
    ensures DigitsValue(NatToString(n)) == n
  {
    if n >= 10 {
      NatToStringValue(n / 10);
      var s := NatToString(n);
      assert s[..|s| - 1] == NatToString(n / 10);
    }
  }

  lemma {:induction false} LeadingDigitsAll(s: string)
    requires AllDigits(s)
    ensures LeadingDigits(s) == |s|
  {
    if s != [] {
      LeadingDigitsAll(s[1..]);
    }
  }

  lemma {:induction false} LeadingDigitsAppend(a: string, b: string)
    requires AllDigits(a)
    ensures LeadingDigits(a + b) == |a| + LeadingDigits(b)
  {
    if a != [] {
      assert (a + b)[1..] == a[1..] + b;
      LeadingDigitsAppend(a[1..], b);
    } else {
      assert a + b == b;
    }
  }

  /** A digit string with nothing after it is read whole, as an integer. */
  lemma ScanDigits(s: string)
    requires AllDigits(s) && s != []
    ensures ScanDecimal(s) == Some(Decimal(s, [], 0))
  {
    LeadingDigitsAll(s);
    assert s[..|s|] == s;
    assert s[|s|..] == [];
  }

  lemma IntegerValue(s: string)
    ensures DecimalValue(Decimal(s, [], 0)) == DigitsValue(s) as real
  {
  }

  lemma ScanNoSign(t: string)
    requires TrimStart(t) == t && (t == [] || (t[0] != '-' && t[0] != '+'))
    ensures ScanNumber(t) == match ScanDecimal(t) case None => None case Some(d) => Some((false, d))
  {
  }

  /** Text that starts with a digit is read without a sign. */
  lemma ScanUnsigned(s: string)
    requires s != [] && IsDigit(s[0])
    ensures ScanNumber(s) == match ScanDecimal(s) case None => None case Some(d) => Some((false, d))
  {
    TrimStartOfTrimmed(s);
    ScanNoSign(s);
  }

  lemma ScanSigned(t: string)
    requires |t| > 0 && t[0] == '-' && TrimStart(t) == t
    ensures ScanNumber(t) == match ScanDecimal(t[1..]) case None => None case Some(d) => Some((true, d))
  {
  }

  lemma MinusNotWhitespace(s: string)
    ensures TrimStart("-" + s) == "-" + s
  {
  }

  /** A minus sign in front of a reading makes it negative. */
  lemma ScanMinus(s: string)
    ensures ScanNumber("-" + s) == match ScanDecimal(s) case None => None case Some(d) => Some((true, d))
  {
    MinusNotWhitespace(s);
    ScanSigned("-" + s);
    assert ("-" + s)[1..] == s;
  }

  /** Printing a count and parsing it back gives the count. */
  lemma ParseNatToString(n: nat)
    ensures ParseFloat(NatToString(n)) == Some(n as real)
  {
    var s := NatToString(n);
    ScanDigits(s);
    ScanUnsigned(s);
    NatToStringValue(n);
    IntegerValue(s);
  }

  /** A string of `k` zero digits. */
  function Zeros(k: nat): (z: string)
    ensures |z| == k && AllDigits(z)
  {
    if k == 0 then [] else Zeros(k - 1) + ['0']
  }

  lemma MulDistributes(x: int, y: int, z: int)
    ensures (x + y) * z == x * z + y * z
  {
  }

  lemma MulAssociates(x: int, y: int, z: int)
    ensures x * y * z == x * (y * z)
  {
  }

  lemma {:induction false} DigitsValueAppend(a: string, b: string)
    ensures DigitsValue(a + b) == DigitsValue(a) * Pow10(|b|) + DigitsValue(b)
  {
    if b != [] {
      var b' := b[..|b| - 1];
      assert (a + b)[..|a + b| - 1] == a + b';
      DigitsValueAppend(a, b');
      var d := DigitValue(b[|b| - 1]);
      assert DigitsValue(a + b) == DigitsValue(a + b') * 10 + d;
      assert DigitsValue(b) == DigitsValue(b') * 10 + d;
      assert Pow10(|b|) == Pow10(|b'|) * 10;
      MulDistributes(DigitsValue(a) * Pow10(|b'|), DigitsValue(b'), 10);
      MulAssociates(DigitsValue(a), Pow10(|b'|), 10);
    } else {
      assert a + b == a;
    }
  }

  lemma {:induction false} ZerosValue(k: nat)
    ensures DigitsValue(Zeros(k)) == 0
  {
    if k > 0 {
      ZerosValue(k - 1);
      assert Zeros(k)[..k - 1] == Zeros(k - 1);
    }
  }

  /** The digits of `n` left-padded with zeros to at least `width` digits. */
  function PaddedDigits(n: nat, width: nat): (p: string)
    ensures AllDigits(p) && |p| >= width && |p| >= 1
    ensures DigitsValue(p) == n
  {
    var d := NatToString(n);
    NatToStringValue(n);
    if |d| < width then
      DigitsValueAppend(Zeros(width - |d|), d);
      ZerosValue(width - |d|);
      Zeros(width - |d|) + d
    else
      d
  }

  /** The digits of `n` printed with exactly `f` of them after a decimal
      point and at least one before it. */
  function FixedBody(n: nat, f: nat): string
  {
    var p := PaddedDigits(n, f + 1);
    var k := |p| - f;
    p[..k] + (if f == 0 then "" else "." + p[k..])
  }

  /** `x.toFixed(f)` for |x| below 10^21: the integer n closest to
      |x| * 10^f (the larger one on a tie), printed with at least one digit
      before the point and exactly f after it, with a minus sign when x < 0. */
  function ToFixed(x: real, f: nat): string
  {
    SignedBody(x < 0.0, Rounded(if x < 0.0 then -x else x, f), f)
  }

  /** The integer closest to a * 10^f, the larger one on a tie. */
  function Rounded(a: real, f: nat): int
  {
    (a * Pow10(f) as real + 0.5).Floor
  }

  /** FixedBody(n, f) with a leading minus sign when `negative`. */
  function SignedBody(negative: bool, n: nat, f: nat): string
  {
    (if negative then "-" else "") + FixedBody(n, f)
  }

  /** Reading `h`, a point and the `f`-digit fraction `l` gives
      (h * 10^f + l) / 10^f. */
  lemma SplitQuotient(m: nat, h: nat, l: nat, pw: nat)
    requires pw >= 1 && m == h * pw + l
    ensures (h as real + l as real / pw as real) * 1.0 == m as real / pw as real
  {
    assert m as real == h as real * pw as real + l as real;
  }

  lemma FixedBodyWithPoint(p: string, f: nat)
    requires AllDigits(p) && |p| > f > 0
    ensures ScanDecimal(p[..|p| - f] + "." + p[|p| - f..]) == Some(Decimal(p[..|p| - f], p[|p| - f..], 0))
  {
    var k := |p| - f;
    var body := p[..k] + "." + p[k..];
    LeadingDigitsAppend(p[..k], "." + p[k..]);
    assert body == p[..k] + ("." + p[k..]);
    assert LeadingDigits("." + p[k..]) == 0;
    assert body[k] == '.';
    assert body[k + 1..] == p[k..];
    LeadingDigitsAll(p[k..]);
    assert p[k..][..f] == p[k..];
    assert body[..k] == p[..k];
    assert body[k + 1 + f..] == [];
  }

  lemma SplitDigitsValue(p: string, k: nat)
    requires k <= |p|
    ensures DigitsValue(p) == DigitsValue(p[..k]) * Pow10(|p| - k) + DigitsValue(p[k..])
  {
    assert p == p[..k] + p[k..];
    DigitsValueAppend(p[..k], p[k..]);
  }

  lemma FractionStep(c: real, rest: real, p: real)
    requires p >= 1.0
    ensures (c + rest / p) / 10.0 == (c * p + rest) / (p * 10.0)
  {
  }

  /** The fraction digits `f` are worth their integer value over 10^|f|. */
  lemma {:induction false} FractionValueIs(f: string)
    ensures FractionValue(f) == DigitsValue(f) as real / Pow10(|f|) as real
  {
    if f != [] {
      FractionValueIs(f[1..]);
      assert f == [f[0]] + f[1..];
      DigitsValueAppend([f[0]], f[1..]);
      assert DigitsValue([f[0]]) == DigitValue(f[0]) by {
        assert [f[0]][..0] == [];
      }
      var p := Pow10(|f| - 1);
      assert Pow10(|f|) == p * 10;
      FractionStep(DigitValue(f[0]) as real, DigitsValue(f[1..]) as real, p as real);
    }
  }

  lemma NoExponentValue(w: string, fr: string)
    ensures DecimalValue(Decimal(w, fr, 0))
         == (DigitsValue(w) as real + DigitsValue(fr) as real / Pow10(|fr|) as real) * 1.0
  {
    FractionValueIs(fr);
  }

  /** A point before the last `f` digits divides the digits' value by 10^f. */
  lemma PointValue(p: string, f: nat)
    requires |p| >= f
    ensures DecimalValue(Decimal(p[..|p| - f], p[|p| - f..], 0)) == DigitsValue(p) as real / Pow10(f) as real
  {
    var k := |p| - f;
    SplitDigitsValue(p, k);
    NoExponentValue(p[..k], p[k..]);
    SplitQuotient(DigitsValue(p), DigitsValue(p[..k]), DigitsValue(p[k..]), Pow10(f));
  }

  lemma FixedBodyStartsWithDigit(n: nat, f: nat)
    ensures FixedBody(n, f) != [] && IsDigit(FixedBody(n, f)[0])
  {
    var p := PaddedDigits(n, f + 1);
    assert FixedBody(n, f)[0] == p[..|p| - f][0] == p[0];
  }

  lemma FixedBodyInteger(n: nat) returns (d: Decimal)
    ensures ScanDecimal(FixedBody(n, 0)) == Some(d)
    ensures DecimalValue(d) == n as real / Pow10(0) as real
  {
    var p := PaddedDigits(n, 1);
    assert FixedBody(n, 0) == p[..|p|] + "";
    assert p[..|p|] == p;
    ScanDigits(p);
    d := Decimal(p, [], 0);
    IntegerValue(p);
    DivideByOne(n as real, Pow10(0));
  }

  lemma DivideByOne(x: real, one: nat)
    requires one == 1
    ensures x / one as real == x
  {
  }

  lemma FixedBodyFraction(n: nat, f: nat) returns (d: Decimal)
    requires f > 0
    ensures ScanDecimal(FixedBody(n, f)) == Some(d)
    ensures DecimalValue(d) == n as real / Pow10(f) as real
  {
    var p := PaddedDigits(n, f + 1);
    d := Decimal(p[..|p| - f], p[|p| - f..], 0);
    assert ScanDecimal(FixedBody(n, f)) == Some(d) by {
      assert FixedBody(n, f) == p[..|p| - f] + "." + p[|p| - f..];
      FixedBodyWithPoint(p, f);
    }
    assert DecimalValue(d) == DigitsValue(p) as real / Pow10(f) as real by {
      PointValue(p, f);
    }
  }

  /** The body printed for `n` is read back as n / 10^f. */
  lemma FixedBodyValue(n: nat, f: nat) returns (d: Decimal)
    ensures ScanDecimal(FixedBody(n, f)) == Some(d)
    ensures DecimalValue(d) == n as real / Pow10(f) as real
  {
    if f == 0 {
      d := FixedBodyInteger(n);
    } else {
      d := FixedBodyFraction(n, f);
    }
  }

  /** Rounding to the nearest integer is off by at most one half. */
  lemma RoundingError(a: real, f: nat, v: real)
    requires v == Rounded(a, f) as real / Pow10(f) as real
    ensures -1.0 <= (v - a) * 2.0 * Pow10(f) as real <= 1.0
  {
    var scale := Pow10(f) as real;
    var n := Rounded(a, f);
    assert n as real <= a * scale + 0.5 < n as real + 1.0;
    assert (n as real / scale - a) * scale == n as real - a * scale;
  }

  lemma ParseOfScan(s: string, negative: bool, d: Decimal)
    requires ScanNumber(s) == Some((negative, d))
    ensures ParseFloat(s) == Some(Signed(negative, DecimalValue(d)))
  {
  }

  /** The text `toFixed` prints is read back as the sign of `x` and the
      rounded digits with `f` of them after the point. */
  lemma ToFixedReadsBack(x: real, f: nat) returns (d: Decimal)
    ensures ScanNumber(ToFixed(x, f)) == Some((x < 0.0, d))
    ensures DecimalValue(d) == Rounded(if x < 0.0 then -x else x, f) as real / Pow10(f) as real
  {
    var n := Rounded(if x < 0.0 then -x else x, f);
    var body := FixedBody(n, f);
    d := FixedBodyValue(n, f);
    if x < 0.0 {
      assert ToFixed(x, f) == "-" + body;
      ScanMinus(body);
    } else {
      assert ToFixed(x, f) == body;
      FixedBodyStartsWithDigit(n, f);
      ScanUnsigned(body);
    }
  }

  /** Reading back a signed value within half a unit of |x|. */
  lemma SignedError(x: real, a: real, v: real, p: real)
    requires a == if x < 0.0 then -x else x
    requires -1.0 <= (v - a) * 2.0 * p <= 1.0
    ensures -1.0 <= (Signed(x < 0.0, v) - x) * 2.0 * p <= 1.0
  {
    if x < 0.0 {
      assert (-v - x) * 2.0 * p == -((v - a) * 2.0 * p);
    }
  }

  /** The signed reading of the rounded magnitude is within half a unit of `x`. */
  lemma SignedRoundingError(x: real, f: nat, v: real) returns (y: real)
    requires v == Rounded(if x < 0.0 then -x else x, f) as real / Pow10(f) as real
    ensures y == Signed(x < 0.0, v)
    ensures -1.0 <= (y - x) * 2.0 * Pow10(f) as real <= 1.0
  {
    var a := if x < 0.0 then -x else x;
    RoundingError(a, f, v);
    SignedError(x, a, v, Pow10(f) as real);
    y := Signed(x < 0.0, v);
  }

  /** The printed form parses back to a value within half a unit in the
      last printed place of `x`. */
  lemma ToFixedRoundTrip(x: real, f: nat) returns (y: real)
    ensures ParseFloat(ToFixed(x, f)) == Some(y)
    ensures -1.0 <= (y - x) * 2.0 * Pow10(f) as real <= 1.0
  {
    var d := ToFixedReadsBack(x, f);
    ParseOfScan(ToFixed(x, f), x < 0.0, d);
    y := SignedRoundingError(x, f, DecimalValue(d));
  }
}
