/** Numeric tokens of a log line: unsigned digit strings, signed integers,
    decimals with a fractional part, and rounding a decimal number of
    seconds to the nearest whole second (ties to even), which is how a
    timestamp column is rounded to one-second buckets. Values are exact:
    a decimal is kept as an integer mantissa over a power of ten. */
module Numbers {
  import opened Wrappers

  predicate IsDigit(c: char) { '0' <= c <= '9' }

  predicate AllDigits(s: string) { forall i | 0 <= i < |s| :: IsDigit(s[i]) }

  function DigitValue(c: char): nat
    requires IsDigit(c)
  {
    c as int - '0' as int
  }

  function DigitChar(d: nat): (c: char)
    requires d < 10
    ensures IsDigit(c) && DigitValue(c) == d
  {
    ('0' as int + d) as char
  }

  function Pow10(k: nat): (p: nat)
    ensures p >= 1
  {
    if k == 0 then 1 else 10 * Pow10(k - 1)
  }

  /** The value of a string of decimal digits, most significant first;
      the empty string reads as 0. */
  function DigitsValue(s: string): nat
    requires AllDigits(s)
  {
    if s == [] then 0 else 10 * DigitsValue(s[..|s| - 1]) + DigitValue(s[|s| - 1])
  }

  /** Reading the digits of `a` followed by those of `b` shifts `a` left by |b| places. */
  lemma {:induction false} DigitsValueConcat(a: string, b: string)
    requires AllDigits(a) && AllDigits(b)
    ensures AllDigits(a + b)
    ensures DigitsValue(a + b) == DigitsValue(a) * Pow10(|b|) + DigitsValue(b)
  {
    if b == [] {
      assert a + b == a;
    } else {
      var b' := b[..|b| - 1];
      var c := b[|b| - 1];
      assert (a + b)[..|a + b| - 1] == a + b' && (a + b)[|a + b| - 1] == c;
      DigitsValueConcat(a, b');
      var x, p, v := DigitsValue(a), Pow10(|b'|), DigitsValue(b');
      assert DigitsValue(a + b) == 10 * (x * p + v) + DigitValue(c);
      assert DigitsValue(b) == 10 * v + DigitValue(c);
      assert Pow10(|b|) == 10 * p;
      ShiftLeft(x, p, v, DigitValue(c));
    }
  }

  lemma ShiftLeft(x: int, p: int, v: int, d: int)
    ensures 10 * (x * p + v) + d == x * (10 * p) + (10 * v + d)
  {
  }

  /** The shortest decimal spelling of `n`: no leading zero except for 0 itself. */
  function ShowNat(n: nat): (s: string)
    ensures s != [] && AllDigits(s)
    ensures DigitsValue(s) == n
    ensures |s| > 1 ==> s[0] != '0'
  {
    if n < 10 then [DigitChar(n)]
    else
      var s := ShowNat(n / 10) + [DigitChar(n % 10)];
      assert s[..|s| - 1] == ShowNat(n / 10);
      s
  }

  function ShowInt(n: int): string
  {
    if n < 0 then "-" + ShowNat(-n) else ShowNat(n)
  }

  predicate HasSign(s: string) { |s| > 0 && (s[0] == '-' || s[0] == '+') }

  /** A token with its optional leading sign taken off. */
  function Unsigned(s: string): string
  {
    if HasSign(s) then s[1..] else s
  }

  /** A whole-number token: an optional sign followed by at least one digit. */
  function ParseInteger(s: string): Option<int>
  {
    var body := Unsigned(s);
    if body != [] && AllDigits(body) then
      var v: int := DigitsValue(body);
      Some(if HasSign(s) && s[0] == '-' then -v else v)
    else None
  }

  /** Spelling an integer and reading it back gives the integer. */
  lemma ParseShowInt(n: int)
    ensures ParseInteger(ShowInt(n)) == Some(n)
  {
    if n < 0 {
      assert ("-" + ShowNat(-n))[1..] == ShowNat(-n);
    }
  }

  /** A decimal number: mantissa / 10^scale. */
  datatype Decimal = Decimal(mantissa: int, scale: nat)

  /** Position of the first '.' in `s`, or |s| when there is none. */
  function DotIndex(s: string): (k: nat)
    ensures k <= |s|
    ensures k < |s| ==> s[k] == '.'
    ensures forall j | 0 <= j < k :: s[j] != '.'
  {
    if s == [] then 0 else if s[0] == '.' then 0 else 1 + DotIndex(s[1..])
  }

  /** A decimal token: an optional sign, digits, and optionally one '.' followed
      by more digits, with at least one digit in all. */
  function ParseDecimal(s: string): Option<Decimal>
  {
    var body := Unsigned(s);
    var k := DotIndex(body);
    var whole := body[..k];
    var fraction := if k < |body| then body[k + 1..] else [];
    if |whole| + |fraction| > 0 && AllDigits(whole) && AllDigits(fraction) then
      var m: int := DigitsValue(whole + fraction);
      Some(Decimal(if HasSign(s) && s[0] == '-' then -m else m, |fraction|))
    else None
  }

  /** Every whole-number token is also a decimal token, with the same value and no fractional digits. */
  lemma DecimalExtendsInteger(s: string)
    ensures ParseInteger(s).Some? ==> ParseDecimal(s) == Some(Decimal(ParseInteger(s).value, 0))
  {
    var body := Unsigned(s);
    if body != [] && AllDigits(body) {
      assert body[..DotIndex(body)] + [] == body;
    }
  }

  /** The digits after the point are the fractional part: "w.f" reads as w + f / 10^|f|. */
  lemma ParseDecimalPoint(w: string, f: string)
    requires AllDigits(w) && AllDigits(f) && |w| + |f| > 0
    ensures AllDigits(w + f)
    ensures ParseDecimal(w + "." + f) == Some(Decimal(DigitsValue(w + f), |f|))
    ensures DigitsValue(w + f) == DigitsValue(w) * Pow10(|f|) + DigitsValue(f)
  {
    var s := w + "." + f;
    PointTokenUnsigned(w, f);
    PointTokenDot(w, f);
    assert s[..|w|] == w && s[|w| + 1..] == f;
    ParseUnsignedWithPoint(s, |w|);
    assert s[..|w|] + s[|w| + 1..] == w + f;
    DigitsValueConcat(w, f);
  }

  lemma PointTokenUnsigned(w: string, f: string)
    requires AllDigits(w) && AllDigits(f) && |w| + |f| > 0
    ensures !HasSign(w + "." + f)
  {
    var s := w + "." + f;
    assert s[|w|] == '.';
    if |w| > 0 { assert s[0] == w[0]; }
  }

  lemma PointTokenDot(w: string, f: string)
    requires AllDigits(w)
    ensures DotIndex(w + "." + f) == |w|
  {
    assert w + "." + f == w + ("." + f);
    DotIndexAfterDigits(w, "." + f);
  }

  lemma ParseUnsignedWithPoint(s: string, k: nat)
    requires !HasSign(s) && DotIndex(s) == k < |s|
    requires AllDigits(s[..k]) && AllDigits(s[k + 1..]) && |s| > 1
    ensures AllDigits(s[..k] + s[k + 1..])
    ensures ParseDecimal(s) == Some(Decimal(DigitsValue(s[..k] + s[k + 1..]), |s| - k - 1))
  {
    AllDigitsConcat(s[..k], s[k + 1..]);
  }

  lemma AllDigitsConcat(a: string, b: string)
    requires AllDigits(a) && AllDigits(b)
    ensures AllDigits(a + b)
  {
  }

  lemma {:induction false} DotIndexAfterDigits(w: string, rest: string)
    requires AllDigits(w) && |rest| > 0 && rest[0] == '.'
    ensures DotIndex(w + rest) == |w|
  {
    if w != [] {
      assert (w + rest)[0] == w[0] && IsDigit(w[0]);
      assert (w + rest)[1..] == w[1..] + rest;
      DotIndexAfterDigits(w[1..], rest);
    }
  }

  function Dist(a: int, b: int): nat
  {
    if a >= b then a - b else b - a
  }

  /** Rounds a decimal to the nearest integer; a value exactly halfway between
      two integers goes to the even one. */
  function RoundHalfEven(d: Decimal): (r: int)
    ensures 2 * Dist(r * Pow10(d.scale), d.mantissa) <= Pow10(d.scale)
    ensures 2 * Dist(r * Pow10(d.scale), d.mantissa) == Pow10(d.scale) ==> r % 2 == 0
    ensures d.scale == 0 ==> r == d.mantissa
  {
    var p := Pow10(d.scale);
    var q := d.mantissa / p;
    var rem := d.mantissa % p;
    assert d.mantissa == q * p + rem;
    assert (q + 1) * p == q * p + p;
    if 2 * rem < p then q
    else if 2 * rem > p then q + 1
    else if q % 2 == 0 then q
    else q + 1
  }

  /** Only one integer is nearest with ties to even: RoundHalfEven is that integer. */
  lemma RoundHalfEvenUnique(d: Decimal, r': int)
    requires 2 * Dist(r' * Pow10(d.scale), d.mantissa) <= Pow10(d.scale)
    requires 2 * Dist(r' * Pow10(d.scale), d.mantissa) == Pow10(d.scale) ==> r' % 2 == 0
    ensures r' == RoundHalfEven(d)
  {
    NearestEvenUnique(d.mantissa, Pow10(d.scale), RoundHalfEven(d), r');
  }

  /** Two integer multiples of p nearest to m, both even on a tie, coincide. */
  lemma NearestEvenUnique(m: int, p: int, r: int, r': int)
    requires p >= 1
    requires 2 * Dist(r * p, m) <= p && (2 * Dist(r * p, m) == p ==> r % 2 == 0)
    requires 2 * Dist(r' * p, m) <= p && (2 * Dist(r' * p, m) == p ==> r' % 2 == 0)
    ensures r == r'
  {
    if r < r' {
      MultiplesApart(r, r', p);
    } else if r' < r {
      MultiplesApart(r', r, p);
    }
  }

  /** Distinct multiples of p lie at least p apart, and exactly p apart only
      for neighbouring factors. */
  lemma MultiplesApart(x: int, y: int, p: int)
    requires p >= 1 && x < y
    ensures y * p - x * p >= p
    ensures y * p - x * p == p ==> y == x + 1
  {
    var d := y - x;
    assert y * p - x * p == d * p;
    if d >= 2 {
      MulAtLeast(d, p);
    }
  }

  lemma MulAtLeast(k: int, p: int)
    requires k >= 2 && p >= 1
    ensures k * p >= 2 * p
  {
  }
}
