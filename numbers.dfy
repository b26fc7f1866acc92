/** Spreadsheet numbers as exact decimals, and the two conversions the ETL
    applies to them: Python's `float(text)`, restricted to plain decimal
    literals, and `str(x)` of a number cell, in Python's repr layout for
    magnitudes that print without an exponent. `int(x)` truncates toward
    zero. */
module Numbers {
  import opened Wrappers
  import opened Strings

  /** The number `mantissa / 10^scale`. */
  datatype Decimal = Decimal(mantissa: int, scale: nat)

  function Pow10(n: nat): (r: nat)
    ensures r >= 1
  {
    if n == 0 then 1 else 10 * Pow10(n - 1)
  }

  lemma {:induction false} Pow10Add(a: nat, b: nat)
    ensures Pow10(a + b) == Pow10(a) * Pow10(b)
    decreases a
  {
    if a > 0 {
      Pow10Add(a - 1, b);
      assert Pow10(a + b) == 10 * Pow10(a - 1 + b);
    }
  }

  /** Floor division by a positive divisor. */
  function Quot(a: nat, p: nat): (q: nat)
    requires p >= 1
    ensures q * p <= a < q * p + p
  {
    DivMod(a, p);
    a / p
  }

  /** The remainder left by `Quot`. */
  function Rem(a: nat, p: nat): (r: nat)
    requires p >= 1
    ensures r < p && a == Quot(a, p) * p + r
  {
    DivMod(a, p);
    a % p
  }

  lemma DivMod(a: nat, p: nat)
    requires p >= 1
    ensures a == (a / p) * p + a % p && a % p < p
  {
  }

  function Abs(x: int): nat {
    if x < 0 then -x else x
  }

  /** The digits before the point: `|mantissa| // 10^scale`. */
  function WholePart(d: Decimal): (q: nat)
    ensures q * Pow10(d.scale) <= Abs(d.mantissa) < q * Pow10(d.scale) + Pow10(d.scale)
  {
    Quot(Abs(d.mantissa), Pow10(d.scale))
  }

  /** The digits after the point, as a number below `10^scale`. */
  function FractionPart(d: Decimal): (r: nat)
    ensures r < Pow10(d.scale)
    ensures Abs(d.mantissa) == WholePart(d) * Pow10(d.scale) + r
  {
    Rem(Abs(d.mantissa), Pow10(d.scale))
  }

  /** The two decimals denote the same number. */
  predicate SameValue(a: Decimal, b: Decimal) {
    a.mantissa * Pow10(b.scale) == b.mantissa * Pow10(a.scale)
  }

  predicate IsDigit(c: char) {
    '0' <= c <= '9'
  }

  predicate AllDigits(s: string) {
    forall i :: 0 <= i < |s| ==> IsDigit(s[i])
  }

  function DigitValue(c: char): nat
    requires IsDigit(c)
  {
    c as int - '0' as int
  }

  function DigitChar(n: nat): (c: char)
    requires n < 10
    ensures IsDigit(c) && DigitValue(c) == n
  {
    ('0' as int + n) as char
  }

  /** The value of a string of decimal digits, most significant first. */
  function DigitsValue(s: string): nat
    requires AllDigits(s)
  {
    if |s| == 0 then 0 else DigitsValue(s[..|s| - 1]) * 10 + DigitValue(s[|s| - 1])
  }

  lemma {:induction false} DigitsValueAppend(a: string, b: string)
    requires AllDigits(a) && AllDigits(b)
    ensures AllDigits(a + b) && DigitsValue(a + b) == DigitsValue(a) * Pow10(|b|) + DigitsValue(b)
    decreases |b|
  {
    if |b| > 0 {
      var b' := b[..|b| - 1];
      assert (a + b)[..|a + b| - 1] == a + b';
      assert (a + b)[|a + b| - 1] == b[|b| - 1];
      DigitsValueAppend(a, b');
      ShiftDigit(DigitsValue(a), Pow10(|b'|), DigitsValue(b'), DigitValue(b[|b| - 1]));
    } else {
      assert a + b == a;
    }
  }

  /** Appending one digit to `x` followed by `y` shifts `x` one place. */
  lemma ShiftDigit(x: nat, p: nat, y: nat, d: nat)
    ensures (x * p + y) * 10 + d == x * (10 * p) + (y * 10 + d)
  {
  }

  /** Zeros only. */
  lemma {:induction false} ZerosValue(z: string)
    requires forall i :: 0 <= i < |z| ==> z[i] == '0'
    ensures AllDigits(z) && DigitsValue(z) == 0
    decreases |z|
  {
    if |z| > 0 { ZerosValue(z[..|z| - 1]); }
  }

  /** `m` with a minus sign when `negative`. */
  function Signed(negative: bool, m: nat): (r: int)
    ensures Abs(r) == m && (r < 0 <==> negative && m > 0)
  {
    if negative then -(m as int) else m
  }

  /** A decimal literal as Python's `float()` accepts it once surrounding
      whitespace is gone: an optional sign, digits, and at most one point,
      with at least one digit. The exponent form, `inf`/`nan`, `_` between
      digits and non-ASCII digits are not part of this model. */
  function ParseDecimal(t: string): Option<Decimal> {
    var negative := |t| > 0 && t[0] == '-';
    var body := if |t| > 0 && (t[0] == '-' || t[0] == '+') then t[1..] else t;
    var intPart := if '.' in body then body[..FirstIndex(body, '.')] else body;
    var fracPart := if '.' in body then body[FirstIndex(body, '.') + 1..] else "";
    if AllDigits(intPart) && AllDigits(fracPart) && |intPart| + |fracPart| >= 1 then
      DigitsValueAppend(intPart, fracPart);
      Some(Decimal(Signed(negative, DigitsValue(intPart + fracPart)), |fracPart|))
    else None
  }

  /** Python's `float(s)`: the literal after `float` strips whitespace itself. */
  function PyFloat(s: string): Option<Decimal> {
    ParseDecimal(Strip(s))
  }

  /** `n` in decimal, without leading zeros. */
  function NatText(n: nat): (r: string)
    ensures |r| >= 1 && AllDigits(r) && DigitsValue(r) == n
  {
    if n < 10 then [DigitChar(n)]
    else
      var r := NatText(n / 10) + [DigitChar(n % 10)];
      assert r[..|r| - 1] == NatText(n / 10);
      r
  }

  /** `n` in exactly `width` decimal digits, padded with leading zeros. */
  function FixedDigits(n: nat, width: nat): (r: string)
    requires n < Pow10(width)
    ensures |r| == width && AllDigits(r) && DigitsValue(r) == n
  {
    if width == 0 then ""
    else
      var r := FixedDigits(n / 10, width - 1) + [DigitChar(n % 10)];
      assert r[..|r| - 1] == FixedDigits(n / 10, width - 1);
      r
  }

  /** The fraction digits `str()` prints: trailing zeros dropped, at least one
      digit kept. */
  function FractionText(d: Decimal): string {
    var digits := RStripChar(FixedDigits(FractionPart(d), d.scale), '0');
    if digits == "" then "0" else digits
  }

  /** Python's `str()` of a number cell: sign, integer part, a point and the
      fraction without trailing zeros (`2024.0`, `12.5`, `-0.25`). Python
      switches to an exponent below 1e-4 and from 1e16 on; that layout is not
      modelled. */
  function Render(d: Decimal): string {
    (if d.mantissa < 0 then "-" else "")
    + NatText(WholePart(d)) + "." + FractionText(d)
  }

  lemma FractionTextShape(d: Decimal)
    ensures var f := FractionText(d);
      && |f| >= 1 && AllDigits(f)
      && DigitsValue(f) * Pow10(d.scale) == FractionPart(d) * Pow10(|f|)
  {
    var e := d.scale;
    var p := Pow10(e);
    var rem := FractionPart(d);
    var full := FixedDigits(rem, e);
    var digits := RStripChar(full, '0');
    var zeros := full[|digits|..];
    assert full == digits + zeros;
    assert AllDigits(digits) by {
      forall i | 0 <= i < |digits| ensures IsDigit(digits[i]) { assert digits[i] == full[i]; }
    }
    ZerosValue(zeros);
    DigitsValueAppend(digits, zeros);
    var v := DigitsValue(digits);
    assert rem == v * Pow10(|zeros|);
    if digits == "" {
      assert DigitsValue("0") == 0 by { assert "0"[..0] == ""; }
      assert rem == 0;
    } else {
      Pow10Add(|zeros|, |digits|);
      assert p == Pow10(|zeros|) * Pow10(|digits|);
      ScaleBoth(v, Pow10(|zeros|), Pow10(|digits|));
    }
  }

  /** `v * (z * w) == (v * z) * w`. */
  lemma ScaleBoth(v: nat, z: nat, w: nat)
    ensures v * (z * w) == (v * z) * w
  {
  }

  /** The magnitude `float()` reads back from `Render(d)`: the integer part
      followed by the printed fraction digits. */
  function RenderedMagnitude(d: Decimal): nat {
    FractionTextShape(d);
    WholePart(d) * Pow10(|FractionText(d)|) + DigitsValue(FractionText(d))
  }

  /** A signed literal `digits.digits` parses to its digits read as one number,
      scaled by the count of fraction digits. */
  lemma ParsePointed(negative: bool, it: string, f: string)
    requires AllDigits(it) && AllDigits(f) && |it| >= 1
    ensures AllDigits(it + f)
    ensures ParseDecimal((if negative then "-" else "") + (it + "." + f))
      == Some(Decimal(Signed(negative, DigitsValue(it + f)), |f|))
  {
    var body := it + "." + f;
    var t := (if negative then "-" else "") + body;
    var b := if |t| > 0 && (t[0] == '-' || t[0] == '+') then t[1..] else t;
    assert b == body by {
      if negative { assert t[1..] == body; } else { assert t[0] == it[0]; }
    }
    PointedParts(it, f);
    DigitsValueAppend(it, f);
  }

  /** The first point of `digits.rest` ends the digits. */
  lemma PointedParts(it: string, f: string)
    requires AllDigits(it)
    ensures var body := it + "." + f;
      && '.' in body
      && body[..FirstIndex(body, '.')] == it
      && body[FirstIndex(body, '.') + 1..] == f
  {
    var body := it + "." + f;
    assert '.' !in it by { assert forall i :: 0 <= i < |it| ==> IsDigit(it[i]); }
    assert body[|it|] == '.';
    assert body[..|it|] == it;
    FirstIndexAt(body, '.', |it|);
    assert body[|it| + 1..] == f;
  }

  /** The characters of a signed `digits.digits` literal. */
  predicate LiteralChars(t: string) {
    forall i :: 0 <= i < |t| ==> t[i] == '-' || t[i] == '.' || IsDigit(t[i])
  }

  lemma PointedShape(negative: bool, it: string, f: string)
    requires AllDigits(it) && AllDigits(f) && |it| >= 1 && |f| >= 1
    ensures var t := (if negative then "-" else "") + (it + "." + f);
      Strip(t) == t && '.' in t && LiteralChars(t)
  {
    var sign: string := if negative then "-" else "";
    var t := sign + (it + "." + f);
    DigitNotSpace(f[|f| - 1]);
    assert t[|t| - 1] == f[|f| - 1];
    if !negative {
      assert t[0] == it[0];
      DigitNotSpace(it[0]);
    }
    StripOfStripped(t);
    assert t[|sign| + |it|] == '.';
    forall i | 0 <= i < |t| ensures t[i] == '-' || t[i] == '.' || IsDigit(t[i]) {
      if i < |sign| {
      } else if i < |sign| + |it| {
        assert t[i] == it[i - |sign|];
      } else if i > |sign| + |it| {
        assert t[i] == f[i - |sign| - |it| - 1];
      }
    }
  }

  /** `str()` of a number is a sign, digits, one point and digits: no
      whitespace at either end and no thousands separator. */
  lemma RenderShape(d: Decimal)
    ensures Strip(Render(d)) == Render(d) && '.' in Render(d) && LiteralChars(Render(d))
  {
    var it := NatText(WholePart(d));
    var f := FractionText(d);
    FractionTextShape(d);
    assert Render(d) == (if d.mantissa < 0 then "-" else "") + (it + "." + f);
    PointedShape(d.mantissa < 0, it, f);
  }

  /** `float()` accepts what `str()` prints, reading the digits on both sides
      of the point. */
  lemma RenderParses(d: Decimal)
    ensures PyFloat(Render(d)) == Some(Decimal(Signed(d.mantissa < 0, RenderedMagnitude(d)), |FractionText(d)|))
  {
    var it := NatText(WholePart(d));
    var f := FractionText(d);
    FractionTextShape(d);
    var sign: string := if d.mantissa < 0 then "-" else "";
    var t := sign + (it + "." + f);
    assert Render(d) == t;
    DigitNotSpace(if d.mantissa < 0 then '0' else it[0]);
    DigitNotSpace(f[|f| - 1]);
    assert t[|t| - 1] == f[|f| - 1];
    assert t[0] == if d.mantissa < 0 then '-' else it[0];
    StripOfStripped(t);
    assert PyFloat(Render(d)) == ParseDecimal(t);
    ParsePointed(d.mantissa < 0, it, f);
    DigitsValueAppend(it, f);
    assert DigitsValue(it) == WholePart(d);
    assert DigitsValue(it + f) == RenderedMagnitude(d);
  }

  lemma DigitNotSpace(c: char)
    requires IsDigit(c)
    ensures !IsSpace(c)
  {
  }

  /** `(q*F + v) * E == (q*E + r) * F` once `v * E == r * F`. */
  lemma CrossScale(q: nat, v: nat, r: nat, e: nat, f: nat)
    requires v * e == r * f
    ensures (q * f + v) * e == (q * e + r) * f
  {
    calc {
      (q * f + v) * e;
      q * f * e + v * e;
      q * e * f + r * f;
      (q * e + r) * f;
    }
  }

  /** What `str()` prints for a number is a literal that `float()` reads back
      as the same number. */
  lemma RenderRoundTrip(d: Decimal)
    ensures PyFloat(Render(d)).Some?
    ensures SameValue(PyFloat(Render(d)).value, d)
  {
    RenderParses(d);
    var back := Decimal(Signed(d.mantissa < 0, RenderedMagnitude(d)), |FractionText(d)|);
    assert PyFloat(Render(d)) == Some(back);
    MagnitudeScales(d);
    SignedScale(d.mantissa < 0, RenderedMagnitude(d), Abs(d.mantissa), Pow10(d.scale), Pow10(|FractionText(d)|));
    assert Signed(d.mantissa < 0, Abs(d.mantissa)) == d.mantissa;
    assert SameValue(back, d);
  }

  /** The magnitude read back, over `10^|fraction digits|`, is `|mantissa| / 10^scale`. */
  lemma MagnitudeScales(d: Decimal)
    ensures RenderedMagnitude(d) * Pow10(d.scale) == Abs(d.mantissa) * Pow10(|FractionText(d)|)
  {
    FractionTextShape(d);
    var f := FractionText(d);
    var e, F := Pow10(d.scale), Pow10(|f|);
    assert RenderedMagnitude(d) == WholePart(d) * F + DigitsValue(f);
    CrossScale(WholePart(d), DigitsValue(f), FractionPart(d), e, F);
  }

  /** Attaching the same sign keeps a cross-multiplied equality. */
  lemma SignedScale(negative: bool, m: nat, a: nat, e: nat, f: nat)
    requires m * e == a * f
    ensures Signed(negative, m) * e == Signed(negative, a) * f
  {
    if negative {
      assert (-(m as int)) * e == -(m * e);
      assert (-(a as int)) * f == -(a * f);
    }
  }

  /** Python's `int(x)` on a number: truncation toward zero. */
  function Trunc(d: Decimal): (r: int)
    ensures Abs(r) * Pow10(d.scale) <= Abs(d.mantissa) < (Abs(r) + 1) * Pow10(d.scale)
    ensures r > 0 ==> d.mantissa > 0
    ensures r < 0 ==> d.mantissa < 0
  {
    var q: int := WholePart(d);
    if d.mantissa < 0 then -q else q
  }
}
