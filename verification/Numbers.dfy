/**
 Exact decimal numbers: Python's `Decimal` as (sign, coefficient, exponent), its
 plain text form, and the normal form that decides numeric equality.
 */
module Numbers {
  import opened Texts

  const MINUS: Code := 0x2D
  const DOT: Code := 0x2E
  const ZERO: Code := 0x30

  /** (-1)^neg * coeff * 10^exp */
  datatype Decimal = Decimal(neg: bool, coeff: nat, exp: int)

  predicate IsDigit(c: Code) { 0x30 <= c <= 0x39 }

  predicate AllDigits(t: Text)
  {
    forall i :: 0 <= i < |t| ==> IsDigit(t[i])
  }

  function Pow10(k: nat): (p: nat)
    ensures p > 0
  {
    if k == 0 then 1 else 10 * Pow10(k - 1)
  }

  function Digit(d: int): Code
    requires 0 <= d < 10
  {
    ZERO + d
  }

  /** The decimal digits of n without leading zeros. */
  function Digits(n: nat): (t: Text)
    ensures t != [] && AllDigits(t)
    ensures t[0] == ZERO <==> n == 0
    ensures n == 0 ==> t == [ZERO]
  {
    if n < 10 then [Digit(n)] else Digits(n / 10) + [Digit(n % 10)]
  }

  /** The number a run of digits denotes. */
  function Val(t: Text): nat
    requires AllDigits(t)
  {
    if t == [] then 0 else 10 * Val(t[..|t| - 1]) + (t[|t| - 1] - ZERO)
  }

  function Zeros(k: nat): (t: Text)
    ensures |t| == k && forall i :: 0 <= i < k ==> t[i] == ZERO
  {
    seq(k, i => ZERO)
  }

  lemma {:induction false} ValDigits(n: nat)
    ensures Val(Digits(n)) == n
  {
    if n >= 10 {
      ValDigits(n / 10);
      assert Digits(n)[..|Digits(n)| - 1] == Digits(n / 10);
    }
  }

  lemma DigitsTimesTen(c: nat)
    requires c > 0
    ensures Digits(10 * c) == Digits(c) + [ZERO]
  {
    assert (10 * c) / 10 == c && (10 * c) % 10 == 0;
  }

  lemma {:induction false} DigitsScaled(c: nat, k: nat)
    requires c > 0
    ensures Digits(c * Pow10(k)) == Digits(c) + Zeros(k)
  {
    if k == 0 {
      assert Digits(c) + Zeros(0) == Digits(c);
    } else {
      DigitsScaled(c, k - 1);
      ScaleOneMore(c, k);
      DigitsTimesTen(c * Pow10(k - 1));
      OneMoreZero(Digits(c), k);
    }
  }

  lemma ScaleOneMore(c: nat, k: nat)
    requires c > 0 && k > 0
    ensures c * Pow10(k) == 10 * (c * Pow10(k - 1)) && c * Pow10(k - 1) > 0
  {
    var p := Pow10(k - 1);
    assert c * (10 * p) == 10 * (c * p);
  }

  lemma OneMoreZero(t: Text, k: nat)
    requires k > 0
    ensures t + Zeros(k) == (t + Zeros(k - 1)) + [ZERO]
  {
    assert Zeros(k) == Zeros(k - 1) + [ZERO];
  }

  /** n has at most k digits exactly when it lies below 10^k. */
  lemma {:induction false} DigitCount(n: nat, k: nat)
    requires k > 0
    ensures |Digits(n)| <= k <==> n < Pow10(k)
  {
    if n < 10 {
      assert Pow10(k) == 10 * Pow10(k - 1);
    } else if k > 1 {
      DigitCount(n / 10, k - 1);
    } else {
      assert Pow10(1) == 10 * Pow10(0);
    }
  }

  lemma {:induction false} ValLeadingZeros(k: nat, t: Text)
    requires AllDigits(t)
    ensures AllDigits(Zeros(k) + t) && Val(Zeros(k) + t) == Val(t)
  {
    if t == [] {
      assert Zeros(k) + t == Zeros(k);
      if k > 0 {
        ValLeadingZeros(k - 1, []);
        assert Zeros(k)[..k - 1] == Zeros(k - 1) + [];
      }
    } else {
      ValLeadingZeros(k, t[..|t| - 1]);
      assert (Zeros(k) + t)[..|Zeros(k) + t| - 1] == Zeros(k) + t[..|t| - 1];
    }
  }

  // ---------------------------------------------------------------------
  // Text form
  // ---------------------------------------------------------------------

  /** Position of the most significant digit: `Decimal.adjusted()`. */
  function Adjusted(d: Decimal): int
  {
    d.exp + |Digits(d.coeff)| - 1
  }

  function Sign(neg: bool): Text { if neg then [MINUS] else [] }

  /** The digits of coeff, widened with zeros so that at least one precedes the point. */
  function Padded(coeff: nat, k: nat): (t: Text)
    ensures |t| > k && AllDigits(t)
  {
    var ds := Digits(coeff);
    if |ds| <= k then Zeros(k + 1 - |ds|) + ds else ds
  }

  /** `format(value, "f")`: plain notation, no exponent. */
  function Plain(d: Decimal): Text
  {
    if d.exp >= 0 then
      Sign(d.neg) + (Digits(d.coeff) + Zeros(d.exp))
    else
      Sign(d.neg) + WithPoint(Padded(d.coeff, -d.exp), -d.exp)
  }

  /** ds with a point before its last k digits. */
  function WithPoint(ds: Text, k: nat): Text
    requires k <= |ds|
  {
    ds[..|ds| - k] + [DOT] + ds[|ds| - k..]
  }

  /** `text.rstrip(c)` */
  function RStrip(t: Text, c: Code): Text
  {
    if t != [] && t[|t| - 1] == c then RStrip(t[..|t| - 1], c) else t
  }

  /** `_dump_decimal` */
  function DumpDecimal(d: Decimal): Text
  {
    if d.coeff == 0 then [ZERO]
    else
      var t := Plain(d);
      if DOT in t then RStrip(RStrip(t, ZERO), DOT) else t
  }

  /** `_dump_int`: the integer routed through Decimal formatting. */
  function DumpInt(n: int): Text
  {
    Plain(OfInt(n))
  }

  function OfInt(n: int): Decimal
  {
    Decimal(n < 0, if n < 0 then -n else n, 0)
  }

  // ---------------------------------------------------------------------
  // Equality and normal form
  // ---------------------------------------------------------------------

  /** Exact numeric equality of decimals: bring both to the smaller exponent. */
  predicate DecimalEqual(a: Decimal, b: Decimal)
  {
    if a.coeff == 0 || b.coeff == 0 then
      a.coeff == b.coeff
    else
      var m := if a.exp <= b.exp then a.exp else b.exp;
      a.neg == b.neg && a.coeff * Pow10(a.exp - m) == b.coeff * Pow10(b.exp - m)
  }

  /** Remove trailing zeros from a nonzero coefficient. */
  function Strip(d: Decimal): (r: Decimal)
    requires d.coeff > 0
    ensures r.coeff > 0 && r.coeff % 10 != 0 && r.neg == d.neg && r.exp >= d.exp
    decreases d.coeff
  {
    if d.coeff % 10 == 0 then Strip(Decimal(d.neg, d.coeff / 10, d.exp + 1)) else d
  }

  lemma {:induction false} StripValue(d: Decimal)
    requires d.coeff > 0
    ensures d.coeff == Strip(d).coeff * Pow10(Strip(d).exp - d.exp)
    decreases d.coeff
  {
    var r := Strip(d);
    if d.coeff % 10 == 0 {
      StripValue(Decimal(d.neg, d.coeff / 10, d.exp + 1));
      ScaleStep(r.coeff, r.exp - d.exp);
    } else {
      assert d.coeff * Pow10(0) == d.coeff;
    }
  }

  /** The number a decimal is read back as once printed: an integer when it is one. */
  datatype Number = Whole(n: int) | Fraction(d: Decimal)

  function Normal(d: Decimal): Number
  {
    if d.coeff == 0 then Whole(0)
    else
      var r := Strip(d);
      if r.exp >= 0 then
        var n := r.coeff * Pow10(r.exp);
        Whole(if r.neg then -n else n)
      else Fraction(r)
  }

  lemma StripTen(d: Decimal)
    requires d.coeff > 0
    ensures Strip(Decimal(d.neg, 10 * d.coeff, d.exp - 1)) == Strip(d)
  {
    var c := 10 * d.coeff;
    assert c % 10 == 0 && c / 10 == d.coeff;
  }

  lemma ScaleStep(c: nat, k: nat)
    requires k > 0
    ensures c * Pow10(k) == 10 * (c * Pow10(k - 1))
  {}

  lemma {:induction false} StripScaled(d: Decimal, k: nat)
    requires d.coeff > 0
    ensures d.coeff * Pow10(k) > 0
    ensures Strip(Decimal(d.neg, d.coeff * Pow10(k), d.exp - k)) == Strip(d)
  {
    if k > 0 {
      StripScaled(d, k - 1);
      ScaleStep(d.coeff, k);
      StripTen(Decimal(d.neg, d.coeff * Pow10(k - 1), d.exp - (k - 1)));
    } else {
      assert d.coeff * Pow10(0) == d.coeff;
    }
  }

  lemma StripUnique(a: Decimal, b: Decimal)
    requires a.coeff > 0 && b.coeff > 0
    ensures DecimalEqual(a, b) <==> Strip(a) == Strip(b)
  {
    if a.exp <= b.exp { StripUniqueOrdered(a, b); } else { StripUniqueOrdered(b, a); }
  }

  lemma EqualOrdered(a: Decimal, b: Decimal, k: nat)
    requires a.coeff > 0 && b.coeff > 0 && k == b.exp - a.exp
    ensures DecimalEqual(a, b) <==> a.neg == b.neg && a.coeff == b.coeff * Pow10(k)
    ensures DecimalEqual(b, a) <==> a.neg == b.neg && a.coeff == b.coeff * Pow10(k)
  {
    assert Pow10(0) == 1 && a.coeff * 1 == a.coeff;
  }

  lemma StripUniqueOrdered(a: Decimal, b: Decimal)
    requires a.coeff > 0 && b.coeff > 0 && a.exp <= b.exp
    ensures DecimalEqual(a, b) <==> Strip(a) == Strip(b)
    ensures DecimalEqual(b, a) <==> Strip(a) == Strip(b)
  {
    var k := b.exp - a.exp;
    EqualOrdered(a, b, k);
    if Strip(a) == Strip(b) {
      StripMeet(a, b);
    } else if DecimalEqual(a, b) {
      ScaledStrips(a, b, k);
    }
  }

  lemma ScaledStrips(a: Decimal, b: Decimal, k: nat)
    requires b.coeff > 0 && k == b.exp - a.exp && a.neg == b.neg && a.coeff == b.coeff * Pow10(k)
    ensures a.coeff > 0 && Strip(a) == Strip(b)
  {
    StripScaled(b, k);
    assert a == Decimal(b.neg, b.coeff * Pow10(k), b.exp - k);
  }

  lemma {:induction false} StripMeet(a: Decimal, b: Decimal)
    requires a.coeff > 0 && b.coeff > 0 && a.exp <= b.exp && Strip(a) == Strip(b)
    ensures a.neg == b.neg && a.coeff == b.coeff * Pow10(b.exp - a.exp)
    decreases b.exp - a.exp
  {
    if a.exp == b.exp {
      StripValue(a);
      StripValue(b);
      assert b.coeff * Pow10(0) == b.coeff;
    } else {
      var up := Decimal(a.neg, a.coeff / 10, a.exp + 1);
      assert a.coeff % 10 == 0;
      StripMeet(up, b);
      ScaleStep(b.coeff, b.exp - a.exp);
    }
  }

  /** Numeric equality is equality of normal forms. */
  lemma NormalDecidesEquality(a: Decimal, b: Decimal)
    ensures DecimalEqual(a, b) <==> Normal(a) == Normal(b)
  {
    if a.coeff > 0 && b.coeff > 0 {
      StripUnique(a, b);
      var ra, rb := Strip(a), Strip(b);
      if ra.exp >= 0 && rb.exp >= 0 && Normal(a) == Normal(b) {
        NormalOfStripped(ra);
        NormalOfStripped(rb);
      }
    } else if a.coeff > 0 {
      WholeNonzero(a);
    } else if b.coeff > 0 {
      WholeNonzero(b);
    }
  }

  lemma WholeNonzero(d: Decimal)
    requires d.coeff > 0
    ensures Normal(d) != Whole(0)
  {
    var r := Strip(d);
    if r.exp >= 0 { assert r.coeff * Pow10(r.exp) > 0; }
  }

  /** A whole number determines the stripped decimal it came from. */
  lemma NormalOfStripped(r: Decimal)
    requires r.coeff > 0 && r.exp >= 0 && r == Strip(r)
    ensures Normal(r).Whole?
    ensures Normal(r).n != 0 && (Normal(r).n < 0 <==> r.neg)
    ensures r == Strip(OfInt(Normal(r).n))
  {
    StripScaled(r, r.exp);
    assert r.coeff * Pow10(r.exp) > 0;
    assert Decimal(r.neg, r.coeff * Pow10(r.exp), 0) == OfInt(Normal(r).n);
  }

  // ---------------------------------------------------------------------
  // Printing depends only on the normal form
  // ---------------------------------------------------------------------

  lemma PlainTenWhole(neg: bool, c: nat, e: int)
    requires c > 0 && e >= 0
    ensures Plain(Decimal(neg, 10 * c, e)) == Plain(Decimal(neg, c, e + 1))
  {
    DigitsTimesTen(c);
    assert Zeros(e + 1) == [ZERO] + Zeros(e);
    assert (Digits(c) + [ZERO]) + Zeros(e) == Digits(c) + Zeros(e + 1);
  }

  lemma PaddedTen(c: nat, k: nat)
    requires c > 0 && k > 0
    ensures Padded(10 * c, k) == Padded(c, k - 1) + [ZERO]
  {
    DigitsTimesTen(c);
  }

  lemma WithPointPush(q: Text, k: nat)
    requires k <= |q|
    ensures WithPoint(q + [ZERO], k + 1) == WithPoint(q, k) + [ZERO]
  {
    var p := q + [ZERO];
    assert p[..|p| - (k + 1)] == q[..|q| - k];
    assert p[|p| - (k + 1)..] == q[|q| - k..] + [ZERO];
  }

  lemma PlainTenFraction(neg: bool, c: nat, k: int)
    requires c > 0 && k > 0
    ensures Plain(Decimal(neg, 10 * c, -k - 1)) == Plain(Decimal(neg, c, -k)) + [ZERO]
  {
    var ten := 10 * c;
    PaddedTen(c, k + 1);
    var p, q := Padded(ten, k + 1), Padded(c, k);
    WithPointPush(q, k);
    assert Plain(Decimal(neg, ten, -(k + 1))) == Sign(neg) + WithPoint(p, k + 1);
    assert Plain(Decimal(neg, c, -k)) == Sign(neg) + WithPoint(q, k);
  }

  /** No digit run contains the point, so a point shows the exponent was negative. */
  lemma PointInPlain(d: Decimal)
    ensures DOT in Plain(d) <==> d.exp < 0
  {
    if d.exp < 0 {
      var ds, t := Padded(d.coeff, -d.exp), Plain(d);
      assert t[|Sign(d.neg)| + |ds| + d.exp] == DOT;
    }
  }

  lemma RStripOnce(t: Text, c: Code)
    ensures RStrip(t + [c], c) == RStrip(t, c)
  {
    assert (t + [c])[..|t|] == t;
  }

  lemma DumpTenWhole(neg: bool, c: nat, e: int)
    requires c > 0 && e >= 0
    ensures DumpDecimal(Decimal(neg, 10 * c, e)) == DumpDecimal(Decimal(neg, c, e + 1))
  {
    PointInPlain(Decimal(neg, 10 * c, e));
    PointInPlain(Decimal(neg, c, e + 1));
    PlainTenWhole(neg, c, e);
  }

  lemma DumpTenFraction(neg: bool, c: nat, e: int)
    requires c > 0 && e < -1
    ensures DumpDecimal(Decimal(neg, 10 * c, e)) == DumpDecimal(Decimal(neg, c, e + 1))
  {
    PointInPlain(Decimal(neg, 10 * c, e));
    PointInPlain(Decimal(neg, c, e + 1));
    PlainTenFraction(neg, c, -e - 1);
    RStripOnce(Plain(Decimal(neg, c, e + 1)), ZERO);
  }

  lemma DumpTenPoint(neg: bool, c: nat)
    requires c > 0
    ensures DumpDecimal(Decimal(neg, 10 * c, -1)) == DumpDecimal(Decimal(neg, c, 0))
  {
    var whole := Sign(neg) + Digits(c);
    PointInPlain(Decimal(neg, 10 * c, -1));
    PointInPlain(Decimal(neg, c, 0));
    PlainTenPoint(neg, c, whole);
    StripTenPoint(whole);
  }

  lemma PlainTenPoint(neg: bool, c: nat, whole: Text)
    requires c > 0 && whole == Sign(neg) + Digits(c)
    ensures Plain(Decimal(neg, 10 * c, -1)) == (whole + [DOT]) + [ZERO] && Plain(Decimal(neg, c, 0)) == whole
  {
    DigitsTimesTen(c);
    assert Padded(10 * c, 1) == Digits(c) + [ZERO];
  }

  lemma StripTenPoint(whole: Text)
    requires DOT !in whole
    ensures RStrip(RStrip((whole + [DOT]) + [ZERO], ZERO), DOT) == whole
  {
    RStripOnce(whole + [DOT], ZERO);
    RStripOnce(whole, DOT);
  }

  lemma DumpTen(neg: bool, c: nat, e: int)
    requires c > 0
    ensures DumpDecimal(Decimal(neg, 10 * c, e)) == DumpDecimal(Decimal(neg, c, e + 1))
  {
    if e >= 0 {
      DumpTenWhole(neg, c, e);
    } else if e < -1 {
      DumpTenFraction(neg, c, e);
    } else {
      DumpTenPoint(neg, c);
    }
  }

  lemma AdjustedTen(neg: bool, c: nat, e: int)
    requires c > 0
    ensures Adjusted(Decimal(neg, 10 * c, e)) == Adjusted(Decimal(neg, c, e + 1))
  {
    DigitsTimesTen(c);
  }

  lemma {:induction false} DumpStrip(d: Decimal)
    requires d.coeff > 0
    ensures DumpDecimal(d) == DumpDecimal(Strip(d))
    ensures Adjusted(d) == Adjusted(Strip(d))
    decreases d.coeff
  {
    if d.coeff % 10 == 0 {
      var up := OneUp(d);
      DumpTen(up.neg, up.coeff, up.exp - 1);
      AdjustedTen(up.neg, up.coeff, up.exp - 1);
      StripTen(up);
      DumpStrip(up);
    }
  }

  /** The decimal with one zero fewer at the end of its coefficient. */
  lemma OneUp(d: Decimal) returns (up: Decimal)
    requires d.coeff > 0 && d.coeff % 10 == 0
    ensures 0 < up.coeff < d.coeff && d == Decimal(up.neg, 10 * up.coeff, up.exp - 1)
  {
    up := Decimal(d.neg, d.coeff / 10, d.exp + 1);
  }

  lemma LastDigit(c: nat)
    requires c % 10 != 0
    ensures var t := Digits(c); t[|t| - 1] != ZERO
  {}

  /** The text `_dump_decimal` prints for each normal form, and the bound it keeps. */
  lemma DumpNormal(d: Decimal)
    ensures match Normal(d)
      case Whole(n) =>
        && DumpDecimal(d) == DumpInt(n)
        && (d.coeff > 0 ==> |Digits(OfInt(n).coeff)| == Adjusted(d) + 1)
        && (d.coeff == 0 ==> n == 0)
      case Fraction(r) =>
        && DumpDecimal(d) == Plain(r) && r.exp < 0
        && r.coeff > 0 && r.coeff % 10 != 0 && Adjusted(r) == Adjusted(d)
  {
    if d.coeff > 0 {
      var r := Strip(d);
      DumpStrip(d);
      if r.exp >= 0 { WholePlain(r); } else { FractionPlain(r); }
    } else {
      DumpZero(d);
    }
  }

  lemma DumpZero(d: Decimal)
    requires d.coeff == 0
    ensures Normal(d) == Whole(0) && DumpDecimal(d) == DumpInt(0)
  {
    assert Digits(0) + Zeros(0) == [ZERO];
  }

  lemma FractionPlain(r: Decimal)
    requires r.coeff > 0 && r.coeff % 10 != 0 && r.exp < 0
    ensures DumpDecimal(r) == Plain(r)
  {
    PointInPlain(r);
    LastDigit(r.coeff);
    var t, p := Plain(r), Padded(r.coeff, -r.exp);
    assert t[|t| - 1] == p[|p| - 1] == Digits(r.coeff)[|Digits(r.coeff)| - 1];
  }

  lemma WholePlain(r: Decimal)
    requires r.coeff > 0 && r.exp >= 0
    ensures var n := r.coeff * Pow10(r.exp);
      n > 0 && DumpDecimal(r) == DumpInt(if r.neg then -n else n)
      && |Digits(n)| == Adjusted(r) + 1
  {
    DigitsScaled(r.coeff, r.exp);
    PointInPlain(r);
    var n := r.coeff * Pow10(r.exp);
    assert n > 0;
    assert Digits(n) + Zeros(0) == Digits(n);
  }

  /** A whole number is its own normal form, a stripped fraction as well. */
  lemma NormalIdempotent(d: Decimal)
    ensures Normal(d).Whole? ==> Normal(OfInt(Normal(d).n)) == Normal(d)
    ensures Normal(d).Fraction? ==> Normal(Normal(d).d) == Normal(d)
  {
    if d.coeff > 0 && Strip(d).exp >= 0 {
      NormalOfStripped(Strip(d));
    }
  }
}
