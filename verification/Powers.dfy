/** Powers of two, and scaling of real numbers by them. */
module Powers {

  /** 2^n as a natural number. */
  function Two(n: nat): (p: nat)
    ensures p >= 1
    decreases n
  {
    if n == 0 then 1 else 2 * Two(n - 1)
  }

  lemma TwoStep(n: nat)
    ensures Two(n + 1) == 2 * Two(n)
  {
  }

  lemma {:induction false} TwoAdd(a: nat, b: nat)
    ensures Two(a + b) == Two(a) * Two(b)
    decreases b
  {
    if b > 0 {
      TwoAdd(a, b - 1);
    }
  }

  lemma {:induction false} TwoMono(a: nat, b: nat)
    requires a <= b
    ensures Two(a) <= Two(b)
    decreases b
  {
    if a < b {
      TwoMono(a, b - 1);
    }
  }

  lemma {:induction false} TwoExceeds(n: nat)
    ensures n < Two(n)
    decreases n
  {
    if n > 0 {
      TwoExceeds(n - 1);
    }
  }

  /** m * 2^e, for a negative e too. */
  function Scaled(m: real, e: int): real
    decreases if e < 0 then -e else e
  {
    if e == 0 then m
    else if e > 0 then Scaled(2.0 * m, e - 1)
    else Scaled(m / 2.0, e + 1)
  }

  lemma {:induction false} ScaledAdd(a: real, b: real, e: int)
    ensures Scaled(a + b, e) == Scaled(a, e) + Scaled(b, e)
    decreases if e < 0 then -e else e
  {
    if e > 0 {
      ScaledAdd(2.0 * a, 2.0 * b, e - 1);
    } else if e < 0 {
      ScaledAdd(a / 2.0, b / 2.0, e + 1);
      assert (a + b) / 2.0 == a / 2.0 + b / 2.0;
    }
  }

  lemma {:induction false} ScaledStrict(a: real, b: real, e: int)
    requires a < b
    ensures Scaled(a, e) < Scaled(b, e)
    decreases if e < 0 then -e else e
  {
    if e > 0 {
      ScaledStrict(2.0 * a, 2.0 * b, e - 1);
    } else if e < 0 {
      ScaledStrict(a / 2.0, b / 2.0, e + 1);
    }
  }

  lemma ScaledMono(a: real, b: real, e: int)
    requires a <= b
    ensures Scaled(a, e) <= Scaled(b, e)
  {
    if a < b {
      ScaledStrict(a, b, e);
    }
  }

  lemma ScaledByZero(m: real)
    ensures Scaled(m, 0) == m
  {
  }

  lemma ScaledZero(e: int)
    ensures Scaled(0.0, e) == 0.0
  {
    ScaledAdd(0.0, 0.0, e);
  }

  lemma ScaledNeg(a: real, e: int)
    ensures Scaled(-a, e) == -Scaled(a, e)
  {
    ScaledAdd(a, -a, e);
    ScaledZero(e);
  }

  lemma ScaledInjective(a: real, b: real, e: int)
    requires Scaled(a, e) == Scaled(b, e)
    ensures a == b
  {
    if a < b {
      ScaledStrict(a, b, e);
    } else if b < a {
      ScaledStrict(b, a, e);
    }
  }

  /** One step of the exponent is a doubling of the number. */
  lemma {:induction false} ScaledStep(m: real, e: int)
    ensures Scaled(m, e + 1) == Scaled(2.0 * m, e)
    ensures Scaled(2.0 * m, e) == 2.0 * Scaled(m, e)
  {
    ScaledAdd(m, m, e);
  }

  lemma {:induction false} ScaledTwice(m: real, a: int, b: int)
    ensures Scaled(Scaled(m, a), b) == Scaled(m, a + b)
    decreases if b < 0 then -b else b
  {
    if b > 0 {
      ScaledStep(m, a);
      ScaledTwice(m, a + 1, b - 1);
    } else if b < 0 {
      ScaledStep(m, a - 1);
      ScaledTwice(m, a - 1, b + 1);
    }
  }

  lemma {:induction false} ScaledUp(m: real, n: nat)
    ensures Scaled(m, n) == m * Two(n) as real
    decreases n
  {
    if n > 0 {
      ScaledUp(2.0 * m, n - 1);
      ProductStep(m, Two(n - 1) as real);
    }
  }

  lemma {:induction false} ScaledDown(m: real, n: int)
    requires n >= 0
    ensures Scaled(m, -n) == m / Two(n) as real
    decreases n
  {
    if n > 0 {
      ScaledDown(m / 2.0, n - 1);
      QuotientStep(m, Two(n - 1) as real);
    }
  }

  lemma ProductStep(m: real, p: real)
    ensures 2.0 * m * p == m * (2.0 * p)
  {
  }

  lemma QuotientStep(m: real, p: real)
    requires p > 0.0
    ensures (m / 2.0) / p == m / (2.0 * p)
  {
    var q := m / (2.0 * p);
    assert q * (2.0 * p) == m;
    assert (2.0 * p) * q == 2.0 * (q * p);
    assert q * p == m / 2.0;
  }

  /** The larger exponent gives the larger power. */
  lemma {:induction false} ScaledExponentMono(m: real, a: int, b: int)
    requires 0.0 <= m && a <= b
    ensures Scaled(m, a) <= Scaled(m, b)
    decreases b - a
  {
    if a < b {
      ScaledExponentMono(m, a, b - 1);
      ScaledStep(m, b - 1);
      ScaledMono(0.0, m, b - 1);
      ScaledZero(b - 1);
    }
  }

  /** The exponent of the leading binary digit: 2^e <= f < 2^(e+1). */
  function Exponent(f: real): (e: int)
    requires f > 0.0
    ensures Scaled(1.0, e) <= f < Scaled(2.0, e)
    decreases if f < 1.0 then 4.0 / f else f
  {
    if f >= 2.0 then
      var e := Exponent(f / 2.0);
      ScaledStep(1.0, e); ScaledStep(2.0, e);
      e + 1
    else if f < 1.0 then
      DoublingApproachesOne(f);
      var e := Exponent(2.0 * f);
      ScaledStep(1.0, e - 1); ScaledStep(2.0, e - 1);
      e - 1
    else
      0
  }

  /** Doubling a number below 1 brings 4/f down by more than 1. */
  lemma DoublingApproachesOne(f: real)
    requires 0.0 < f < 1.0
    ensures 4.0 / (2.0 * f) <= 4.0 / f - 1.0
    ensures 2.0 * f <= 4.0 / f - 1.0
  {
    var x := 1.0 / f;
    assert x * f == 1.0;
    assert x > 1.0;
    assert 4.0 / f == 4.0 * x;
    assert 4.0 / (2.0 * f) == 2.0 * x by {
      assert (2.0 * x) * (2.0 * f) == 4.0 * (x * f);
    }
  }

  /** The bounds of `Exponent` determine it. */
  lemma ExponentUnique(f: real, e: int)
    requires f > 0.0
    requires Scaled(1.0, e) <= f < Scaled(2.0, e)
    ensures Exponent(f) == e
  {
    var x := Exponent(f);
    ScaledStep(1.0, x);
    ScaledStep(1.0, e);
    if x < e {
      ScaledExponentMono(1.0, x + 1, e);
    } else if e < x {
      ScaledExponentMono(1.0, e + 1, x);
    }
  }

  lemma ExponentMono(f: real, g: real)
    requires 0.0 < f <= g
    ensures Exponent(f) <= Exponent(g)
  {
    var x, y := Exponent(f), Exponent(g);
    if y < x {
      ScaledStep(1.0, y);
      ScaledExponentMono(1.0, y + 1, x);
    }
  }

  /** The part of the normalised number behind the point. */
  function Fraction(f: real): (t: real)
    requires f > 0.0
    ensures 0.0 <= t < 1.0
    ensures f == Scaled(1.0 + t, Exponent(f))
  {
    var e := Exponent(f);
    var m := Scaled(f, -e);
    ScaledTwice(f, -e, e);
    ScaledTwice(1.0, e, -e);
    ScaledTwice(2.0, e, -e);
    ScaledMono(Scaled(1.0, e), f, -e);
    ScaledStrict(f, Scaled(2.0, e), -e);
    m - 1.0
  }

  /** A number written as (1 + t) * 2^e with 0 <= t < 1 has exponent e and fraction t. */
  lemma NormalForm(f: real, t: real, e: int)
    requires 0.0 <= t < 1.0
    requires f == Scaled(1.0 + t, e)
    ensures f > 0.0 && Exponent(f) == e && Fraction(f) == t
  {
    hide Exponent, Fraction;
    ScaledZero(e);
    ScaledStrict(0.0, 1.0 + t, e);
    ScaledMono(1.0, 1.0 + t, e);
    ScaledStrict(1.0 + t, 2.0, e);
    ExponentUnique(f, e);
    ScaledInjective(1.0 + t, 1.0 + Fraction(f), e);
  }
}
