/**
 * The portable floating point codec: `Pack` and `Unpack` convert between a number and the
 * binary interchange format of section 3.4 of IEEE 754-2008, with exact reals standing for
 * `long double`. The methods are the loops of the program; the functions say what they compute
 * for a word of one sign bit, x exponent bits and s significand bits.
 *
 * Shifts and masks are written as multiplication, division and remainder by powers of two;
 * an `|` of disjoint fields is a sum.
 */
module Ieee754 {
  import opened Arithmetic
  import opened Powers

  /** Widths for which every shift in the code is defined and there is a significand field. */
  predicate Admissible(bits: nat, expbits: nat) {
    1 <= expbits <= 31 && expbits + 2 <= bits <= 64
  }

  function Bias(x: nat): nat
    requires x >= 1
  {
    Two(x - 1) - 1
  }

  function Abs(f: real): real {
    if f < 0.0 then -f else f
  }

  /**
   * t times `(1LL << s) + 0.5f`. That sum is a float with 24 significant bits, so from s = 23 on
   * it rounds (a tie, to even) to 2^s.
   */
  function ScaledFraction(t: real, s: nat): real {
    Scaled(t, s) + (if s >= 23 then 0.0 else t / 2.0)
  }

  /** The number the code cuts down for the significand field; n = 2^s overflows the field. */
  function Significand(t: real, s: nat): (n: nat)
    requires 0.0 <= t < 1.0
    ensures n as real <= ScaledFraction(t, s) < n as real + 1.0
    ensures n <= Two(s)
    ensures s >= 23 ==> n < Two(s)
  {
    ScaledZero(s);
    ScaledMono(0.0, t, s);
    ScaledStrict(t, 1.0, s);
    ScaledUp(1.0, s);
    ScaledFraction(t, s).Floor
  }

  /** Zero, or a number whose biased exponent fits the exponent field. */
  predicate InRange(f: real, x: nat)
    requires x >= 1
  {
    f == 0.0 || 0 <= Exponent(Abs(f)) + Bias(x) < Two(x)
  }

  /**
   * `sign << (bits - 1) | e << s | n`. A significand that overflowed its field (n = 2^s)
   * only sets the lowest exponent bit.
   */
  function Join(sign: nat, e: nat, n: nat, s: nat, x: nat): nat
    requires n <= Two(s)
  {
    sign * (Two(x) * Two(s)) + (if n < Two(s) then e * Two(s) + n else (e - e % 2 + 1) * Two(s))
  }

  function Pack(f: real, s: nat, x: nat): nat
    requires x >= 1 && InRange(f, x)
  {
    if f == 0.0 then 0
    else
      Join(if f < 0.0 then 1 else 0, Exponent(Abs(f)) + Bias(x), Significand(Fraction(Abs(f)), s), s, x)
  }

  function SignField(w: nat, s: nat, x: nat): nat {
    HighDigit(w, Two(x), Two(s))
  }

  function ExponentField(w: nat, s: nat, x: nat): nat {
    w / Two(s) % Two(x)
  }

  function FractionField(w: nat, s: nat): nat {
    w % Two(s)
  }

  /** The magnitude that an exponent field e and a fraction field m stand for. */
  function Magnitude(e: int, m: int, s: nat, x: nat): real
    requires x >= 1
  {
    Scaled(1.0 + Scaled(m as real, 0 - s), e - Bias(x))
  }

  /** The number that a word of at most 1 + x + s bits stands for. */
  function Unpack(w: nat, s: nat, x: nat): real
    requires x >= 1
  {
    if w == 0 then 0.0
    else
      var v := Magnitude(ExponentField(w, s, x), FractionField(w, s), s, x);
      if SignField(w, s, x) % 2 == 1 then -v else v
  }

  // ---------- the loops ----------

  method Pack754(f: real, bits: nat, expbits: nat) returns (w: nat)
    requires Admissible(bits, expbits)
    requires InRange(f, expbits)
    ensures w == Pack(f, bits - expbits - 1, expbits)
  {
    hide Two, Join, Exponent, Fraction, ScaledFraction;
    var significandbits := bits - expbits - 1;
    var sign, fnorm;
    if f < 0.0 {
      sign, fnorm := 1, -f;
    } else if f > 0.0 {
      sign, fnorm := 0, f;
    } else {
      return 0;
    }
    ghost var a := fnorm;

    var shift := 0;
    while fnorm >= 2.0
      invariant fnorm > 0.0 && a == Scaled(fnorm, shift)
      decreases fnorm
    {
      ScaledStep(fnorm / 2.0, shift);
      fnorm, shift := fnorm / 2.0, shift + 1;
    }
    while fnorm < 1.0
      invariant 0.0 < fnorm < 2.0 && a == Scaled(fnorm, shift)
      decreases if fnorm < 1.0 then 4.0 / fnorm else fnorm
    {
      DoublingApproachesOne(fnorm);
      ScaledStep(fnorm, shift - 1);
      fnorm, shift := fnorm * 2.0, shift - 1;
    }
    fnorm := fnorm - 1.0;
    NormalForm(a, fnorm, shift);

    var scale := Two(significandbits) as real + (if significandbits >= 23 then 0.0 else 0.5);
    TimesScale(fnorm, significandbits);
    var significand := (fnorm * scale).Floor;
    assert significand == Significand(fnorm, significandbits);
    var exp := shift + (Two(expbits - 1) - 1);
    w := Join(sign, exp, significand, significandbits, expbits);
  }

  lemma TimesScale(t: real, s: nat)
    ensures t * (Two(s) as real + (if s >= 23 then 0.0 else 0.5)) == ScaledFraction(t, s)
  {
    ScaledUp(t, s);
  }

  method Unpack754(i: nat, bits: nat, expbits: nat) returns (result: real)
    requires Admissible(bits, expbits)
    requires i < Two(bits)
    ensures result == Unpack(i, bits - expbits - 1, expbits)
  {
    var significandbits := bits - expbits - 1;
    if i == 0 {
      return 0.0;
    }
    result := (i % Two(significandbits)) as real;
    ScaledDown(result, significandbits);
    result := result / Two(significandbits) as real;
    result := result + 1.0;
    ghost var m := result;

    var bias := Two(expbits - 1) - 1;
    var shift: int := i / Two(significandbits) % Two(expbits) - bias;
    while shift > 0
      invariant shift >= 0 || result == m
      invariant Scaled(result, shift) == Scaled(m, i / Two(significandbits) % Two(expbits) - bias)
    {
      ScaledStep(result, shift - 1);
      result, shift := result * 2.0, shift - 1;
    }
    while shift < 0
      invariant shift <= 0
      invariant Scaled(result, shift) == Scaled(m, i / Two(significandbits) % Two(expbits) - bias)
    {
      ScaledStep(result / 2.0, shift);
      result, shift := result / 2.0, shift + 1;
    }
    TwoAdd(expbits, significandbits);
    if i / Two(bits - 1) % 2 == 1 {
      result := -result;
    }
  }

  // ---------- fields of a word ----------

  /** A word is the join of its fields. */
  lemma WordIsItsFields(w: nat, s: nat, x: nat)
    requires w < 2 * (Two(x) * Two(s))
    ensures SignField(w, s, x) <= 1
    ensures ExponentField(w, s, x) < Two(x) && FractionField(w, s) < Two(s)
    ensures w == Join(SignField(w, s, x), ExponentField(w, s, x), FractionField(w, s), s, x)
  {
    hide Two, HighDigit;
    ThreeFields(w, Two(s), Two(x), SignField(w, s, x), ExponentField(w, s, x), FractionField(w, s));
  }

  /** Joining fields and taking them apart again gives the same fields. */
  lemma FieldsOfJoin(sign: nat, e: nat, m: nat, s: nat, x: nat)
    requires sign <= 1 && e < Two(x) && m < Two(s)
    ensures var w := Join(sign, e, m, s, x);
            w < 2 * (Two(x) * Two(s)) && SignField(w, s, x) == sign && ExponentField(w, s, x) == e
            && FractionField(w, s) == m
  {
    hide Two, HighDigit;
    ThreeFieldsUnique(sign, e, m, Two(s), Two(x));
  }

  /** m / 2^s is a fraction, and times 2^s it is m again. */
  lemma RatioOfField(m: nat, s: nat)
    requires m < Two(s)
    ensures 0.0 <= Scaled(m as real, 0 - s) < 1.0
    ensures Scaled(Scaled(m as real, 0 - s), s) == m as real
  {
    ScaledTwice(m as real, 0 - s, s);
    ScaledTwice(1.0, s, 0 - s);
    ScaledUp(1.0, s);
    ScaledZero(0 - s);
    ScaledMono(0.0, m as real, 0 - s);
    ScaledStrict(m as real, Two(s) as real, 0 - s);
  }

  /**
   * A word is read as section 3.4 of IEEE 754-2008 reads a normal number: a sign bit, then a biased exponent, then
   * the digits of the significand behind its leading 1. The code reads the exponents 0 and 2^x - 1 in the same way.
   */
  lemma UnpackByStandard(sign: nat, e: nat, m: nat, s: nat, x: nat)
    requires x >= 1 && sign <= 1 && e < Two(x) && m < Two(s) && sign + e + m > 0
    ensures var magnitude := Scaled(1.0 + m as real / Two(s) as real, e - (Two(x - 1) - 1));
            Unpack((sign * Two(x) + e) * Two(s) + m, s, x) == if sign == 1 then -magnitude else magnitude
  {
    hide Two, Scaled, SignField, ExponentField, FractionField;
    FieldsOfJoin(sign, e, m, s, x);
    JoinZero(sign, e, m, s, x);
    ScaledDown(m as real, s);
    assert (sign * Two(x) + e) * Two(s) + m == Join(sign, e, m, s, x);
  }

  // ---------- encode inverts decode ----------

  /** The number of a word other than 0 is nonzero, in range, and has the fields of the word as its normal form. */
  lemma UnpackNormalForm(w: nat, s: nat, x: nat)
    requires x >= 1 && 0 < w < 2 * (Two(x) * Two(s))
    ensures var f := Unpack(w, s, x);
            f != 0.0 && (f < 0.0 <==> SignField(w, s, x) == 1)
            && Exponent(Abs(f)) == ExponentField(w, s, x) - Bias(x)
            && Fraction(Abs(f)) == Scaled(FractionField(w, s) as real, 0 - s)
            && InRange(f, x)
  {
    hide Two, Scaled, Exponent, Fraction, ExponentField, FractionField, SignField;
    var e, m := ExponentField(w, s, x), FractionField(w, s);
    WordIsItsFields(w, s, x);
    RatioOfField(m, s);
    NormalForm(Magnitude(e, m, s, x), Scaled(m as real, 0 - s), e - Bias(x));
  }

  /** The code's scale, 2^s or 2^s + 1/2, gives m / 2^s back as m. */
  lemma SignificandOfField(m: nat, s: nat)
    requires m < Two(s)
    ensures 0.0 <= Scaled(m as real, 0 - s) < 1.0
    ensures Significand(Scaled(m as real, 0 - s), s) == m
  {
    hide Two, Scaled;
    RatioOfField(m, s);
  }

  /** Every word survives decoding and encoding, whatever the widths: also 0, the lone sign bit, and all exponents. */
  lemma PackInvertsUnpack(w: nat, s: nat, x: nat)
    requires x >= 1 && w < 2 * (Two(x) * Two(s))
    ensures InRange(Unpack(w, s, x), x)
    ensures Pack(Unpack(w, s, x), s, x) == w
  {
    hide Two, Scaled, Exponent, Fraction, Significand, ExponentField, FractionField, SignField, Join;
    if w > 0 {
      UnpackNormalForm(w, s, x);
      WordIsItsFields(w, s, x);
      SignificandOfField(FractionField(w, s), s);
    }
  }

  lemma UnpackInjective(v: nat, w: nat, s: nat, x: nat)
    requires x >= 1 && v < 2 * (Two(x) * Two(s)) && w < 2 * (Two(x) * Two(s))
    requires Unpack(v, s, x) == Unpack(w, s, x)
    ensures v == w
  {
    PackInvertsUnpack(v, s, x);
    PackInvertsUnpack(w, s, x);
  }

  // ---------- what encoding loses ----------

  /** No digit of the normalised number lies behind the s-th place. */
  predicate FitsSignificand(f: real, s: nat)
    requires f != 0.0
  {
    var y := Scaled(Fraction(Abs(f)), s);
    y == y.Floor as real
  }

  /** Cutting a fraction to s places leaves less than 2^-s, and nothing exactly when it has no more than s places. */
  lemma CutError(t: real, s: nat)
    requires 0.0 <= t < 1.0 && s >= 23
    ensures var c := Scaled(Significand(t, s) as real, 0 - s);
            0.0 <= t - c < Scaled(1.0, 0 - s) && (t == c <==> Scaled(t, s) == Scaled(t, s).Floor as real)
  {
    var n := Significand(t, s) as real;
    ScaledTwice(t, s, 0 - s);
    ScaledTwice(n, 0 - s, s);
    ScaledMono(n, Scaled(t, s), 0 - s);
    ScaledStrict(Scaled(t, s), n + 1.0, 0 - s);
    ScaledAdd(n, 1.0, 0 - s);
  }

  /**
   * A number that is not encoded as the word 0 comes back with its sign, cut towards zero by less
   * than 2^-s of itself; it comes back unchanged exactly when its digits fit.
   */
  lemma TruncationBound(f: real, s: nat, x: nat)
    requires x >= 1 && s >= 23 && f != 0.0 && InRange(f, x) && Pack(f, s, x) != 0
    ensures var g := Unpack(Pack(f, s, x), s, x);
            g != 0.0 && (g < 0.0 <==> f < 0.0)
            && 0.0 <= Abs(f) - Abs(g) < Scaled(Abs(f), 0 - s)
            && (g == f <==> FitsSignificand(f, s))
  {
    hide Two, Scaled, Exponent, Fraction, Significand, ExponentField, FractionField, SignField, Join;
    var a, sign := Abs(f), if f < 0.0 then 1 else 0;
    var e, t := Exponent(a), Fraction(a);
    var n := Significand(t, s);
    var c, u := Scaled(n as real, 0 - s), Scaled(1.0, 0 - s);
    CutError(t, s);
    FieldsOfJoin(sign, e + Bias(x), n, s, x);
    RatioOfField(n, s);
    NormalForm(Magnitude(e + Bias(x), n, s, x), c, e);
    ScaledAdd(1.0 + c, t - c, e);
    ScaledZero(e);
    ScaledMono(0.0, t - c, e);
    ScaledStrict(t - c, u, e);
    ScaledTwice(1.0, 0 - s, e);
    ScaledTwice(1.0, e, 0 - s);
    ScaledMono(Scaled(1.0, e), a, 0 - s);
    if t != c {
      ScaledStrict(c, t, e);
      ScaledStrict(0.0, t - c, e);
    }
  }

  /** The numbers other than zero that are encoded as the word 0, and so read back as zero. */
  lemma VanishesExactly(f: real, s: nat, x: nat)
    requires x >= 1 && f != 0.0 && InRange(f, x)
    ensures Pack(f, s, x) == 0 <==>
            f > 0.0 && Exponent(f) == 0 - Bias(x) && ScaledFraction(Fraction(f), s) < 1.0
  {
    hide Two, Join, Exponent, Fraction, Significand, ScaledFraction;
    var e, n := Exponent(Abs(f)) + Bias(x), Significand(Fraction(Abs(f)), s);
    JoinZero(if f < 0.0 then 1 else 0, e, n, s, x);
  }

  /** In every format there is one: the smallest positive number with biased exponent 0. */
  lemma SmallestVanishes(s: nat, x: nat) returns (f: real)
    requires x >= 1
    ensures f > 0.0 && InRange(f, x) && Pack(f, s, x) == 0 && Unpack(Pack(f, s, x), s, x) == 0.0
  {
    hide Two, Scaled, Exponent, Fraction, Pack;
    f := Scaled(1.0, 0 - Bias(x));
    ScaledZero(0 - Bias(x));
    ScaledStrict(0.0, 1.0, 0 - Bias(x));
    NormalForm(f, 0.0, 0 - Bias(x));
    ScaledZero(s);
    VanishesExactly(f, s, x);
  }

  lemma JoinZero(sign: nat, e: nat, n: nat, s: nat, x: nat)
    requires n <= Two(s)
    ensures Join(sign, e, n, s, x) == 0 <==> sign == 0 && e == 0 && n == 0
  {
    hide Two;
    ProductPositive(Two(x), Two(s));
    if sign > 0 {
      ProductPositive(sign, Two(x) * Two(s));
    }
    if e > 0 {
      ProductPositive(e, Two(s));
    }
    ProductPositive(e - e % 2 + 1, Two(s));
  }

  // ---------- order ----------

  /** Encoding positive numbers keeps their order, across exponents too. */
  lemma PackMono(f: real, g: real, s: nat, x: nat)
    requires x >= 1 && s >= 23 && 0.0 < f <= g && InRange(f, x) && InRange(g, x)
    ensures Pack(f, s, x) <= Pack(g, s, x)
  {
    hide Two, Scaled, Exponent, Fraction, Significand, Join;
    ExponentMono(f, g);
    var d, e := Exponent(f), Exponent(g);
    var t, u := Fraction(f), Fraction(g);
    if d == e {
      if u < t {
        ScaledStrict(1.0 + u, 1.0 + t, e);
      }
      ScaledMono(t, u, s);
    }
    JoinMono(d + Bias(x), Significand(t, s), e + Bias(x), Significand(u, s), s, x);
  }

  lemma JoinMono(d: nat, m: nat, e: nat, n: nat, s: nat, x: nat)
    requires m < Two(s) && n < Two(s)
    requires d < e || (d == e && m <= n)
    ensures Join(0, d, m, s, x) <= Join(0, e, n, s, x)
  {
    hide Two;
    DigitsMono(d, m, e, n, Two(s));
  }

  /** Below s = 23 the rounded-up scale lets a significand overflow, with any exponent. */
  lemma Overflowing(s: nat, x: nat, b: nat) returns (f: real)
    requires x >= 1 && s < 23 && b < Two(x)
    ensures f > 0.0 && f > Scaled(1.5, b - Bias(x)) && InRange(f, x) && Exponent(f) == b - Bias(x)
    ensures Significand(Fraction(f), s) == Two(s)
  {
    hide Two, Exponent, Fraction;
    var e, d := b - Bias(x), Scaled(1.0, 0 - s - 2);
    var u := 1.0 - d;
    ScaledExponentMono(1.0, 0 - s - 2, -2);
    assert Scaled(1.0, -2) == 0.25;
    ScaledZero(0 - s - 2);
    ScaledStrict(0.0, 1.0, 0 - s - 2);
    f := Scaled(1.0 + u, e);
    NormalForm(f, u, e);
    ScaledStrict(1.5, 1.0 + u, e);
    ScaledAdd(u, d, s);
    ScaledTwice(1.0, 0 - s - 2, s);
    ScaledUp(1.0, s);
  }

  /** With an odd exponent the overflow is lost. */
  lemma OverflowIsLost(s: nat, x: nat) returns (f: real, g: real)
    requires x >= 1 && 1 <= s < 23
    ensures 0.0 < f < g && InRange(f, x) && InRange(g, x)
    ensures Pack(g, s, x) < Pack(f, s, x)
  {
    var e := 1 - Bias(x);
    f := Scaled(1.5, e);
    g := Overflowing(s, x, 1);
    NormalForm(f, 0.5, e);
    assert Significand(0.5, s) == Two(s - 1) by {
      ScaledStep(0.5, s - 1);
      ScaledUp(1.0, s - 1);
    }
    assert Two(s - 1) < Two(s);
  }

  ghost predicate KeepsOrder(s: nat, x: nat)
    requires x >= 1
  {
    forall f: real, g: real ::
      0.0 < f <= g && InRange(f, x) && InRange(g, x) ==> Pack(f, s, x) <= Pack(g, s, x)
  }

  /** Exactly the formats with 23 or more significand bits keep the order; both that are used do. */
  lemma KeepsOrderExactly(s: nat, x: nat)
    requires x >= 1 && s >= 1
    ensures KeepsOrder(s, x) <==> s >= 23
  {
    if s >= 23 {
      forall f: real, g: real | 0.0 < f <= g && InRange(f, x) && InRange(g, x)
        ensures Pack(f, s, x) <= Pack(g, s, x)
      {
        PackMono(f, g, s, x);
      }
    } else {
      var f, g := OverflowIsLost(s, x);
    }
  }

  // ---------- the bound, format by format ----------

  function Decoded(f: real, s: nat, x: nat): real
    requires x >= 1 && InRange(f, x)
  {
    Unpack(Pack(f, s, x), s, x)
  }

  /** A significand that overflows its field becomes 0, with the next exponent if its own is even, else with its own. */
  lemma DecodedOverflow(f: real, s: nat, x: nat)
    requires x >= 1 && f != 0.0 && InRange(f, x) && Significand(Fraction(Abs(f)), s) == Two(s)
    ensures var e, g := Exponent(Abs(f)), Decoded(f, s, x);
            Pack(f, s, x) != 0 && (g < 0.0 <==> f < 0.0)
            && Abs(g) == Scaled(1.0, if (e + Bias(x)) % 2 == 0 then e + 1 else e)
  {
    hide Two, Scaled, Exponent, Fraction, Significand, ExponentField, FractionField, SignField;
    var sign, b := if f < 0.0 then 1 else 0, Exponent(Abs(f)) + Bias(x);
    var field := b - b % 2 + 1;
    TwoStep(x - 1);
    FieldsOfJoin(sign, field, 0, s, x);
    JoinZero(sign, field, 0, s, x);
    assert Pack(f, s, x) == Join(sign, field, 0, s, x);
    ScaledZero(0 - s);
    ScaledZero(field - Bias(x));
    ScaledStrict(0.0, 1.0, field - Bias(x));
  }

  lemma DecodedCut(f: real, s: nat, x: nat)
    requires x >= 1 && f != 0.0 && InRange(f, x) && Pack(f, s, x) != 0
    requires Significand(Fraction(Abs(f)), s) < Two(s)
    ensures var e, n, g := Exponent(Abs(f)), Significand(Fraction(Abs(f)), s), Decoded(f, s, x);
            (g < 0.0 <==> f < 0.0) && Abs(g) == Scaled(1.0 + Scaled(n as real, 0 - s), e)
  {
    hide Two, Scaled, Exponent, Fraction, Significand, ExponentField, FractionField, SignField, Join;
    var sign, e := if f < 0.0 then 1 else 0, Exponent(Abs(f));
    var n := Significand(Fraction(Abs(f)), s);
    FieldsOfJoin(sign, e + Bias(x), n, s, x);
    RatioOfField(n, s);
    NormalForm(Magnitude(e + Bias(x), n, s, x), Scaled(n as real, 0 - s), e);
  }

  /** The fraction cut is off by less than 2^-s either way, as is one that overflows, if that is not lost. */
  lemma CutNear(t: real, s: nat)
    requires 0.0 <= t < 1.0
    ensures var c, u := Scaled(Significand(t, s) as real, 0 - s), Scaled(1.0, 0 - s);
            0.0 - u < t - c < u
    ensures Significand(t, s) == Two(s) ==> 1.0 - t < Scaled(1.0, 0 - s)
  {
    hide Two, Significand;
    var n := Significand(t, s) as real;
    ScaledTwice(t, s, 0 - s);
    ScaledByZero(t);
    ScaledUp(1.0, s);
    ScaledTwice(1.0, s, 0 - s);
    ScaledByZero(1.0);
    ScaledAdd(n, 1.0, 0 - s);
    ScaledStrict(Scaled(t, s), n + 1.0, 0 - s);
    ScaledStrict(n, Scaled(t, s) + 1.0, 0 - s);
    ScaledAdd(Scaled(t, s), 1.0, 0 - s);
  }

  /** A fraction that overflows is less than 2^-s of the number exactly if s <= 1. */
  lemma LostFraction(t: real, s: nat)
    requires 0.0 <= t < 1.0 && Significand(t, s) == Two(s)
    ensures t < Scaled(1.0 + t, 0 - s) <==> s <= 1
  {
    hide Scaled, Significand;
    ScaledUp(t, s);
    ScaledTwice(1.0 + t, 0 - s, s);
    ScaledByZero(1.0 + t);
    if s >= 2 {
      TwoMono(2, s);
      assert Two(2) == 4;
      if t < Scaled(1.0 + t, 0 - s) {
        ScaledStrict(t, Scaled(1.0 + t, 0 - s), s);
      }
    } else {
      assert Two(0) == 1 && Two(1) == 2;
      if t >= Scaled(1.0 + t, 0 - s) {
        ScaledMono(Scaled(1.0 + t, 0 - s), t, s);
      }
    }
  }

  /** The relative error does not depend on the exponent. */
  lemma RelativeError(a: real, m: real, e: int, s: nat)
    ensures Abs(Scaled(a, e) - Scaled(m, e)) < Scaled(Scaled(a, e), 0 - s) <==> Abs(a - m) < Scaled(a, 0 - s)
  {
    hide Scaled;
    ScaledAdd(a, -m, e);
    ScaledNeg(m, e);
    ScaledNeg(a - m, e);
    ScaledTwice(a, e, 0 - s);
    ScaledTwice(a, 0 - s, e);
    ScaledZero(e);
    var d, u := Abs(a - m), Scaled(a, 0 - s);
    assert Scaled(d, e) == Abs(Scaled(a - m, e)) by {
      if a < m {
        ScaledStrict(a - m, 0.0, e);
      } else {
        ScaledMono(0.0, a - m, e);
      }
    }
    if d < u {
      ScaledStrict(d, u, e);
    } else {
      ScaledMono(u, d, e);
    }
  }

  /**
   * For which numbers the relative error of encoding and decoding stays below 2^-s: for all whose significand fits
   * its field, and of those that overflow it, for those with an even biased exponent.
   */
  lemma NearExactly(f: real, s: nat, x: nat)
    requires x >= 1 && f != 0.0 && InRange(f, x) && Pack(f, s, x) != 0
    ensures var g := Decoded(f, s, x);
            (g < 0.0 <==> f < 0.0)
            && (Abs(f - g) < Scaled(Abs(f), 0 - s) <==>
                s <= 1 || Significand(Fraction(Abs(f)), s) < Two(s) || (Exponent(Abs(f)) + Bias(x)) % 2 == 0)
  {
    hide Two, Scaled, Exponent, Fraction, Significand, Pack, Decoded, Bias;
    var e, t := Exponent(Abs(f)), Fraction(Abs(f));
    CutNear(t, s);
    ScaledMono(1.0, 1.0 + t, 0 - s);
    if Significand(t, s) < Two(s) {
      DecodedCut(f, s, x);
      RelativeError(1.0 + t, 1.0 + Scaled(Significand(t, s) as real, 0 - s), e, s);
    } else {
      DecodedOverflow(f, s, x);
      if (e + Bias(x)) % 2 == 0 {
        ScaledStep(1.0, e);
        RelativeError(1.0 + t, 2.0, e, s);
      } else {
        LostFraction(t, s);
        RelativeError(1.0 + t, 1.0, e, s);
      }
    }
  }

  ghost predicate StaysNear(s: nat, x: nat)
    requires x >= 1
  {
    forall f: real :: f != 0.0 && InRange(f, x) && Pack(f, s, x) != 0 ==>
      Abs(f - Decoded(f, s, x)) < Scaled(Abs(f), 0 - s)
  }

  /** Only where an overflow can be lost, and that is more than 2^-s of a number, is the error not bounded. */
  lemma StaysNearExactly(s: nat, x: nat)
    requires x >= 1
    ensures StaysNear(s, x) <==> s <= 1 || s >= 23
  {
    hide Two, Scaled, Exponent, Fraction, Significand, Pack, Decoded, Bias;
    if s <= 1 || s >= 23 {
      forall f: real | f != 0.0 && InRange(f, x) && Pack(f, s, x) != 0
        ensures Abs(f - Decoded(f, s, x)) < Scaled(Abs(f), 0 - s)
      {
        NearExactly(f, s, x);
      }
    } else {
      TwoStep(x - 1);
      var f := Overflowing(s, x, 1);
      DecodedOverflow(f, s, x);
      NearExactly(f, s, x);
    }
  }

  ghost predicate CutsTowardsZero(s: nat, x: nat)
    requires x >= 1
  {
    forall f: real :: f != 0.0 && InRange(f, x) && Pack(f, s, x) != 0 ==>
      0.0 <= Abs(f) - Abs(Decoded(f, s, x)) < Scaled(Abs(f), 0 - s)
  }

  /** All numbers are cut towards zero, by less than 2^-s of them, exactly where no significand overflows. */
  lemma CutsTowardsZeroExactly(s: nat, x: nat)
    requires x >= 1
    ensures CutsTowardsZero(s, x) <==> s >= 23
  {
    hide Two, Scaled, Exponent, Fraction, Significand, Pack, Bias;
    if s >= 23 {
      forall f: real | f != 0.0 && InRange(f, x) && Pack(f, s, x) != 0
        ensures 0.0 <= Abs(f) - Abs(Decoded(f, s, x)) < Scaled(Abs(f), 0 - s)
      {
        TruncationBound(f, s, x);
      }
    } else {
      var f := Overflowing(s, x, 0);
      DecodedOverflow(f, s, x);
      ScaledStep(1.0, 0 - Bias(x));
    }
  }
}
