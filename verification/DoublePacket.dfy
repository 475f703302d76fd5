/**
 * The double result packet: `hton` stores the packed 64-bit word back into the packet's double
 * field, so the word is rounded to 53 significant bits before `ntoh` unpacks it.
 */
module DoublePacket {
  import opened Arithmetic
  import opened Powers
  import opened Ieee754

  const S: nat := 52
  const X: nat := 11

  /** The distance between neighbouring doubles around an integer w. */
  function Granule(w: nat): (g: nat)
    ensures g >= 1
    decreases w
  {
    if w < Two(53) then 1
    else
      assert Two(53) >= 2;
      2 * Granule(w / 2)
  }

  /** Conversion of an integer to double: the nearest one, ties to the even one. */
  function RoundToDouble(w: nat): nat {
    RoundTo(w, Granule(w))
  }

  function RoundTo(w: nat, g: nat): (v: nat)
    requires g >= 1
  {
    var q, r := w / g, w % g;
    if 2 * r < g || (2 * r == g && q % 2 == 0) then q * g else (q + 1) * g
  }

  /** Zero, or a normal double: its biased exponent is 1 to 2046. */
  predicate Wireable(d: real) {
    d == 0.0 || (1 <= Exponent(Abs(d)) + Bias(X) <= 2046 && FitsSignificand(d, S))
  }

  lemma WireableInRange(d: real)
    requires Wireable(d)
    ensures InRange(d, X)
  {
    assert Two(X) == 2048;
  }

  /** What stands in the packet after `hton`. */
  function HtonDouble(d: real): real
    requires Wireable(d)
  {
    WireableInRange(d);
    RoundToDouble(Pack(d, S, X)) as real
  }

  /** What `ntoh` makes of the double found in the packet. */
  function NtohDouble(d: real): real {
    if d < 0.0 then 0.0 else Unpack(d.Floor, S, X)
  }

  /** The packet whose one number both conversions rewrite in place. */
  class ResultDoublePacket {
    var result: real

    constructor (d: real)
      ensures result == d
    {
      result := d;
    }

    method Hton()
      requires Wireable(result)
      modifies this
      ensures result == HtonDouble(old(result))
      ensures 0.0 <= result < Two(64) as real
    {
      hide Two, Scaled, Exponent, Pack, RoundToDouble, InRange, Wireable;
      WireableInRange(result);
      HtonFits(result);
      var word := Pack754(result, 64, 11);
      result := RoundToDouble(word) as real;
    }

    /** Only a word of 64 bits makes the conversion to an integer defined. */
    method Ntoh()
      requires 0.0 <= result < Two(64) as real
      modifies this
      ensures result == NtohDouble(old(result))
    {
      result := Unpack754(result.Floor, 64, 11);
    }
  }

  // ---------- rounding ----------

  lemma Literals()
    ensures Two(0) == 1 && Two(9) == 512 && Two(10) == 1024 && Two(11) == 2048 && Two(12) == 4096
  {
  }

  /** The granule of an integer below 2^(53+k) is a power of two, at most 2^k. */
  lemma {:induction false} GranuleIsPower(w: nat, k: nat) returns (j: nat)
    requires w < Two(53 + k)
    ensures j <= k && Granule(w) == Two(j)
    ensures j > 0 ==> Two(52 + j) <= w
    ensures w < Two(53 + j)
    decreases k
  {
    hide Two;
    if w < Two(53) {
      Literals();
      j := 0;
    } else {
      if k > 0 {
        TwoStep(52 + k);
      }
      j := GranuleIsPower(w / 2, k - 1);
      TwoStep(j);
      TwoStep(52);
      TwoStep(52 + j);
      TwoStep(53 + j);
      j := j + 1;
    }
  }

  /** Rounding moves by at most half a granule and passes no multiple of it. */
  lemma RoundToBounds(w: nat, g: nat, a: nat, b: nat)
    requires g >= 1 && a * g <= w <= b * g
    ensures a * g <= RoundTo(w, g) <= b * g
    ensures 2 * (RoundTo(w, g) - w) <= g && 2 * (w - RoundTo(w, g)) <= g
    ensures RoundTo(w, g) == w <==> w % g == 0
  {
    var q, r := w / g, w % g;
    assert w == q * g + r;
    assert (q + 1) * g == q * g + g;
    if q < a {
      MulMono(q + 1, a, g);
    }
    if b <= q {
      MulMono(b, q, g);
      assert r == 0 && RoundTo(w, g) == w;
    } else {
      MulMono(q + 1, b, g);
    }
  }

  function Distance(a: nat, b: nat): nat {
    if a < b then b - a else a - b
  }

  /** No multiple of g is nearer to w than RoundTo(w, g). */
  lemma RoundToIsNearest(w: nat, g: nat, a: nat)
    requires g >= 1
    ensures Distance(RoundTo(w, g), w) <= Distance(a * g, w)
  {
    var q, r := w / g, w % g;
    assert w == q * g + r;
    assert (q + 1) * g == q * g + g;
    if a <= q {
      MulMono(a, q, g);
    } else {
      MulMono(q + 1, a, g);
    }
  }

  /** An integer that a double can hold: at most 53 significant bits. */
  ghost predicate IsDouble(v: nat) {
    exists m: nat, k: nat :: m <= Two(53) && v == TimesTwo(m, k)
  }

  function TimesTwo(m: nat, k: nat): nat {
    m * Two(k)
  }

  /** Between a double v and an integer w lies a multiple of the granule 2^j of w. */
  lemma GridPoint(v: nat, w: nat, j: nat) returns (a: nat, u: nat)
    requires IsDouble(v)
    requires j > 0 ==> Two(52 + j) <= w
    ensures u == a * Two(j) && (v <= u <= w || w <= u <= v)
  {
    hide Two;
    var m: nat, k: nat :| m <= Two(53) && v == TimesTwo(m, k);
    if k >= j {
      a := m * Two(k - j);
      TwoAdd(k - j, j);
      Regroup(m, Two(k - j), Two(j));
    } else {
      a := Two(52);
      MulMono(m, Two(53), Two(k));
      TwoAdd(53, k);
      TwoMono(53 + k, 52 + j);
      TwoAdd(52, j);
    }
    u := a * Two(j);
  }

  lemma QuotientBelow(w: nat, a: nat, g: nat)
    requires g >= 1 && w < a * g
    ensures w / g < a
  {
    if w / g >= a {
      MulMono(a, w / g, g);
    }
  }

  lemma RoundToIsMultiple(w: nat, g: nat) returns (q: nat)
    requires g >= 1
    ensures RoundTo(w, g) == q * g && q <= w / g + 1
  {
    q := if RoundTo(w, g) == w / g * g then w / g else w / g + 1;
  }

  lemma RoundToDoubleIsDouble(w: nat)
    ensures IsDouble(RoundToDouble(w))
  {
    hide Two, RoundTo, Granule;
    TwoExceeds(w);
    TwoMono(w, 53 + w);
    var j := GranuleIsPower(w, w);
    TwoAdd(53, j);
    QuotientBelow(w, Two(53), Two(j));
    var q := RoundToIsMultiple(w, Two(j));
    assert RoundToDouble(w) == TimesTwo(q, j);
  }

  /** `RoundToDouble` does what its name says: no double is nearer to w. */
  lemma RoundToDoubleIsNearest(w: nat, v: nat)
    requires IsDouble(v)
    ensures Distance(RoundToDouble(w), w) <= Distance(v, w)
  {
    hide Two, RoundTo, Granule, IsDouble;
    TwoExceeds(w);
    TwoMono(w, 53 + w);
    var j := GranuleIsPower(w, w);
    var a, u := GridPoint(v, w, j);
    RoundToIsNearest(w, Two(j), a);
  }

  /** Halfway between two doubles it takes the one that is an even multiple of the distance between them. */
  lemma RoundToDoubleTies(w: nat)
    requires 2 * (w % Granule(w)) == Granule(w)
    ensures RoundToDouble(w) % (2 * Granule(w)) == 0
    ensures Distance(RoundToDouble(w), w) == w % Granule(w)
  {
    hide Granule;
    var g, q := Granule(w), w / Granule(w);
    assert w == q * g + w % g;
    var k := if q % 2 == 0 then q / 2 else (q + 1) / 2;
    assert RoundToDouble(w) == (2 * k) * g == k * (2 * g) by {
      Regroup(k, 2, g);
      assert (q + 1) * g == q * g + g;
    }
    MultipleOf(k, 2 * g);
  }

  lemma MultipleOf(k: nat, g: nat)
    requires g >= 1
    ensures k * g % g == 0
  {
    DivUnique(k * g, g, k, 0);
  }

  // ---------- the wire ----------

  /** A double after the journey from board to Linux. */
  function Wire(d: real): real
    requires Wireable(d)
  {
    NtohDouble(HtonDouble(d))
  }

  /** A 64-bit word, from its sign and exponent bits h and its significand field. */
  function Word(h: nat, m: nat): nat {
    h * Two(S) + m
  }

  /** The word of a Wireable number other than zero: its fields, and that it loses nothing. */
  lemma WordOfWireable(d: real) returns (sign: nat, e: nat, n: nat)
    requires Wireable(d) && d != 0.0
    ensures InRange(d, X)
    ensures sign == (if d < 0.0 then 1 else 0) && e == Exponent(Abs(d)) + Bias(X) && 1 <= e <= 2046 && n < Two(S)
    ensures Pack(d, S, X) == Word(sign * 2048 + e, n)
    ensures Scaled(n as real, 0 - S) == Fraction(Abs(d))
    ensures Unpack(Pack(d, S, X), S, X) == d
  {
    hide Two, Exponent, Fraction, Scaled, Significand, Join;
    WireableInRange(d);
    sign, e := if d < 0.0 then 1 else 0, Exponent(Abs(d)) + Bias(X);
    n := Significand(Fraction(Abs(d)), S);
    CutError(Fraction(Abs(d)), S);
    JoinPositive(sign, e, n);
    TruncationBound(d, S, X);
    assert FitsSignificand(d, S);
  }

  /** `Wireable` are zero and the numbers that a word of 64 bits with exponent field 1 to 2046 stands for. */
  lemma WireableExactly(d: real)
    ensures Wireable(d) <==>
            d == 0.0 || exists w: nat :: w < Two(64) && 1 <= ExponentField(w, S, X) <= 2046 && Unpack(w, S, X) == d
  {
    hide Two, Exponent, Fraction, Scaled, Unpack, Pack, FitsSignificand, Bias, ExponentField;
    if Wireable(d) && d != 0.0 {
      var sign, e, n := WordOfWireable(d);
      WordFields(sign, e, n);
    }
    if w: nat :| w < Two(64) && 1 <= ExponentField(w, S, X) <= 2046 && Unpack(w, S, X) == d && d != 0.0 {
      WordIsWireable(w);
    }
  }

  lemma WordFields(sign: nat, e: nat, n: nat)
    requires sign <= 1 && 1 <= e <= 2046 && n < Two(S)
    ensures var w := Word(sign * 2048 + e, n);
            w < Two(64) && ExponentField(w, S, X) == e
  {
    hide Two, ExponentField, FractionField, SignField;
    Literals();
    JoinPositive(sign, e, n);
    FieldsOfJoin(sign, e, n, S, X);
    TwoAdd(11, 52);
    TwoStep(63);
  }

  lemma WordIsWireable(w: nat)
    requires w < Two(64) && 1 <= ExponentField(w, S, X) <= 2046 && Unpack(w, S, X) != 0.0
    ensures Wireable(Unpack(w, S, X))
  {
    hide Two, Scaled, Exponent, Fraction, ExponentField, FractionField, SignField, Unpack;
    TwoAdd(11, 52);
    TwoStep(63);
    ZeroWord();
    UnpackNormalForm(w, S, X);
    WordIsItsFields(w, S, X);
    RatioOfField(FractionField(w, S), S);
  }

  lemma ZeroWord()
    ensures Unpack(0, S, X) == 0.0
  {
  }

  lemma JoinPositive(sign: nat, e: nat, n: nat)
    requires e >= 1 && n < Two(S)
    ensures Join(sign, e, n, S, X) == Word(sign * 2048 + e, n) > 0
  {
    hide Two;
    Literals();
    assert sign * (2048 * Two(S)) == sign * 2048 * Two(S);
    ProductPositive(sign * 2048 + e, Two(S));
  }

  /** Rounding a word of 64 bits moves it by at most 2^10, and not past a multiple of 2^11. */
  lemma RoundedWord(w: nat, lo: nat, hi: nat)
    requires w < Two(64) && lo * 2048 <= w <= hi * 2048
    ensures lo * 2048 <= RoundToDouble(w) <= hi * 2048
    ensures -1024 <= RoundToDouble(w) - w <= 1024
    ensures RoundToDouble(w) == w <==> w % Granule(w) == 0
  {
    hide Two, RoundTo, Granule;
    var j := GranuleIsPower(w, 11);
    Literals();
    TwoAdd(11 - j, j);
    TwoMono(j, 11);
    Regroup(lo, Two(11 - j), Two(j));
    Regroup(hi, Two(11 - j), Two(j));
    RoundToBounds(w, Two(j), lo * Two(11 - j), hi * Two(11 - j));
  }

  /** A word with a Wireable exponent e, or at the very end of it, stands for a number of that exponent. */
  lemma UnpackNear(sign: nat, e: nat, m: nat)
    requires sign <= 1 && 1 <= e <= 2046 && m <= Two(S)
    ensures Word(sign * 2048 + e, m) < 2 * (Two(X) * Two(S))
    ensures var v := Scaled(1.0 + Scaled(m as real, 0 - S), e - Bias(X));
            v > 0.0 && Unpack(Word(sign * 2048 + e, m), S, X) == if sign == 1 then -v else v
  {
    hide Two, Scaled, Join, ExponentField, FractionField, SignField, Bias;
    Literals();
    ScaledZero(0 - S);
    ScaledMono(0.0, m as real, 0 - S);
    ScaledZero(e - Bias(X));
    ScaledStrict(0.0, 1.0 + Scaled(m as real, 0 - S), e - Bias(X));
    if m < Two(S) {
      FieldsOfJoin(sign, e, m, S, X);
      JoinPositive(sign, e, m);
    } else {
      FieldsOfJoin(sign, e + 1, 0, S, X);
      JoinPositive(sign, e + 1, 0);
      assert Word(sign * 2048 + e, m) == Word(sign * 2048 + (e + 1), 0);
      ScaledUp(1.0, S);
      ScaledTwice(1.0, S, 0 - S);
      ScaledByZero(1.0);
      ScaledStep(1.0, e - Bias(X));
    }
  }

  /** The word received for a Wireable number: the same sign and exponent, and a significand at most 2^10 off. */
  lemma ReceivedWord(d: real) returns (sign: nat, e: nat, n: nat, m: nat)
    requires Wireable(d) && d != 0.0
    ensures InRange(d, X)
    ensures sign == (if d < 0.0 then 1 else 0) && e == Exponent(Abs(d)) + Bias(X) && 1 <= e <= 2046
    ensures Scaled(n as real, 0 - S) == Fraction(Abs(d)) && m <= Two(S) && -1024 <= m - n <= 1024
    ensures Pack(d, S, X) == Word(sign * 2048 + e, n) < Two(64)
    ensures RoundToDouble(Pack(d, S, X)) == Word(sign * 2048 + e, m)
  {
    hide Two, Scaled, Exponent, Fraction, FitsSignificand, Unpack, Pack, RoundToDouble, Word;
    sign, e, n := WordOfWireable(d);
    var h, w := sign * 2048 + e, Pack(d, S, X);
    var lo, hi := WordBounds(h, n);
    RoundedWord(w, lo, hi);
    m := RoundToDouble(w) - Word(h, 0);
    lo, hi := WordBounds(h, m);
  }

  lemma WordBounds(h: nat, n: nat) returns (lo: nat, hi: nat)
    requires n <= Two(S) && h < 4096
    ensures Word(h, n) == Word(h, 0) + n
    ensures Word(h, 0) == lo * 2048 && Word(h, Two(S)) == hi * 2048 <= Two(64)
    ensures Word(h, Two(S)) == Word(h, 0) + Two(S)
  {
    hide Two;
    Literals();
    TwoAdd(41, 11);
    TwoAdd(12, 52);
    MulMono(h + 1, 4096, Two(S));
    Regroup(h, Two(41), 2048);
    Regroup(h + 1, Two(41), 2048);
    lo, hi := h * Two(41), (h + 1) * Two(41);
  }

  lemma WireIsUnpack(d: real)
    requires Wireable(d)
    ensures InRange(d, X) && Wire(d) == Unpack(RoundToDouble(Pack(d, S, X)), S, X)
  {
    WireableInRange(d);
  }

  /** A double arrives with its sign and a relative error of at most 2^-42. */
  lemma WireBound(d: real)
    requires Wireable(d)
    ensures d == 0.0 ==> Wire(d) == 0.0
    ensures d != 0.0 ==> Wire(d) != 0.0 && (Wire(d) < 0.0 <==> d < 0.0)
    ensures Abs(Wire(d) - d) <= Scaled(Abs(d), -42)
  {
    hide Two, Scaled, Exponent, Fraction, FitsSignificand, Wire, Unpack, Pack, RoundToDouble, Word;
    if d == 0.0 {
      WireOfZero();
      ScaledZero(-42);
    } else {
      WireIsUnpack(d);
      var sign, e, n, m := ReceivedWord(d);
      UnpackNear(sign, e, m);
      var b := e - Bias(X);
      var x, y := Scaled(n as real, 0 - S), Scaled(m as real, 0 - S);
      SignificandDistance(n, m, b);
      ScaledMono(Scaled(1.0, b), Abs(d), -42);
    }
  }

  /** `ntoh` may always be applied to what `hton` stored. */
  lemma HtonFits(d: real)
    requires Wireable(d)
    ensures 0.0 <= HtonDouble(d) < Two(64) as real
  {
    hide Two, Scaled, Exponent, Fraction, FitsSignificand, Unpack, Pack, RoundToDouble, Word, Wireable, HtonDouble;
    HtonIsRounded(d);
    if d == 0.0 {
      HtonOfZero();
    } else {
      var sign, e, n, m := ReceivedWord(d);
      UnpackNear(sign, e, m);
      Literals();
      TwoAdd(12, 52);
      TwoAdd(11, 52);
    }
  }

  lemma HtonIsRounded(d: real)
    requires Wireable(d)
    ensures InRange(d, X) && HtonDouble(d) == RoundToDouble(Pack(d, S, X)) as real
  {
    WireableInRange(d);
  }

  lemma HtonOfZero()
    ensures HtonDouble(0.0) == 0.0
  {
  }

  lemma WireOfZero()
    ensures Wire(0.0) == 0.0
  {
  }

  /** Significand fields 2^10 apart stand for numbers 2^(b-42) apart. */
  lemma SignificandDistance(n: int, m: int, b: int)
    requires -1024 <= m - n <= 1024
    ensures var v, w := Scaled(1.0 + Scaled(n as real, 0 - S), b), Scaled(1.0 + Scaled(m as real, 0 - S), b);
            -Scaled(Scaled(1.0, b), -42) <= w - v <= Scaled(Scaled(1.0, b), -42)
  {
    hide Scaled;
    var x, y, c := Scaled(n as real, 0 - S), Scaled(m as real, 0 - S), Scaled(1024.0, 0 - S);
    ScaledAdd(n as real, (m - n) as real, 0 - S);
    ScaledMono((m - n) as real, 1024.0, 0 - S);
    ScaledMono(-1024.0, (m - n) as real, 0 - S);
    ScaledNeg(1024.0, 0 - S);
    ScaledAdd(1.0 + x, y - x, b);
    ScaledMono(y - x, c, b);
    ScaledMono(-c, y - x, b);
    ScaledNeg(c, b);
    ScaledUp(1.0, 10);
    assert Two(10) == 1024;
    ScaledTwice(1.0, 10, 0 - S);
    ScaledTwice(1.0, 10 - S, b);
    ScaledTwice(1.0, b, -42);
  }

  /** A double arrives unchanged exactly when its word is a multiple of its granule. */
  lemma WireExactly(d: real)
    requires Wireable(d) && d != 0.0
    ensures InRange(d, X)
    ensures Wire(d) == d <==> Pack(d, S, X) % Granule(Pack(d, S, X)) == 0
  {
    hide Two, Scaled, Exponent, Fraction, FitsSignificand, Unpack, Pack, RoundToDouble, Granule, Word, Wire;
    WireIsUnpack(d);
    var sign, e, n := WordOfWireable(d);
    var sign', e', n', m := ReceivedWord(d);
    var w := Pack(d, S, X);
    RoundedWord(w, w / 2048, w / 2048 + 1);
    UnpackNear(sign, e, n);
    UnpackNear(sign, e, m);
    if Wire(d) == d {
      UnpackInjective(RoundToDouble(w), w, S, X);
    }
  }

  // ---------- overflow ----------

  /** The significand field of a normal double is not among the last ones of the largest exponent. */
  predicate StaysFinite(d: real) {
    d == 0.0 || Exponent(Abs(d)) < 1023
    || Significand(Fraction(Abs(d)), S) < Two(S) - (if d < 0.0 then 1024 else 512)
  }

  /** A word below an even multiple of g = 2 * half reaches it by rounding exactly from half a granule below. */
  lemma RoundsUpTo(w: nat, g: nat, b: nat, half: nat)
    requires g == 2 * half && half > 0 && b % 2 == 0 && w < b * g
    ensures RoundTo(w, g) == b * g <==> b * g - w <= half
  {
    var q, r := w / g, w % g;
    assert w == q * g + r;
    assert (q + 1) * g == q * g + g;
    if q >= b {
      MulMono(b, q, g);
    } else if q + 1 < b {
      MulMono(q + 2, b, g);
      assert (q + 2) * g == q * g + 2 * g;
    }
  }

  /** The granule of a 64-bit word of the largest exponent: 2^11 with the sign bit, 2^10 without. */
  lemma GranuleAtTop(sign: nat, n: nat)
    requires sign <= 1 && n < Two(S)
    ensures Granule(Word(sign * 2048 + 2046, n)) == Two(10 + sign)
  {
    hide Two, Granule;
    var w := Word(sign * 2048 + 2046, n);
    Literals();
    TwoAdd(10, 52);
    TwoAdd(11, 52);
    TwoAdd(12, 52);
    var j := GranuleIsPower(w, 11);
    if j < 10 + sign {
      TwoMono(53 + j, 62 + sign);
    }
  }

  /** A normal double arrives as a finite number exactly if it is not one of the last 512, or 1024, of its sign. */
  lemma StaysFiniteExactly(d: real)
    requires Wireable(d)
    ensures Abs(Wire(d)) < Scaled(1.0, 1024) <==> StaysFinite(d)
  {
    hide Two, Scaled, Exponent, Fraction, Significand, FitsSignificand, Wire, Unpack, Pack, RoundToDouble, Word, Bias;
    ScaledZero(1024);
    ScaledStrict(0.0, 1.0, 1024);
    if d == 0.0 {
      WireOfZero();
    } else {
      BiasIs1023();
      WireIsUnpack(d);
      var sign, e, n, m := ReceivedWord(d);
      FieldIsSignificand(d, n);
      UnpackNear(sign, e, m);
      MagnitudeBelow(m, e - Bias(X));
      if e == 2046 {
        TopWord(sign, n, m);
      }
    }
  }

  /** The largest double is one that does not. */
  lemma LargestOverflows() returns (d: real)
    ensures d > 0.0 && Wireable(d) && !StaysFinite(d) && Abs(Wire(d)) >= Scaled(1.0, 1024)
  {
    hide Two, Scaled, Exponent, Fraction, Significand, Wire;
    var n := Two(S) - 1;
    var t := Scaled(n as real, 0 - S);
    d := Scaled(1.0 + t, 1023);
    BiasIs1023();
    RatioOfField(n, S);
    ScaledZero(1023);
    ScaledStrict(0.0, 1.0 + t, 1023);
    NormalForm(d, t, 1023);
    FieldIsSignificand(d, n);
    ScaledTwice(n as real, 0 - S, S);
    ScaledByZero(n as real);
    StaysFiniteExactly(d);
  }

  lemma BiasIs1023()
    ensures Bias(X) == 1023
  {
    assert Two(10) == 1024;
  }

  lemma FieldIsSignificand(d: real, n: nat)
    requires d != 0.0 && Scaled(n as real, 0 - S) == Fraction(Abs(d))
    ensures Significand(Fraction(Abs(d)), S) == n
  {
    hide Two, Scaled, Exponent, Fraction;
    ScaledTwice(n as real, 0 - S, S);
    ScaledByZero(n as real);
  }

  /** A magnitude of exponent b is below 2^1024 exactly if it is below the end of the last exponent, 1023. */
  lemma MagnitudeBelow(m: nat, b: int)
    requires m <= Two(S) && b <= 1023
    ensures Scaled(1.0 + Scaled(m as real, 0 - S), b) < Scaled(1.0, 1024) <==> b < 1023 || m < Two(S)
  {
    hide Two, Scaled;
    ScaledUp(1.0, S);
    ScaledTwice(1.0, S, 0 - S);
    ScaledByZero(1.0);
    var t := Scaled(m as real, 0 - S);
    ScaledStep(1.0, 1023);
    ScaledStep(1.0, b);
    ScaledMono(m as real, Two(S) as real, 0 - S);
    if m < Two(S) {
      ScaledStrict(m as real, Two(S) as real, 0 - S);
      ScaledStrict(1.0 + t, 2.0, b);
    }
    ScaledMono(1.0 + t, 2.0, b);
    ScaledExponentMono(1.0, b + 1, 1024);
    if b < 1023 {
      ScaledExponentMono(1.0, b + 1, 1023);
      ScaledZero(1023);
      ScaledStrict(0.0, 1.0, 1023);
    }
  }

  lemma TopWord(sign: nat, n: nat, m: nat)
    requires sign <= 1 && n < Two(S) && m <= Two(S)
    requires RoundToDouble(Word(sign * 2048 + 2046, n)) == Word(sign * 2048 + 2046, m)
    ensures m == Two(S) <==> Two(S) - n <= 512 * (1 + sign)
  {
    hide Two, Granule, RoundTo, Word;
    var h := sign * 2048 + 2046;
    GranuleAtTop(sign, n);
    var b := EndOfExponent(h, sign);
    var lo, hi := WordBounds(h, n);
    var lo', hi' := WordBounds(h, m);
    Literals();
    TwoStep(9 + sign);
    RoundsUpTo(Word(h, n), Two(10 + sign), b, Two(9 + sign));
  }

  /** An exponent ends at an even multiple of its granule. */
  lemma EndOfExponent(h: nat, sign: nat) returns (b: nat)
    requires sign <= 1
    ensures b % 2 == 0 && b * Two(10 + sign) == Word(h, Two(S))
  {
    hide Two;
    var c := (h + 1) * Two(41 - sign);
    b := 2 * c;
    TwoStep(10 + sign);
    TwoAdd(41 - sign, 11 + sign);
    Regroup(h + 1, Two(41 - sign), Two(11 + sign));
    assert b * Two(10 + sign) == c * (2 * Two(10 + sign));
    assert Word(h, Two(S)) == (h + 1) * Two(S);
  }

  /** The binary digits of a whole number below 2^42 end 11 places before those of a significand. */
  lemma IntegerDigits(a: nat) returns (e: nat, k: nat)
    requires 1 <= a < Two(42)
    ensures Exponent(a as real) == e <= 41
    ensures Scaled(Fraction(a as real), S) == (k * 2048) as real
  {
    hide Two, Scaled, Exponent, Fraction;
    var b, t := Exponent(a as real), Fraction(a as real);
    ScaledByZero(1.0);
    ScaledUp(1.0, 42);
    ScaledStep(1.0, b);
    if b < 0 {
      ScaledUp(1.0, 0);
      Literals();
      ScaledExponentMono(1.0, b + 1, 0);
    } else if b >= 42 {
      ScaledExponentMono(1.0, 42, b);
    }
    e := b;
    ScaledUp(1.0, e);
    ScaledAdd(1.0, t, e);
    k := DigitsBehind(a - Two(e), t, e);
  }

  lemma DigitsBehind(i: nat, t: real, e: nat) returns (k: nat)
    requires e <= 41 && Scaled(t, e) == i as real
    ensures Scaled(t, S) == (k * 2048) as real
  {
    hide Two, Scaled;
    ScaledTwice(t, e, S - e);
    ScaledUp(i as real, S - e);
    TwoAdd(41 - e, 11);
    Literals();
    k := i * Two(41 - e);
    Regroup(i, Two(41 - e), 2048);
  }

  /** Whole numbers below 2^42, and so every rs_int_t, arrive unchanged. */
  lemma WireOfInteger(n: int)
    requires 0 - Two(42) < n < Two(42)
    ensures Wireable(n as real) && Wire(n as real) == n as real
  {
    if n == 0 {
      WireOfZero();
    } else {
      var e, k := IntegerDigits(if n < 0 then -n else n);
      WireableByDigits(n as real, e, k);
      WireOfDigits(n as real, k);
    }
  }

  lemma WireOfDigits(d: real, k: nat)
    requires d != 0.0 && Wireable(d)
    requires Scaled(Fraction(Abs(d)), S) == (k * 2048) as real
    ensures Wire(d) == d
  {
    hide Two, Scaled, Exponent, Fraction, Granule, RoundToDouble, Pack, Bias, Unpack, FitsSignificand,
         Wire, Wireable, Word;
    WireIsUnpack(d);
    var sign, b, m := WordOfWireable(d);
    ScaledTwice(m as real, 0 - S, S);
    ScaledByZero(m as real);
    var lo, hi := WordBounds(sign * 2048 + b, m);
    RoundedWord(Pack(d, S, X), lo + k, lo + k);
  }

  lemma WireableByDigits(d: real, e: nat, k: nat)
    requires d != 0.0 && Exponent(Abs(d)) == e <= 41
    requires Scaled(Fraction(Abs(d)), S) == (k * 2048) as real
    ensures Wireable(d)
  {
    assert Two(10) == 1024;
  }

  lemma Regroup(a: nat, b: nat, c: nat)
    ensures a * (b * c) == a * b * c
  {
  }
}
