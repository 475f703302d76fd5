/** Products, quotients and remainders, stated without any other function in scope. */
module Arithmetic {

  lemma MulMono(a: int, b: int, c: nat)
    requires a <= b
    ensures a * c <= b * c
  {
  }

  lemma ProductPositive(a: nat, b: nat)
    requires a > 0 && b > 0
    ensures a * b > 0
  {
  }

  lemma DigitsMono(d: nat, m: nat, e: nat, n: nat, p: nat)
    requires m < p && n < p
    requires d < e || (d == e && m <= n)
    ensures d * p + m <= e * p + n
  {
    if d < e {
      MulMono(d + 1, e, p);
    }
  }

  /** Quotient and remainder are determined by their defining equation. */
  lemma DivUnique(w: nat, p: nat, h: nat, r: nat)
    requires p > 0 && w == h * p + r && r < p
    ensures w / p == h && w % p == r
  {
    var h', r' := w / p, w % p;
    assert w == h' * p + r';
    assert (h - h') * p == r' - r;
    if h < h' {
      MulMono(1, h' - h, p);
    } else if h' < h {
      MulMono(1, h - h', p);
    }
  }

  function HighDigit(w: nat, q: nat, p: nat): nat
    requires q > 0 && p > 0
  {
    ProductPositive(q, p);
    w / (q * p)
  }

  /** The high digit of a word made of three. */
  lemma HighDigitIs(w: nat, p: nat, q: nat, g: nat, t: nat, r: nat)
    requires t < q && r < p && w == (g * q + t) * p + r
    ensures HighDigit(w, q, p) == g
    ensures w == g * (q * p) + (t * p + r)
  {
    ProductPositive(q, p);
    HornerForm(g, q, p, t, r);
    DigitsMono(t, r, q - 1, p - 1, p);
    assert (q - 1) * p == q * p - p;
    DivUnique(w, q * p, g, t * p + r);
  }

  lemma HornerForm(g: nat, q: nat, p: nat, t: nat, r: nat)
    ensures (g * q + t) * p + r == g * (q * p) + (t * p + r)
  {
  }

  /** A word below 2 * q * p is made of a sign, a q-valued and a p-valued digit. */
  lemma ThreeFields(w: nat, p: nat, q: nat, g: nat, t: nat, r: nat)
    requires p > 0 && q > 0 && w < 2 * (q * p)
    requires r == w % p && t == w / p % q && g == HighDigit(w, q, p)
    ensures g <= 1 && t < q && r < p && w == g * (q * p) + (t * p + r)
  {
    hide HighDigit;
    var h := TwoDivisions(w, p, q, t, r);
    HighDigitIs(w, p, q, h, t, r);
    SignDigit(w, q * p, g, t * p + r);
  }

  lemma TwoDivisions(w: nat, p: nat, q: nat, t: nat, r: nat) returns (g: nat)
    requires p > 0 && q > 0 && r == w % p && t == w / p % q
    ensures t < q && r < p && w == (g * q + t) * p + r
  {
    var h := w / p;
    g := h / q;
    assert h == g * q + t;
  }

  lemma SignDigit(w: nat, c: nat, g: nat, rest: nat)
    requires w < 2 * c && w == g * c + rest
    ensures g <= 1
  {
    if g >= 2 {
      MulMono(2, g, c);
    }
  }

  /** The three digits are determined by the word they make. */
  lemma ThreeFieldsUnique(sign: nat, e: nat, m: nat, p: nat, q: nat)
    requires e < q && m < p && sign <= 1
    ensures var w := sign * (q * p) + (e * p + m);
            w < 2 * (q * p) && HighDigit(w, q, p) == sign && w / p % q == e && w % p == m
  {
    hide HighDigit;
    HornerForm(sign, q, p, e, m);
    HighDigitIs(sign * (q * p) + (e * p + m), p, q, sign, e, m);
    DivUnique(sign * (q * p) + (e * p + m), p, sign * q + e, m);
    DivUnique(sign * q + e, q, sign, e);
    DigitsMono(e, m, q - 1, p - 1, p);
    assert (q - 1) * p == q * p - p;
    MulMono(sign, 1, q * p);
  }
}
