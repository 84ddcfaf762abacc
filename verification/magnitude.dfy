/** Decimal orders of magnitude: `fexp` of territory_balancing.py, computed
    exactly on reals instead of through a floating-point `log10`. */
module Magnitude {

  function Abs(x: real): (r: real)
    ensures r >= 0.0 && (r == x || r == -x)
  {
    if x < 0.0 then -x else x
  }

  /** Ten to the power `k`, for negative `k` too. */
  function Pow10(k: int): (p: real)
    ensures p > 0.0
    decreases if k < 0 then -k else k
  {
    if k == 0 then 1.0
    else if k > 0 then 10.0 * Pow10(k - 1)
    else Pow10(k + 1) / 10.0
  }

  lemma Pow10Step(k: int)
    ensures Pow10(k + 1) == 10.0 * Pow10(k)
  {
    if k < 0 {
      assert Pow10(k) == Pow10(k + 1) / 10.0;
    }
  }

  /** Pow10 is strictly increasing in its exponent. */
  lemma {:induction false} Pow10Monotone(a: int, b: int)
    requires a < b
    ensures Pow10(a) < Pow10(b)
    decreases b - a
  {
    Pow10Step(a);
    if a + 1 < b {
      Pow10Monotone(a + 1, b);
    }
  }

  /** The largest `e` with 10^e <= a, for positive `a`. */
  function Log10Floor(a: real): (e: int)
    requires a > 0.0
    ensures Pow10(e) <= a < Pow10(e + 1)
    decreases a < 1.0, if a < 1.0 then (1.0 / a).Floor else a.Floor
  {
    if a >= 10.0 then
      var e := 1 + Log10Floor(a / 10.0);
      Pow10Step(e - 1);
      Pow10Step(e);
      e
    else if a >= 1.0 then
      Pow10Step(0);
      0
    else
      assert 1.0 / (a * 10.0) == (1.0 / a) / 10.0;
      var e := Log10Floor(a * 10.0) - 1;
      Pow10Step(e);
      Pow10Step(e + 1);
      e
  }

  /** `fexp(f)`: the decimal exponent of `f`, and 0 for 0. */
  function Fexp(f: real): (e: int)
    ensures f != 0.0 ==> Pow10(e) <= Abs(f) < Pow10(e + 1)
    ensures f == 0.0 ==> e == 0
  {
    if f != 0.0 then Log10Floor(Abs(f)) else 0
  }

  /** The exponent is the only integer whose decade contains |f|. */
  lemma FexpUnique(f: real, e: int)
    requires Pow10(e) <= Abs(f) < Pow10(e + 1)
    ensures Fexp(f) == e
  {
    var d := Fexp(f);
    if d < e {
      Pow10Monotone(d + 1, e + 1);
      if d + 1 < e {
        Pow10Monotone(d + 1, e);
      }
    } else if d > e {
      if e + 1 < d {
        Pow10Monotone(e + 1, d);
      }
    }
  }

  /** Dividing by ten lowers the exponent of a non-zero value by one. */
  lemma FexpDivTen(f: real)
    requires f != 0.0
    ensures Fexp(f / 10.0) == Fexp(f) - 1
  {
    var e := Fexp(f);
    Pow10Step(e - 1);
    Pow10Step(e);
    assert Abs(f / 10.0) == Abs(f) / 10.0;
    FexpUnique(f / 10.0, e - 1);
  }

  /** Dividing by 10^k lowers the exponent of a non-zero value by k. */
  lemma {:induction false} FexpDivPow10(f: real, k: nat)
    requires f != 0.0
    ensures Fexp(f / Pow10(k)) == Fexp(f) - k
  {
    if k > 0 {
      FexpDivPow10(f, k - 1);
      var p := Pow10(k - 1);
      DivTenfold(f, p);
      FexpDivTen(f / p);
    }
  }

  lemma DivTenfold(x: real, p: real)
    requires p > 0.0
    ensures x / (10.0 * p) == (x / p) / 10.0
  {
  }

  /** fexp(x) < 1 exactly when |x| < 10. */
  lemma FexpBelowOne(f: real)
    ensures Fexp(f) < 1 <==> Abs(f) < 10.0
  {
    Pow10Step(0);
    if f != 0.0 {
      var e := Fexp(f);
      if e >= 1 {
        if e > 1 {
          Pow10Monotone(1, e);
        }
      } else {
        if e < 0 {
          Pow10Monotone(e + 1, 1);
        }
      }
    }
  }

  /** fexp(x) >= n exactly when |x| >= 10^n, for positive n. */
  lemma FexpAtLeast(f: real, n: int)
    requires n > 0
    ensures Fexp(f) >= n <==> Abs(f) >= Pow10(n)
  {
    if f == 0.0 {
      Pow10Monotone(0, n);
      Pow10Step(-1);
    } else {
      var e := Fexp(f);
      if e >= n {
        if e > n {
          Pow10Monotone(n, e);
        }
      } else if e + 1 < n {
        Pow10Monotone(e + 1, n);
      }
    }
  }

  /** For a standard deviation `s` (the non-negative square root of the
      variance `v`), fexp(s) < 1 exactly when v < 100. */
  lemma FexpOfRoot(s: real, v: real)
    requires s >= 0.0 && s * s == v
    ensures Fexp(s) < 1 <==> v < 100.0
  {
    FexpBelowOne(s);
    if s < 10.0 {
      assert s * s < 10.0 * 10.0;
    } else {
      assert s * s >= 10.0 * 10.0;
    }
  }
}
