/** Polynomials over the two-element field.  A polynomial is the string of its
    coefficients, constant term first; its degree is below the string's length. */
module Gf2 {
  import opened BitString

  type Poly = seq<bool>

  /** The coefficient of `x^k`, which is zero outside the string. */
  predicate Coef(a: Poly, k: int) {
    0 <= k < |a| && a[k]
  }

  /** The coefficient of `x^k` in the product: the sum of `q[i] * g[k - i]` over all `i`. */
  predicate MulCoef(q: Poly, g: Poly, k: int) {
    if q == [] then false
    else (q[0] && Coef(g, k)) != MulCoef(q[1..], g, k - 1)
  }

  predicate Monic(g: Poly) {
    |g| > 0 && g[|g| - 1]
  }

  /** `a == q * g + r`, with `r` of smaller degree than `g`. */
  ghost predicate IsDivision(a: Poly, g: Poly, q: Poly, r: Poly) {
    && |g| == |r| + 1
    && |a| == |q| + |r|
    && forall k :: 0 <= k < |a| ==> a[k] == (MulCoef(q, g, k) != Coef(r, k))
  }

  lemma {:induction false} MulCoefBelow(q: Poly, g: Poly, k: int)
    requires k < 0
    ensures !MulCoef(q, g, k)
  {
    if q != [] {
      MulCoefBelow(q[1..], g, k - 1);
    }
  }

  lemma {:induction false} MulCoefAbove(q: Poly, g: Poly, k: int)
    requires k >= |q| + |g| - 1
    ensures !MulCoef(q, g, k)
  {
    if q != [] {
      MulCoefAbove(q[1..], g, k - 1);
    }
  }

  /** The product also unfolds at the last coefficient of its first factor. */
  lemma {:induction false} MulCoefLast(q: Poly, g: Poly, k: int)
    requires q != []
    ensures MulCoef(q, g, k) == (MulCoef(q[..|q| - 1], g, k) != (q[|q| - 1] && Coef(g, k - |q| + 1)))
  {
    if |q| > 1 {
      MulCoefLast(q[1..], g, k - 1);
      assert q[1..][..|q| - 2] == q[..|q| - 1][1..];
    }
  }

  /** One step of long division: bring down the next coefficient `b` of the dividend. */
  lemma DivisionStep(m: Poly, g: Poly, q: Poly, r: Poly, b: bool, r': Poly)
    requires |r'| == |r| > 0 && Monic(g)
    requires IsDivision(Zeros(|r|) + m, g, q, r)
    requires var top := r[|r| - 1] != b;
             forall i :: 0 <= i < |r| ==> r'[i] == (Coef(r, i - 1) != (top && g[i]))
    ensures IsDivision(Zeros(|r|) + ([b] + m), g, [r[|r| - 1] != b] + q, r')
  {
    var d, q' := |r|, [r[|r| - 1] != b] + q;
    var a, a' := Zeros(d) + m, Zeros(d) + ([b] + m);
    forall k | 0 <= k < |a'|
      ensures a'[k] == (MulCoef(q', g, k) != Coef(r', k))
    {
      assert q'[1..] == q;
      if k == 0 {
        MulCoefBelow(q, g, -1);
      } else {
        assert a[k - 1] == (MulCoef(q, g, k - 1) != Coef(r, k - 1));
        assert a'[k] == if k == d then b else a[k - 1];
      }
    }
  }

  /** The leading coefficients of the dividend and of the quotient agree. */
  lemma LeadingCoefficient(a: Poly, g: Poly, q: Poly, r: Poly)
    requires Monic(g) && IsDivision(a, g, q, r) && q != []
    ensures a[|a| - 1] == q[|q| - 1]
  {
    MulCoefLast(q, g, |a| - 1);
    MulCoefAbove(q[..|q| - 1], g, |a| - 1);
  }

  /** The dividend without the contribution of the quotient's leading coefficient. */
  function Reduced(a: Poly, g: Poly): (r: Poly)
    requires |a| >= |g| > 0
    ensures |r| == |a| - 1
  {
    seq(|a| - 1, k requires 0 <= k < |a| - 1 => a[k] != (a[|a| - 1] && Coef(g, k - |a| + |g|)))
  }

  lemma DropLeading(a: Poly, g: Poly, q: Poly, r: Poly)
    requires Monic(g) && IsDivision(a, g, q, r) && q != []
    ensures IsDivision(Reduced(a, g), g, q[..|q| - 1], r)
  {
    LeadingCoefficient(a, g, q, r);
    forall k | 0 <= k < |a| - 1
      ensures Reduced(a, g)[k] == (MulCoef(q[..|q| - 1], g, k) != Coef(r, k))
    {
      MulCoefLast(q, g, k);
    }
  }

  /** Division by a monic polynomial has one quotient and one remainder. */
  lemma {:induction false} DivisionUnique(a: Poly, g: Poly, q: Poly, r: Poly, q': Poly, r': Poly)
    requires Monic(g) && IsDivision(a, g, q, r) && IsDivision(a, g, q', r')
    ensures q == q' && r == r'
    decreases |q|
  {
    if q == [] {
      forall k | 0 <= k < |r| ensures r[k] == r'[k] {
        assert a[k] == (MulCoef(q, g, k) != Coef(r, k));
      }
    } else {
      var n := |q| - 1;
      LeadingCoefficient(a, g, q, r);
      LeadingCoefficient(a, g, q', r');
      DropLeading(a, g, q, r);
      DropLeading(a, g, q', r');
      DivisionUnique(Reduced(a, g), g, q[..n], r, q'[..n], r');
      assert q == q[..n] + [q[n]] && q' == q'[..n] + [q'[n]];
    }
  }
}
