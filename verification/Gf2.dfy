/** Polynomials over the field with two elements, as coefficient lists: the
    coefficient of x^k is p[k], and coefficients past the end are zero. */
module Gf2 {

  type Poly = seq<bool>

  predicate Coef(p: Poly, k: int) {
    0 <= k < |p| && p[k]
  }

  /** Equality of polynomials, as opposed to equality of coefficient lists. */
  ghost predicate Same(p: Poly, q: Poly) {
    forall k :: Coef(p, k) == Coef(q, k)
  }

  function Add(p: Poly, q: Poly): (s: Poly)
    ensures forall k {:trigger Coef(s, k)} :: Coef(s, k) == (Coef(p, k) != Coef(q, k))
  {
    seq(if |p| < |q| then |q| else |p|, k => Coef(p, k) != Coef(q, k))
  }

  /** p * x^n */
  function Shift(p: Poly, n: nat): (s: Poly)
    ensures forall k {:trigger Coef(s, k)} :: Coef(s, k) == Coef(p, k - n)
  {
    seq(n, _ => false) + p
  }

  function Scale(c: bool, p: Poly): Poly {
    if c then p else []
  }

  function Mul(p: Poly, q: Poly): Poly {
    if p == [] then [] else Add(Scale(p[0], q), Shift(Mul(p[1..], q), 1))
  }

  lemma MulCoef(q: Poly, g: Poly, k: int)
    requires q != []
    ensures Coef(Mul(q, g), k) == ((q[0] && Coef(g, k)) != Coef(Mul(q[1..], g), k - 1))
  {
    assert Coef(Shift(Mul(q[1..], g), 1), k) == Coef(Mul(q[1..], g), k - 1);
  }

  lemma MulEmpty(g: Poly)
    ensures Mul([], g) == []
  {
  }

  ghost predicate Monic(g: Poly) {
    g != [] && g[|g| - 1]
  }

  /** r is what is left of d after division by g. */
  ghost predicate IsRemainder(d: Poly, g: Poly, r: Poly) {
    |r| < |g| && exists q :: Same(d, Add(Mul(q, g), r))
  }

  lemma {:induction false} MulDistributes(p1: Poly, p2: Poly, g: Poly)
    ensures Same(Mul(Add(p1, p2), g), Add(Mul(p1, g), Mul(p2, g)))
    decreases |p1| + |p2|
  {
    var s := Add(p1, p2);
    if p1 == [] {
      assert s == p2;
    } else if p2 == [] {
      assert s == p1;
    } else {
      assert s[1..] == Add(p1[1..], p2[1..]);
      assert s[0] == (Coef(p1, 0) != Coef(p2, 0));
      MulDistributes(p1[1..], p2[1..], g);
    }
  }

  lemma {:induction false} MulZero(q: Poly, g: Poly)
    requires forall k :: !Coef(q, k)
    ensures forall k :: !Coef(Mul(q, g), k)
  {
    if q != [] {
      assert !Coef(q, 0);
      forall k ensures !Coef(q[1..], k) {
        assert !Coef(q, k + 1);
      }
      MulZero(q[1..], g);
    }
  }

  ghost predicate Degree(q: Poly, t: nat) {
    Coef(q, t) && forall k :: t < k ==> !Coef(q, k)
  }

  lemma DegreeOfTail(q: Poly, t: nat)
    requires Degree(q, t + 1)
    ensures Degree(q[1..], t)
  {
    forall k | t < k ensures !Coef(q[1..], k) {
      assert !Coef(q, k + 1);
    }
  }

  /** A product with a monic polynomial keeps the leading coefficient. */
  lemma {:induction false} MulTop(q: Poly, g: Poly, t: nat)
    requires Monic(g) && Degree(q, t)
    ensures Coef(Mul(q, g), t + |g| - 1)
  {
    hide Mul;
    MulCoef(q, g, t + |g| - 1);
    if t == 0 {
      forall k ensures !Coef(q[1..], k) {
        assert k >= 0 ==> !Coef(q, k + 1);
      }
      MulZero(q[1..], g);
    } else {
      DegreeOfTail(q, t - 1);
      MulTop(q[1..], g, t - 1);
    }
  }

  lemma {:induction false} HighestCoef(q: Poly) returns (t: nat)
    requires exists k :: Coef(q, k)
    ensures Degree(q, t)
  {
    t := |q| - 1;
    while !q[t]
      invariant 0 <= t < |q|
      decreases t
      invariant forall k :: t < k ==> !Coef(q, k)
    {
      var k :| Coef(q, k);
      assert k < t;
      t := t - 1;
    }
  }

  /** Division by a monic polynomial leaves one remainder only. */
  lemma RemainderUnique(d: Poly, g: Poly, r1: Poly, r2: Poly)
    requires Monic(g) && IsRemainder(d, g, r1) && IsRemainder(d, g, r2)
    ensures Same(r1, r2)
  {
    var q1 :| Same(d, Add(Mul(q1, g), r1));
    var q2 :| Same(d, Add(Mul(q2, g), r2));
    var q := Add(q1, q2);
    MulDistributes(q1, q2, g);
    assert Same(Mul(q, g), Add(r1, r2)) by {
      forall k ensures Coef(Mul(q, g), k) == Coef(Add(r1, r2), k) {
        assert Coef(d, k) == Coef(Add(Mul(q1, g), r1), k);
        assert Coef(d, k) == Coef(Add(Mul(q2, g), r2), k);
      }
    }
    if exists k :: Coef(q, k) {
      var t := HighestCoef(q);
      MulTop(q, g, t);
      assert false;
    }
    MulZero(q, g);
    forall k ensures Coef(r1, k) == Coef(r2, k) {
      assert !Coef(Add(r1, r2), k);
    }
  }
}
