/** Lagrange's bound on the roots of a polynomial modulo a prime, used to show
    that a quadratic non-residue exists. */
module Polynomials {
  import opened NumberTheory
  import opened FiniteProducts

  /** Horner evaluation; the constant coefficient comes first. */
  function Eval(c: seq<int>, x: int): int {
    if c == [] then 0 else c[0] + x * Eval(c[1..], x)
  }

  /** The quotient of c(x) - c(r) by x - r. */
  function Deflate(c: seq<int>, r: int): (q: seq<int>)
    ensures |q| == if c == [] then 0 else |c| - 1
    ensures |c| > 1 ==> q[|q| - 1] == c[|c| - 1]
  {
    if |c| <= 1 then [] else
      var t := c[1..];
      var d := Deflate(t, r);
      assert |d| == |t| - 1;
      seq(|t|, i requires 0 <= i < |t| => if i < |d| then t[i] + r * d[i] else t[i])
  }

  lemma {:induction false} EvalCombination(s: seq<int>, t: seq<int>, r: int, d: seq<int>, x: int)
    requires |s| == |t| && |d| <= |t|
    requires forall i :: 0 <= i < |t| ==> s[i] == if i < |d| then t[i] + r * d[i] else t[i]
    ensures Eval(s, x) == Eval(t, x) + r * Eval(d, x)
    decreases |t|
  {
    if t != [] {
      var d' := if d == [] then [] else d[1..];
      EvalCombination(s[1..], t[1..], r, d', x);
      assert d == [] ==> Eval(d', x) == 0;
      var e, f, g := Eval(t[1..], x), Eval(d', x), if d == [] then 0 else d[0];
      assert x * (e + r * f) == x * e + r * (x * f) by {
        assert x * (r * f) == r * (x * f);
      }
      assert r * (g + x * f) == r * g + r * (x * f);
      assert Eval(d, x) == g + x * f;
    }
  }

  lemma DeflateAlgebra(ex: int, er: int, q: int, x: int, r: int)
    requires ex - er == (x - r) * q
    ensures x * ex - r * er == (x - r) * (ex + r * q)
  {
    assert x * ex - r * er == (x - r) * ex + r * (ex - er);
    assert r * ((x - r) * q) == (x - r) * (r * q);
    assert (x - r) * (ex + r * q) == (x - r) * ex + (x - r) * (r * q);
  }

  lemma {:induction false} DeflateFactors(c: seq<int>, r: int, x: int)
    ensures Eval(c, x) - Eval(c, r) == (x - r) * Eval(Deflate(c, r), x)
    decreases |c|
  {
    if |c| <= 1 {
      assert |c| == 1 ==> c[1..] == [];
    } else {
      var t := c[1..];
      DeflateFactors(t, r, x);
      EvalCombination(Deflate(c, r), t, r, Deflate(t, r), x);
      DeflateAlgebra(Eval(t, x), Eval(t, r), Eval(Deflate(t, r), x), x, r);
    }
  }

  /** A monic polynomial of degree d has at most d roots modulo a prime: it
      cannot vanish on all of 1..m when d < m < p. */
  lemma {:induction false} Lagrange(c: seq<int>, m: nat, p: int)
    requires IsPrime(p) && m < p && c != [] && c[|c| - 1] == 1 && |c| <= m
    ensures exists x :: 1 <= x <= m && !Divides(p, Eval(c, x))
    decreases |c|
  {
    if |c| == 1 {
      assert c[1..] == [] && Eval(c, 1) == 1;
      DivModUnique(1, p, 0, 1);
      assert !Divides(p, Eval(c, 1));
    } else if forall x :: 1 <= x <= m ==> Divides(p, Eval(c, x)) {
      var q := Deflate(c, m);
      Lagrange(q, m - 1, p);
      var x :| 1 <= x <= m - 1 && !Divides(p, Eval(q, x));
      DeflateFactors(c, m, x);
      DividesLinear(p, Eval(c, x), Eval(c, m), 1, -1);
      EuclidInt(p, x - m, Eval(q, x));
      DivModUnique(x - m, p, -1, x - m + p);
    }
  }

  /** The coefficients of x^h - 1. */
  function PowerMinusOne(h: nat): (c: seq<int>)
    requires h > 0
    ensures |c| == h + 1 && c[h] == 1
  {
    [-1] + Monomial(h - 1)
  }

  function Monomial(h: nat): (c: seq<int>)
    ensures |c| == h + 1 && c[h] == 1
  {
    if h == 0 then [1] else [0] + Monomial(h - 1)
  }

  lemma {:induction false} EvalMonomial(h: nat, x: int)
    ensures Eval(Monomial(h), x) == Pow(x, h)
  {
    if h == 0 {
      assert Monomial(0)[1..] == [];
    } else {
      EvalMonomial(h - 1, x);
      assert Monomial(h)[1..] == Monomial(h - 1);
    }
  }

  /** For h below p - 1 some residue has an h-th power other than 1. */
  lemma SomePowerIsNotOne(p: int, h: nat) returns (x: int)
    requires IsPrime(p) && 0 < h < p - 1
    ensures 1 <= x <= p - 1 && !Cong(Pow(x, h), 1, p)
  {
    var c := PowerMinusOne(h);
    Lagrange(c, p - 1, p);
    x :| 1 <= x <= p - 1 && !Divides(p, Eval(c, x));
    EvalMonomial(h - 1, x);
    assert c[1..] == Monomial(h - 1);
    CongIffDivides(Pow(x, h), 1, p);
  }
}
