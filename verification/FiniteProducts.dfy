/** Products over 1..n and their invariance under rearrangement: the counting
    arguments behind Fermat's theorem and quadratic reciprocity. */
module FiniteProducts {
  import opened NumberTheory

  /** f(1) * ... * f(n) */
  function Prod(f: int -> int, n: nat): int {
    if n == 0 then 1 else Prod(f, n - 1) * f(n)
  }

  /** The product of f over the entries of s. */
  function ProdSeq(f: int -> int, s: seq<int>): int {
    if s == [] then 1 else ProdSeq(f, s[..|s| - 1]) * f(s[|s| - 1])
  }

  function Times(f: int -> int, g: int -> int): int -> int {
    i => f(i) * g(i)
  }

  function After(f: int -> int, g: int -> int): int -> int {
    i => f(g(i))
  }

  function Always(c: int): int -> int {
    _ => c
  }

  function Identity(): int -> int {
    i => i
  }

  lemma {:induction false} ProdExt(f: int -> int, g: int -> int, n: nat)
    requires forall i :: 1 <= i <= n ==> f(i) == g(i)
    ensures Prod(f, n) == Prod(g, n)
  {
    if n > 0 {
      ProdExt(f, g, n - 1);
    }
  }

  lemma {:induction false} ProdMul(f: int -> int, g: int -> int, n: nat)
    ensures Prod(Times(f, g), n) == Prod(f, n) * Prod(g, n)
  {
    if n > 0 {
      ProdMul(f, g, n - 1);
      MulShuffle(Prod(f, n - 1), Prod(g, n - 1), f(n), g(n));
    }
  }

  lemma {:induction false} ProdConst(c: int, n: nat)
    ensures Prod(Always(c), n) == Pow(c, n)
  {
    if n > 0 {
      ProdConst(c, n - 1);
    }
  }

  lemma {:induction false} ProdCong(f: int -> int, g: int -> int, n: nat, m: int)
    requires m > 0 && forall i :: 1 <= i <= n ==> Cong(f(i), g(i), m)
    ensures Cong(Prod(f, n), Prod(g, n), m)
  {
    if n > 0 {
      ProdCong(f, g, n - 1, m);
      CongMul(Prod(f, n - 1), Prod(g, n - 1), f(n), g(n), m);
    }
  }

  /** The row of f at i, and the products of all rows of length n. */
  function Row(f: (int, int) -> int, i: int): int -> int {
    j => f(i, j)
  }

  function RowProducts(f: (int, int) -> int, n: nat): int -> int {
    i => Prod(Row(f, i), n)
  }

  function Transpose(f: (int, int) -> int): (int, int) -> int {
    (j, i) => f(i, j)
  }

  lemma {:induction false} ProdSwap(f: (int, int) -> int, m: nat, n: nat)
    ensures Prod(RowProducts(f, n), m) == Prod(RowProducts(Transpose(f), m), n)
    decreases m
  {
    if m == 0 {
      ProdExt(RowProducts(Transpose(f), m), Always(1), n);
      ProdConst(1, n);
      PowOne(n);
    } else {
      ProdSwap(f, m - 1, n);
      ProdMul(RowProducts(Transpose(f), m - 1), Row(f, m), n);
      ProdExt(RowProducts(Transpose(f), m), Times(RowProducts(Transpose(f), m - 1), Row(f, m)), n);
    }
  }

  // ----- rearrangement

  ghost predicate Distinct(s: seq<int>) {
    forall i, j :: 0 <= i < j < |s| ==> s[i] != s[j]
  }

  ghost predicate Within(s: seq<int>, n: int) {
    forall i :: 0 <= i < |s| ==> 1 <= s[i] <= n
  }

  lemma {:induction false} ProdSeqAppend(f: int -> int, s: seq<int>, t: seq<int>)
    ensures ProdSeq(f, s + t) == ProdSeq(f, s) * ProdSeq(f, t)
    decreases |t|
  {
    if t == [] {
      assert s + t == s;
    } else {
      var t' := t[..|t| - 1];
      assert (s + t)[..|s + t| - 1] == s + t';
      ProdSeqAppend(f, s, t');
      assert (ProdSeq(f, s) * ProdSeq(f, t')) * f(t[|t| - 1]) == ProdSeq(f, s) * (ProdSeq(f, t') * f(t[|t| - 1]));
    }
  }

  lemma ProdSeqRemove(f: int -> int, s: seq<int>, k: nat)
    requires k < |s|
    ensures ProdSeq(f, s) == ProdSeq(f, s[..k] + s[k + 1..]) * f(s[k])
  {
    var a, b := s[..k], s[k + 1..];
    calc {
      ProdSeq(f, s);
      { assert s == s[..k + 1] + b; ProdSeqAppend(f, s[..k + 1], b); }
      ProdSeq(f, s[..k + 1]) * ProdSeq(f, b);
      { assert s[..k + 1][..k] == a; }
      (ProdSeq(f, a) * f(s[k])) * ProdSeq(f, b);
      { MulSwapLast(ProdSeq(f, a), f(s[k]), ProdSeq(f, b)); }
      (ProdSeq(f, a) * ProdSeq(f, b)) * f(s[k]);
      { ProdSeqAppend(f, a, b); }
      ProdSeq(f, a + b) * f(s[k]);
    }
  }

  lemma MulSwapLast(x: int, z: int, y: int)
    ensures (x * z) * y == (x * y) * z
  {
    assert z * y == y * z;
    assert x * (y * z) == (x * y) * z;
    assert (x * z) * y == x * (z * y);
  }

  lemma RemoveKeeps(s: seq<int>, k: nat, n: int)
    requires k < |s| && Distinct(s) && Within(s, n) && s[k] == n
    ensures var t := s[..k] + s[k + 1..]; Distinct(t) && Within(t, n - 1)
  {
    var t := s[..k] + s[k + 1..];
    forall i | 0 <= i < |t|
      ensures 1 <= t[i] <= n - 1
    {
      assert t[i] == s[if i < k then i else i + 1];
    }
  }

  /** There are at most n distinct values in 1..n. */
  lemma {:induction false} Pigeonhole(s: seq<int>, n: nat)
    requires Distinct(s) && Within(s, n)
    ensures |s| <= n
  {
    if s != [] {
      assert 1 <= s[0] <= n;
      if k :| 0 <= k < |s| && s[k] == n {
        RemoveKeeps(s, k, n);
        Pigeonhole(s[..k] + s[k + 1..], n - 1);
      } else {
        Pigeonhole(s, n - 1);
      }
    }
  }

  /** n distinct values in 1..n multiply, through f, to f(1) * ... * f(n). */
  lemma {:induction false} Rearrange(f: int -> int, s: seq<int>, n: nat)
    requires |s| == n && Distinct(s) && Within(s, n)
    ensures ProdSeq(f, s) == Prod(f, n)
  {
    if n > 0 {
      if forall k :: 0 <= k < n ==> s[k] != n {
        Pigeonhole(s, n - 1);
      } else {
        var k :| 0 <= k < n && s[k] == n;
        RemoveKeeps(s, k, n);
        Rearrange(f, s[..k] + s[k + 1..], n - 1);
        ProdSeqRemove(f, s, k);
      }
    }
  }

  /** [g(1), ..., g(n)] */
  function Image(g: int -> int, n: nat): (s: seq<int>)
    ensures |s| == n && forall i :: 0 <= i < n ==> s[i] == g(i + 1)
  {
    if n == 0 then [] else Image(g, n - 1) + [g(n)]
  }

  lemma {:induction false} ProdSeqOfImage(f: int -> int, g: int -> int, n: nat)
    ensures ProdSeq(f, Image(g, n)) == Prod(After(f, g), n)
  {
    if n > 0 {
      ProdSeqOfImage(f, g, n - 1);
      var s := Image(g, n);
      assert s[..n - 1] == Image(g, n - 1);
    }
  }

  ghost predicate Permutes(g: int -> int, n: nat) {
    && (forall i :: 1 <= i <= n ==> 1 <= g(i) <= n)
    && (forall i, j :: 1 <= i < j <= n ==> g(i) != g(j))
  }

  /** The product over 1..n is unchanged by a permutation g of 1..n. */
  lemma ProdPermuted(f: int -> int, g: int -> int, n: nat)
    requires Permutes(g, n)
    ensures Prod(After(f, g), n) == Prod(f, n)
  {
    Rearrange(f, Image(g, n), n);
    ProdSeqOfImage(f, g, n);
  }

  // ----- Fermat's little theorem

  lemma {:induction false} ProdNotDivisible(f: int -> int, n: nat, p: int)
    requires IsPrime(p) && forall i :: 1 <= i <= n ==> !Divides(p, f(i))
    ensures !Divides(p, Prod(f, n))
  {
    if n == 0 {
      DivModUnique(1, p, 0, 1);
    } else {
      ProdNotDivisible(f, n - 1, p);
      if Divides(p, Prod(f, n)) {
        EuclidInt(p, Prod(f, n - 1), f(n));
      }
    }
  }

  lemma FactorialNotDivisible(p: int, n: nat)
    requires IsPrime(p) && n < p
    ensures !Divides(p, Prod(Identity(), n))
  {
    forall i | 1 <= i <= n
      ensures !Divides(p, Identity()(i))
    {
      DivModUnique(i, p, 0, i);
    }
    ProdNotDivisible(Identity(), n, p);
  }

  function ResidueOf(a: int, p: int): int -> int {
    i => if p > 0 then (a * i) % p else 0
  }

  lemma ResiduesPermute(p: int, a: int)
    requires IsPrime(p) && !Divides(p, a)
    ensures Permutes(ResidueOf(a, p), p - 1)
  {
    var g := ResidueOf(a, p);
    forall i | 1 <= i <= p - 1
      ensures 1 <= g(i) <= p - 1
    {
      DivModUnique(i, p, 0, i);
      if Divides(p, a * i) {
        EuclidInt(p, a, i);
      }
    }
    forall i, j | 1 <= i < j <= p - 1
      ensures g(i) != g(j)
    {
      if g(i) == g(j) {
        CancelModPrime(p, a, i, j);
        ModSelf(i, p);
        ModSelf(j, p);
      }
    }
  }

  /** a^(p-1) is 1 modulo a prime p that does not divide a. */
  lemma Fermat(p: int, a: int)
    requires IsPrime(p) && !Divides(p, a)
    ensures Cong(Pow(a, p - 1), 1, p)
  {
    var n, id, g := p - 1, Identity(), ResidueOf(a, p);
    ResiduesPermute(p, a);
    ProdPermuted(id, g, n);
    forall i | 1 <= i <= n
      ensures Cong(After(id, g)(i), Times(Always(a), id)(i), p)
    {
      ModSelf(a * i, p);
    }
    ProdCong(After(id, g), Times(Always(a), id), n, p);
    ProdMul(Always(a), id, n);
    ProdConst(a, n);
    FactorialNotDivisible(p, n);
    var f := Prod(id, n);
    assert f * 1 == f && f * Pow(a, n) == Pow(a, n) * f;
    CancelModPrime(p, f, 1, Pow(a, n));
  }
}
