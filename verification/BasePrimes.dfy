/** The sieve of Eratosthenes behind both prime generators, and the integer square
    root that bounds it (src/sieve/sieve.cpp). */
module BasePrimes {
  import opened NumberTheory
  import opened MachineArithmetic

  // ----- integer square root

  lemma QuotientCompare(x: nat, value: nat)
    requires x > 0
    ensures x <= value / x <==> x * x <= value
  {
    QuotientBounds(value, x);
    var q := value / x;
    MulMonotone(x, if x <= q then x else q + 1, if x <= q then q else x);
    assert (q + 1) * x == x * (q + 1) && q * x == x * q;
  }

  /** integer_square_root: whatever the floating-point estimate was, the two repair
      loops end at the exact root. */
  method IntegerSquareRoot(value: u64, estimate: u64) returns (root: u64)
    ensures root * root <= value < (root + 1) * (root + 1)
  {
    root := estimate;
    if root < MAX_U64 {
      QuotientCompare(root + 1, value);
    }
    while root != MAX_U64 && root + 1 <= value / (root + 1)
      invariant root < MAX_U64 ==> (root + 1 <= value / (root + 1) <==> (root + 1) * (root + 1) <= value)
      decreases MAX_U64 - root
    {
      root := root + 1;
      if root < MAX_U64 {
        QuotientCompare(root + 1, value);
      }
    }
    if root == MAX_U64 {
      MulMonotone(root + 1, 1, root + 1);
    }
    while root != 0 && root > value / root
      invariant (root + 1) * (root + 1) > value
      decreases root
    {
      QuotientCompare(root, value);
      root := root - 1;
    }
    if root > 0 {
      QuotientCompare(root, value);
    }
  }

  // ----- crossing out

  /** p strikes v out: a multiple of p from p squared on. */
  ghost predicate Struck(v: int, p: int) {
    p > 0 && Divides(p, v) && p * p <= v
  }

  ghost predicate CrossedBelow(v: int, c: int) {
    exists p :: 2 <= p < c && IsPrime(p) && Struck(v, p)
  }

  lemma StrikerIsProper(v: int, p: int)
    requires p >= 2 && Struck(v, p)
    ensures p < v && !IsPrime(v)
  {
    MulMonotone(p, 2, p);
  }

  /** A number not crossed out below a bound whose square exceeds it is prime. */
  lemma UncrossedIsPrime(v: int, c: int)
    requires v >= 2 && c >= 0 && c * c > v
    ensures CrossedBelow(v, c) <==> !IsPrime(v)
  {
    if !IsPrime(v) {
      var p := SmallPrimeDivisor(v);
      if p >= c {
        MulMonotone(p, c, p);
        MulMonotone(c, c, p);
      }
      assert Struck(v, p);
    }
    if p :| 2 <= p < c && IsPrime(p) && Struck(v, p) {
      StrikerIsProper(v, p);
    }
  }

  lemma CandidateVerdict(c: int)
    requires c >= 2
    ensures CrossedBelow(c, c) <==> !IsPrime(c)
  {
    MulMonotone(c, 2, c);
    UncrossedIsPrime(c, c);
  }

  /** The inner loop: every multiple from the square on, and nothing else. */
  method CrossOutMultiples(composite: array<bool>, limit: u64, candidate: u64)
    requires composite.Length == limit + 1 && candidate >= 2 && candidate * candidate <= limit
    modifies composite
    ensures forall j: int :: 0 <= j <= limit ==> (composite[j] <==> old(composite[j]) || Struck(j, candidate))
  {
    var multiple: u64 := candidate * candidate;
    DividesMultiple(candidate, candidate);
    while multiple <= limit
      invariant candidate * candidate <= multiple && Divides(candidate, multiple)
      invariant forall j: int :: 0 <= j <= limit ==>
        (composite[j] <==> old(composite[j]) || (Struck(j, candidate) && j < multiple))
      decreases limit - multiple
    {
      composite[multiple] := true;
      forall j: int | multiple < j && Divides(candidate, j)
        ensures j >= multiple + candidate
      {
        NextCongruent(j, multiple, candidate);
      }
      if multiple > limit - candidate {
        return;
      }
      CongruentStep(multiple, candidate);
      multiple := multiple + candidate;
    }
  }

  /** The composite table of both generators. */
  method CrossOut(limit: u64) returns (composite: array<bool>)
    requires limit >= 1
    ensures fresh(composite) && composite.Length == limit + 1
    ensures forall j: int :: 2 <= j <= limit ==> (composite[j] <==> !IsPrime(j))
  {
    composite := new bool[limit + 1](_ => false);
    var candidate: u64 := 2;
    QuotientCompare(candidate, limit);
    while candidate <= limit / candidate
      invariant candidate >= 2
      invariant candidate <= limit / candidate <==> candidate * candidate <= limit
      invariant forall j: int :: 0 <= j <= limit ==> (composite[j] <==> CrossedBelow(j, candidate))
      decreases limit - candidate
    {
      MulMonotone(candidate, 2, candidate);
      CandidateVerdict(candidate);
      if !composite[candidate] {
        CrossOutMultiples(composite, limit, candidate);
      }
      candidate := candidate + 1;
      QuotientCompare(candidate, limit);
    }
    forall j: int | 2 <= j <= limit
      ensures composite[j] <==> !IsPrime(j)
    {
      UncrossedIsPrime(j, candidate);
    }
  }

  // ----- prime lists

  /** The primes of [begin, end) in order. */
  ghost function PrimesIn(begin: nat, end: nat): seq<nat> {
    if end <= begin then [] else PrimesIn(begin, end - 1) + if IsPrime(end - 1) then [end - 1] else []
  }

  /** PrimesIn lists exactly the primes of the range, strictly increasing. */
  lemma {:induction false} PrimesInExact(begin: nat, end: nat)
    ensures forall v: int :: v in PrimesIn(begin, end) <==> begin <= v < end && IsPrime(v)
    ensures forall i, j :: 0 <= i < j < |PrimesIn(begin, end)| ==> PrimesIn(begin, end)[i] < PrimesIn(begin, end)[j]
  {
    if begin < end {
      PrimesInExact(begin, end - 1);
      var earlier := PrimesIn(begin, end - 1);
      assert forall i :: 0 <= i < |earlier| ==> earlier[i] in earlier;
    }
  }

  lemma {:induction false} PrimesJoin(a: nat, b: nat, c: nat)
    requires a <= b <= c
    ensures PrimesIn(a, c) == PrimesIn(a, b) + PrimesIn(b, c)
    decreases c
  {
    if b < c {
      PrimesJoin(a, b, c - 1);
    }
  }

  lemma {:induction false} NoPrimesBelowTwo(begin: nat, end: nat)
    requires end <= 2
    ensures PrimesIn(begin, end) == []
  {
    if begin < end {
      NoPrimesBelowTwo(begin, end - 1);
    }
  }

  lemma PrimesFromTwo(begin: nat, end: nat)
    ensures PrimesIn(begin, end) == PrimesIn(if begin < 2 then 2 else begin, end)
  {
    if begin < 2 <= end {
      PrimesJoin(begin, 2, end);
      NoPrimesBelowTwo(begin, 2);
    } else if begin < 2 {
      NoPrimesBelowTwo(begin, end);
    }
  }

  /** Collecting the entries that were not crossed out. */
  method Collect(composite: array<bool>, begin: u64, end: u64) returns (primes: seq<u64>)
    requires 2 <= begin && end <= composite.Length
    requires forall j: int :: 2 <= j < end ==> (composite[j] <==> !IsPrime(j))
    ensures primes == PrimesIn(begin, end)
  {
    primes := [];
    var value: u64 := begin;
    while value < end
      invariant begin <= value && (value <= end || value == begin) && primes == PrimesIn(begin, value)
    {
      if !composite[value] {
        primes := primes + [value];
      }
      value := value + 1;
    }
  }

  /** base_primes_through */
  method BasePrimesThrough(limit: u64) returns (primes: seq<u64>)
    requires limit < MAX_U64
    ensures primes == PrimesIn(0, limit + 1)
  {
    PrimesFromTwo(0, limit + 1);
    if limit < 2 {
      return [];
    }
    var composite := CrossOut(limit);
    primes := Collect(composite, 2, limit + 1);
  }

  /** generate_primes_reference */
  method GeneratePrimesReference(begin: u64, end: u64) returns (primes: seq<u64>)
    ensures primes == PrimesIn(begin, end)
  {
    PrimesFromTwo(begin, end);
    if begin >= end || end <= 2 {
      NoPrimesBelowTwo(begin, if end <= 2 then end else 0);
      return [];
    }
    var composite := CrossOut(end - 1);
    primes := Collect(composite, if begin < 2 then 2 else begin, end);
  }
}
