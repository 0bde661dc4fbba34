/** The segmented sieve: for every span, wheel, bucket, layout and packing option
    and every worker order it lists exactly the primes of the range
    (src/sieve/sieve.cpp). */
module SegmentedSieve {
  import opened NumberTheory
  import opened MachineArithmetic
  import opened BasePrimes
  import opened Words
  import opened Wrappers

  datatype BucketLayout = SoA | AoS

  datatype Way = Striding | Filing

  /** The options; prefetching is not modelled. */
  datatype SieveOptions = SieveOptions(
    segmentSpan: u64, threadCount: u64, wheelModulo30: bool, bitPacked: bool, bucketSieve: bool,
      bucketLayout: BucketLayout)
  {
    /** Whether a prime strides through every segment, or fills the buckets. */
    predicate Chosen(way: Way, p: u64) {
      if way == Striding then p != 2 && !(wheelModulo30 && (p == 3 || p == 5)) && !(bucketSieve && p > segmentSpan / 2)
      else bucketSieve && p != 2 && p > segmentSpan / 2
    }
  }

  // ----- odd multiples

  lemma EvenProduct(p: int, h: int)
    ensures (p * (2 * h)) % 2 == 0
  {
    assert p * (2 * h) == 2 * (p * h);
  }

  lemma OddFactor(p: int, q: int)
    requires (p * q) % 2 == 1
    ensures q % 2 == 1
  {
    if q % 2 == 0 {
      EvenProduct(p, q / 2);
    }
  }

  lemma OddMultiplesApart(p: int, a: int, b: int)
    requires p > 0 && a % 2 == 1 && b % 2 == 1 && a * p < b * p
    ensures b * p >= a * p + 2 * p
  {
    MulMonotone(p, if b <= a then b else a + 2, if b <= a then a else b);
    assert p * (a + 2) == a * p + 2 * p && p * a == a * p && p * b == b * p;
  }

  /** The next odd multiple of a number is two of it further. */
  lemma NextOddMultiple(p: int, m: int, v: int)
    requires p > 0 && m % 2 == 1 && v % 2 == 1 && Divides(p, m) && Divides(p, v) && m < v
    ensures v >= m + 2 * p
  {
    var a := DividesWitness(p, m);
    var b := DividesWitness(p, v);
    assert p * a == a * p && p * b == b * p;
    OddFactor(p, a);
    OddFactor(p, b);
    OddMultiplesApart(p, a, b);
  }

  /** The least multiple of p from low on. */
  lemma LeastMultiple(p: nat, low: nat, v: int)
    requires p > 0 && Divides(p, v) && v >= low
    ensures v >= (low / p + if low % p == 0 then 0 else 1) * p
  {
    var q := DividesWitness(p, v);
    var k := low / p + if low % p == 0 then 0 else 1;
    assert low == p * (low / p) + low % p;
    assert p * (k - 1) == p * k - p;
    MulMonotone(p, if q < k then q else k, if q < k then k - 1 else q);
    assert p * k == k * p;
  }

  /** An odd multiple that first_odd_multiple has to consider. */
  ghost predicate OddMultiple(p: int, v: int, low: int, high: int) {
    p > 0 && v % 2 == 1 && low <= v < high && Divides(p, v) && (p * p <= MAX_U64 ==> p * p <= v)
  }

  ghost predicate NoneBelow(prime: u64, low: u64, high: u64, bound: int) {
    forall v: int :: OddMultiple(prime, v, low, high) ==> v >= bound
  }

  lemma NoneBelowNext(prime: u64, low: u64, high: u64, first: int)
    requires prime > 0 && prime % 2 == 1 && first % 2 == 0 && Divides(prime, first)
      && NoneBelow(prime, low, high, first)
    ensures NoneBelow(prime, low, high, first + prime) && (first + prime) % 2 == 1 && Divides(prime, first + prime)
  {
    forall v: int | OddMultiple(prime, v, low, high)
      ensures v >= first + prime
    {
      NextCongruent(v, first, prime);
    }
    CongruentStep(first, prime);
  }

  /** first_odd_multiple: the least odd multiple in [low, high) from the square on, or high. */
  method FirstOddMultiple(prime: u64, low: u64, high: u64) returns (first: u64)
    requires prime % 2 == 1
    ensures first <= high && NoneBelow(prime, low, high, first)
    ensures first < high ==> OddMultiple(prime, first, low, high)
  {
    var quotient: u64 := QuotientUp(low, prime);
    CandidateBound(prime, low, high);
    QuotientCompareProduct(quotient, prime);
    if quotient > MAX_U64 / prime {
      return high;
    }
    first := quotient * prime;
    DividesMultiple(prime, quotient);
    DividesMultiple(prime, prime);
    QuotientCompare(prime, MAX_U64);
    if prime <= MAX_U64 / prime && first < prime * prime {
      first := prime * prime;
    }
    hide QuotientUp;
    if first % 2 == 0 {
      NoneBelowNext(prime, low, high, first);
      if first > MAX_U64 - prime {
        return high;
      }
      first := first + prime;
    }
    first := if first < high then first else high;
  }

  /** The rounded-up quotient; its guard against the maximum word never fires for a
      divisor above one and cannot be reached for one. */
  function QuotientUp(low: u64, prime: u64): (q: u64)
    requires prime > 0
    ensures q == low / prime + if low % prime == 0 then 0 else 1
    ensures q * prime >= low
  {
    QuotientBounds(low, prime);
    RoundedUp(low, prime);
    if low % prime != 0 then low / prime + 1 else low / prime
  }

  lemma RoundedUp(low: nat, prime: nat)
    requires prime > 0
    ensures (low / prime + if low % prime == 0 then 0 else 1) * prime >= low
    ensures low % prime != 0 ==> low / prime < low
  {
    assert low == prime * (low / prime) + low % prime;
    assert (low / prime + 1) * prime == prime * (low / prime) + prime;
    if low % prime != 0 {
      DivModUnique(low, 1, low, 0);
      MulMonotone(low / prime, if prime >= 2 then 2 else prime, prime);
      if prime == 1 {
        DivModUnique(low, prime, low, 0);
      }
    }
  }

  lemma CandidateBound(prime: u64, low: u64, high: u64)
    requires prime > 0
    ensures NoneBelow(prime, low, high, QuotientUp(low, prime) * prime)
  {
    forall v: int | OddMultiple(prime, v, low, high)
      ensures v >= QuotientUp(low, prime) * prime
    {
      LeastMultiple(prime, low, v);
    }
  }

  lemma QuotientCompareProduct(x: nat, p: nat)
    requires p > 0
    ensures x <= MAX_U64 / p <==> x * p <= MAX_U64
  {
    QuotientBounds(MAX_U64, p);
    var q := MAX_U64 / p;
    MulMonotone(p, if x <= q then x else q + 1, if x <= q then q else x);
    assert (q + 1) * p == p * (q + 1) && q * p == p * q && x * p == p * x;
  }

  // ----- composite flags, packed or one per byte

  class CompositeBits {
    const size: nat
    const packed: bool
    var words: seq<Word>
    var bytes: seq<bool>
    ghost var marks: seq<bool>

    ghost predicate Valid()
      reads this
    {
      && |marks| == size
      && (if packed then |words| == (size + 63) / 64 else |bytes| == size)
      && forall i :: 0 <= i < size ==> marks[i] == if packed then Bit(words, i) else bytes[i]
    }

    constructor (size: nat, packed: bool)
      ensures Valid() && this.size == size && this.packed == packed && marks == seq(size, _ => false)
    {
      this.size, this.packed := size, packed;
      words := if packed then Zeros((size + 63) / 64) else [];
      bytes := if packed then [] else seq(size, _ => false);
      marks := seq(size, _ => false);
    }

    method Set(index: nat)
      requires Valid() && index < size
      modifies this
      ensures Valid() && marks == old(marks)[index := true]
    {
      if packed {
        words := SetBit(words, index);
      } else {
        bytes := bytes[index := true];
      }
      marks := marks[index := true];
    }

    predicate Test(index: nat): (marked: bool)
      requires Valid() && index < size
      reads this
      ensures marked == marks[index]
    {
      if packed then Bit(words, index) else bytes[index]
    }
  }

  // ----- one segment

  /** The odd numbers of a segment by their index. */
  datatype Segment = Segment(low: u64, high: u64) {
    function FirstOdd(): nat {
      if low % 2 == 1 then low else low + 1
    }

    function OddCount(): nat {
      if FirstOdd() < high then (high - FirstOdd() + 1) / 2 else 0
    }

    function ValueAt(i: int): int {
      FirstOdd() + 2 * i
    }
  }

  /** One of the first k primes that go this way struck v out. */
  ghost predicate StruckBy(o: SieveOptions, way: Way, primes: seq<u64>, k: int, v: int) {
    exists j :: 0 <= j < k && j < |primes| && o.Chosen(way, primes[j]) && Struck(v, primes[j])
  }

  ghost predicate AllBase(primes: seq<u64>) {
    forall j :: 0 <= j < |primes| ==> IsPrime(primes[j]) && primes[j] * primes[j] <= MAX_U64
  }

  lemma OddPrime(p: int)
    requires IsPrime(p) && p != 2
    ensures p % 2 == 1 && p >= 3 && p * p >= 3 * p
  {
    assert Divides(2, p) <==> p % 2 == 0;
    MulMonotone(p, 3, p);
  }

  lemma SegmentValue(s: Segment, i: nat)
    requires i < s.OddCount()
    ensures s.low <= s.ValueAt(i) < s.high && s.ValueAt(i) % 2 == 1
  {
  }

  lemma SegmentIndex(s: Segment, v: nat)
    requires s.low <= v < s.high && v % 2 == 1
    ensures 0 <= (v - s.FirstOdd()) / 2 < s.OddCount() && s.ValueAt((v - s.FirstOdd()) / 2) == v
  {
    HalfOf(v - s.FirstOdd(), s.high - s.FirstOdd() + 1);
  }

  lemma HalfOf(d: int, m: int)
    requires d >= 0 && d % 2 == 0 && d + 2 <= m
    ensures 0 <= d / 2 < m / 2 && 2 * (d / 2) == d
  {
  }

  /** The strided inner loop over one segment: the subtraction in its exit test never
      underflows because every multiple is at least the prime's square. */
  method StrikeSegment(s: Segment, composite: CompositeBits, prime: u64)
    requires composite.Valid() && composite.size == s.OddCount()
    requires IsPrime(prime) && prime != 2 && prime * prime <= MAX_U64
    modifies composite
    ensures composite.Valid()
    ensures forall i :: 0 <= i < composite.size ==>
      (composite.marks[i] <==> old(composite.marks)[i] || Struck(s.ValueAt(i), prime))
  {
    OddPrime(prime);
    var multiple := FirstOddMultiple(prime, s.low, s.high);
    var step: u64 := prime * 2;
    forall i | 0 <= i < composite.size
      ensures Struck(s.ValueAt(i), prime) ==> s.ValueAt(i) >= multiple
    {
      SegmentValue(s, i);
      assert Struck(s.ValueAt(i), prime) ==> OddMultiple(prime, s.ValueAt(i), s.low, s.high);
    }
    while multiple < s.high
      invariant composite.Valid() && multiple <= s.high
        && (multiple < s.high ==> OddMultiple(prime, multiple, s.low, s.high))
      invariant forall i :: 0 <= i < composite.size ==>
        (composite.marks[i] <==> old(composite.marks)[i] || (Struck(s.ValueAt(i), prime) && s.ValueAt(i) < multiple))
      decreases s.high - multiple
    {
      SegmentIndex(s, multiple);
      composite.Set((multiple - s.FirstOdd()) / 2);
      forall i | 0 <= i < composite.size && Struck(s.ValueAt(i), prime) && s.ValueAt(i) > multiple
        ensures s.ValueAt(i) >= multiple + step
      {
        SegmentValue(s, i);
        NextOddMultiple(prime, multiple, s.ValueAt(i));
      }
      var last: u64 := (s.high - 1) - step;
      if multiple > last {
        forall i | 0 <= i < composite.size
          ensures s.ValueAt(i) < s.high
        {
          SegmentValue(s, i);
        }
        return;
      }
      OddStep(prime, multiple);
      multiple := multiple + step;
    }
    forall i | 0 <= i < composite.size
      ensures s.ValueAt(i) < s.high
    {
      SegmentValue(s, i);
    }
  }

  lemma OddStep(p: int, m: int)
    requires p > 0 && m % 2 == 1 && Divides(p, m)
    ensures (m + p * 2) % 2 == 1 && Divides(p, m + p * 2)
  {
    CongruentStep(m, p);
    CongruentStep(m + p, p);
  }

  /** The marks are exactly the strikes of the striding primes. */
  ghost predicate StridesMarked(s: Segment, o: SieveOptions, primes: seq<u64>, k: int, marks: seq<bool>) {
    forall i :: 0 <= i < |marks| ==> (marks[i] <==> StruckBy(o, Striding, primes, k, s.ValueAt(i)))
  }

  lemma StruckByStep(o: SieveOptions, way: Way, primes: seq<u64>, k: nat, v: int)
    requires k < |primes|
    ensures StruckBy(o, way, primes, k + 1, v) <==>
      StruckBy(o, way, primes, k, v) || (o.Chosen(way, primes[k]) && Struck(v, primes[k]))
  {
  }

  method StrikePrimes(s: Segment, o: SieveOptions, primes: seq<u64>, composite: CompositeBits)
    requires composite.Valid() && composite.size == s.OddCount() && AllBase(primes)
    requires composite.marks == seq(composite.size, _ => false)
    modifies composite
    ensures composite.Valid() && StridesMarked(s, o, primes, |primes|, composite.marks)
  {
    var k := 0;
    while k < |primes|
      invariant 0 <= k <= |primes| && composite.Valid() && StridesMarked(s, o, primes, k, composite.marks)
    {
      if o.Chosen(Striding, primes[k]) {
        StrikeSegment(s, composite, primes[k]);
      }
      k := k + 1;
    }
  }

  /** The bucket's values are struck as they are. */
  method StrikeBucket(s: Segment, values: seq<u64>, composite: CompositeBits)
    requires composite.Valid() && composite.size == s.OddCount()
    requires forall j :: 0 <= j < |values| ==> s.low <= values[j] < s.high && values[j] % 2 == 1
    modifies composite
    ensures composite.Valid()
    ensures forall i :: 0 <= i < composite.size ==>
      (composite.marks[i] <==> old(composite.marks)[i] || s.ValueAt(i) in values)
  {
    var j := 0;
    while j < |values|
      invariant 0 <= j <= |values| && composite.Valid()
      invariant forall i :: 0 <= i < composite.size ==>
        (composite.marks[i] <==> old(composite.marks)[i] || s.ValueAt(i) in values[..j])
    {
      assert values[..j + 1] == values[..j] + [values[j]];
      SegmentIndex(s, values[j]);
      composite.Set((values[j] - s.FirstOdd()) / 2);
      j := j + 1;
    }
    assert values[..j] == values;
  }

  // ----- reading a segment off

  /** is_wheel_candidate */
  predicate IsWheelCandidate(v: nat) {
    v == 2 || v == 3 || v == 5 || v % 30 in {1, 7, 11, 13, 17, 19, 23, 29}
  }

  /** On odd numbers from three on the wheel rejects exactly the multiples of 3 and 5 above them. */
  lemma WheelRejects(v: nat)
    requires v % 2 == 1 && v >= 3
    ensures IsWheelCandidate(v) <==> v == 3 || v == 5 || (v % 3 != 0 && v % 5 != 0)
  {
    var q, r := v / 30, v % 30;
    assert v == 30 * q + r;
    DivModUnique(v, 3, 10 * q + r / 3, r % 3);
    DivModUnique(v, 5, 6 * q + r / 5, r % 5);
    DivModUnique(v, 2, 15 * q + r / 2, r % 2);
    WheelResidue(r);
  }

  lemma WheelResidue(r: nat)
    requires r < 30 && r % 2 == 1
    ensures r in {1, 7, 11, 13, 17, 19, 23, 29} <==> r % 3 != 0 && r % 5 != 0
  {
  }

  /** The base primes reach every striker of a number below the bound. */
  ghost predicate Covers(primes: seq<u64>, bound: int) {
    forall p: int, v: int :: IsPrime(p) && Struck(v, p) && v < bound ==> p in primes
  }

  /** What the marks of a finished segment say about an odd number. */
  ghost predicate Finished(o: SieveOptions, primes: seq<u64>, v: int, marked: bool) {
    marked <==> StruckBy(o, Striding, primes, |primes|, v) || StruckBy(o, Filing, primes, |primes|, v)
  }

  lemma ListedIsPrime(o: SieveOptions, primes: seq<u64>, v: nat, bound: nat, marked: bool)
    requires v % 2 == 1 && 3 <= v < bound && AllBase(primes) && Covers(primes, bound) && Finished(o, primes, v, marked)
    ensures !marked && (o.wheelModulo30 ==> IsWheelCandidate(v)) <==> IsPrime(v)
  {
    WheelRejects(v);
    if IsPrime(v) {
      assert v != 3 ==> !Divides(3, v);
      assert v != 5 ==> !Divides(5, v);
      forall p | IsPrime(p) && Struck(v, p)
        ensures false
      {
        StrikerIsProper(v, p);
      }
    } else {
      var p := SmallPrimeDivisor(v);
      assert Struck(v, p) && p in primes;
      var j :| 0 <= j < |primes| && primes[j] == p;
      assert v % p == 0 && p != 2;
      if o.Chosen(Striding, p) || o.Chosen(Filing, p) {
        assert StruckBy(o, Striding, primes, |primes|, v) || StruckBy(o, Filing, primes, |primes|, v);
      } else {
        MulMonotone(p, 3, p);
      }
    }
  }

  lemma EvenIsComposite(v: int)
    requires v % 2 == 0 && v > 2
    ensures !IsPrime(v)
  {
    assert Divides(2, v);
  }

  /** The primes of a segment so far: 2 when it lies in the segment, then odd ones. */
  ghost function SegmentPrimes(s: Segment, reached: nat): seq<nat> {
    (if s.low <= 2 < s.high then [2] else []) + PrimesIn(if s.low < 3 then 3 else s.low, reached)
  }

  lemma SegmentStart(s: Segment)
    ensures SegmentPrimes(s, s.FirstOdd()) == if s.low <= 2 < s.high then [2] else []
  {
    if s.low % 2 == 0 && s.low > 2 {
      EvenIsComposite(s.low);
      assert PrimesIn(s.low, s.low + 1) == PrimesIn(s.low, s.low);
    }
  }

  lemma SegmentStep(s: Segment, v: nat)
    requires v % 2 == 1 && s.low <= v
    ensures SegmentPrimes(s, v + 2) == SegmentPrimes(s, v) + if v >= 3 && IsPrime(v) then [v] else []
  {
    if v >= 3 {
      EvenIsComposite(v + 1);
      assert PrimesIn(if s.low < 3 then 3 else s.low, v + 1 + 1) == PrimesIn(if s.low < 3 then 3 else s.low, v + 1);
    }
  }

  lemma SegmentEnd(s: Segment, reached: nat)
    requires s.low < s.high && (reached == s.high || (reached == s.high + 1 && s.high % 2 == 0))
    ensures SegmentPrimes(s, reached) == PrimesIn(s.low, s.high)
  {
    if reached == s.high + 1 && s.high > 2 {
      EvenIsComposite(s.high);
    }
    PrimesFromTwo(s.low, s.high);
    if s.low < 3 && s.high > 2 {
      PrimesJoin(2, 3, s.high);
      TwoIsPrime();
      assert PrimesIn(2, 3) == PrimesIn(2, 2) + [2];
    }
  }

  lemma TwoIsPrime()
    ensures IsPrime(2)
  {
  }

  /** Whether a flag's number is listed. */
  predicate Listed(o: SieveOptions, v: nat, marked: bool) {
    v >= 2 && !marked && (o.wheelModulo30 ==> IsWheelCandidate(v))
  }

  lemma ReadStep(s: Segment, o: SieveOptions, base: seq<u64>, v: nat, marked: bool)
    requires v % 2 == 1 && s.low <= v < s.high && AllBase(base) && Covers(base, s.high)
    requires Finished(o, base, v, marked)
    ensures SegmentPrimes(s, v + 2) == SegmentPrimes(s, v) + if Listed(o, v, marked) then [v] else []
  {
    SegmentStep(s, v);
    if v >= 3 {
      ListedIsPrime(o, base, v, s.high, marked);
    }
  }

  /** The loop over the flags. */
  method ReadSegment(s: Segment, o: SieveOptions, ghost base: seq<u64>, composite: CompositeBits)
    returns (primes: seq<u64>)
    requires s.low < s.high && composite.Valid() && composite.size == s.OddCount()
    requires AllBase(base) && Covers(base, s.high)
    requires forall i :: 0 <= i < composite.size ==> Finished(o, base, s.ValueAt(i), composite.marks[i])
    ensures primes == PrimesIn(s.low, s.high)
  {
    hide Listed, Finished, AllBase, Covers, PrimesIn, SegmentPrimes;
    SegmentStart(s);
    primes := if s.low <= 2 < s.high then [2] else [];
    var index := 0;
    while index < composite.size
      invariant 0 <= index <= composite.size && primes == SegmentPrimes(s, s.ValueAt(index))
    {
      SegmentValue(s, index);
      var value: u64 := s.FirstOdd() + index * 2;
      ReadStep(s, o, base, value, composite.marks[index]);
      var marked := composite.Test(index);
      if Listed(o, value, marked) {
        primes := primes + [value];
      }
      index := index + 1;
    }
    SegmentEnd(s, s.ValueAt(index));
  }
}
