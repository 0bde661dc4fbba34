/** generate_primes: bucket filing, the workers' segments and their concatenation
    (src/sieve/sieve.cpp). */
module PrimeGenerator {
  import opened NumberTheory
  import opened MachineArithmetic
  import opened BasePrimes
  import opened SegmentedSieve
  import opened Wrappers

  // ----- segments of a range

  function SegmentTotal(length: u64, span: u64): nat
    requires span > 0
  {
    QuotientBounds(length, span);
    length / span + if length % span == 0 then 0 else 1
  }

  /** Segment g of the range [begin, end). */
  function SegmentOf(begin: u64, end: u64, span: u64, g: nat): Segment
    requires begin < end && span > 0 && g < SegmentTotal(end - begin, span)
  {
    SegmentFits(end - begin, span, g);
    var low := begin + g * span;
    var remaining := end - low;
    Segment(low, low + if span < remaining then span else remaining)
  }

  lemma SegmentFits(length: u64, span: u64, g: nat)
    requires span > 0 && g < SegmentTotal(length, span)
    ensures 0 <= g * span < length
  {
    MulMonotone(span, 0, g);
    MulMonotone(span, g, SegmentTotal(length, span) - 1);
    assert length == span * (length / span) + length % span;
    assert span * (length / span - 1) == span * (length / span) - span;
    assert g * span == span * g;
  }

  /** Membership in a segment is a quotient. */
  lemma SegmentMembers(begin: u64, end: u64, span: u64, g: nat, v: int)
    requires begin < end && span > 0 && g < SegmentTotal(end - begin, span)
    ensures var s := SegmentOf(begin, end, span, g);
      s.low < s.high && (s.low <= v < s.high <==> begin <= v < end && (v - begin) / span == g)
  {
    SegmentFits(end - begin, span, g);
    if begin <= v {
      QuotientBounds(v - begin, span);
      var q := (v - begin) / span;
      assert (q + 1) * span == q * span + span;
      if begin + g * span <= v < begin + g * span + span {
        DivModUnique(v - begin, span, g, v - begin - g * span);
      }
    }
  }

  lemma TotalCovers(length: u64, span: u64)
    requires span > 0
    ensures SegmentTotal(length, span) * span >= length
  {
    assert length == span * (length / span) + length % span;
    assert (length / span + 1) * span == span * (length / span) + span;
  }

  lemma SegmentExists(begin: u64, end: u64, span: u64, v: int)
    requires begin <= v < end && span > 0
    ensures 0 <= (v - begin) / span < SegmentTotal(end - begin, span)
  {
    var q, total := (v - begin) / span, SegmentTotal(end - begin, span);
    QuotientBounds(v - begin, span);
    TotalCovers(end - begin, span);
    hide SegmentTotal;
    MulMonotone(span, total, if q >= total then q else total);
    assert total * span == span * total && q * span == span * q;
  }

  /** Consecutive segments meet, and the last one ends the range. */
  lemma SegmentsMeet(begin: u64, end: u64, span: u64, g: nat)
    requires begin < end && span > 0 && g < SegmentTotal(end - begin, span)
    ensures var s := SegmentOf(begin, end, span, g);
      s.high == if g + 1 < SegmentTotal(end - begin, span) then SegmentOf(begin, end, span, g + 1).low else end
  {
    SegmentFits(end - begin, span, g);
    assert (g + 1) * span == g * span + span;
    if g + 1 < SegmentTotal(end - begin, span) {
      SegmentFits(end - begin, span, g + 1);
    } else {
      assert end - begin == span * ((end - begin) / span) + (end - begin) % span;
      assert span * ((end - begin) / span) == ((end - begin) / span) * span;
    }
  }

  // ----- buckets

  datatype BucketEntry = BucketEntry(value: u64, prime: u64)

  datatype Bucket = Bucket(values: seq<u64>, primes: seq<u64>, entries: seq<BucketEntry>) {
    /** The values a segment reads, from either layout. */
    function Listed(layout: BucketLayout): seq<u64> {
      if layout == SoA then values else seq(|entries|, i requires 0 <= i < |entries| => entries[i].value)
    }

    function Push(layout: BucketLayout, value: u64, prime: u64): (b: Bucket)
      ensures b.Listed(layout) == Listed(layout) + [value]
    {
      if layout == SoA then this.(values := values + [value], primes := primes + [prime])
      else this.(entries := entries + [BucketEntry(value, prime)])
    }
  }

  /** An odd number of segment g. */
  ghost predicate OddInSegment(begin: u64, end: u64, span: u64, g: int, v: int)
    requires span > 0
  {
    begin <= v < end && v % 2 == 1 && (v - begin) / span == g
  }

  ghost predicate BucketExact(o: SieveOptions, begin: u64, end: u64, base: seq<u64>, k: int, g: int, bucket: Bucket)
    requires o.segmentSpan > 0
  {
    forall v: int :: v in bucket.Listed(o.bucketLayout) <==>
      OddInSegment(begin, end, o.segmentSpan, g, v) && StruckBy(o, Filing, base, k, v)
  }

  /** One large prime's odd multiples go to the buckets of their segments. */
  method FilePrime(o: SieveOptions, begin: u64, end: u64, prime: u64, buckets: array<Bucket>)
    requires begin < end && o.segmentSpan > 0 && buckets.Length == SegmentTotal(end - begin, o.segmentSpan)
    requires IsPrime(prime) && prime != 2 && prime * prime <= MAX_U64
    modifies buckets
    ensures forall g :: 0 <= g < buckets.Length ==> forall v: int :: v in buckets[g].Listed(o.bucketLayout) <==>
      v in old(buckets[g]).Listed(o.bucketLayout) || (OddInSegment(begin, end, o.segmentSpan, g, v) && Struck(v, prime))
  {
    OddPrime(prime);
    var value := FirstOddMultiple(prime, begin, end);
    var step: u64 := prime * 2;
    assert forall v: int :: begin <= v < end && v % 2 == 1 && Struck(v, prime) ==> OddMultiple(prime, v, begin, end);
    while value < end
      invariant value <= end && (value < end ==> OddMultiple(prime, value, begin, end))
      invariant forall g :: 0 <= g < buckets.Length ==> forall v: int :: v in buckets[g].Listed(o.bucketLayout) <==>
        v in old(buckets[g]).Listed(o.bucketLayout)
        || (OddInSegment(begin, end, o.segmentSpan, g, v) && Struck(v, prime) && v < value)
      decreases end - value
    {
      SegmentExists(begin, end, o.segmentSpan, value);
      var segment := (value - begin) / o.segmentSpan;
      buckets[segment] := buckets[segment].Push(o.bucketLayout, value, prime);
      forall v: int | v % 2 == 1 && Struck(v, prime) && v > value
        ensures v >= value + step
      {
        NextOddMultiple(prime, value, v);
      }
      var last: u64 := (end - 1) - step;
      if value > last {
        return;
      }
      OddStep(prime, value);
      value := value + step;
    }
  }

  method FileBuckets(o: SieveOptions, begin: u64, end: u64, base: seq<u64>) returns (buckets: array<Bucket>)
    requires begin < end && o.segmentSpan > 0 && AllBase(base) && o.bucketSieve
    ensures fresh(buckets) && buckets.Length == SegmentTotal(end - begin, o.segmentSpan)
    ensures forall g :: 0 <= g < buckets.Length ==> BucketExact(o, begin, end, base, |base|, g, buckets[g])
  {
    buckets := new Bucket[SegmentTotal(end - begin, o.segmentSpan)](_ => Bucket([], [], []));
    var k := 0;
    while k < |base|
      invariant 0 <= k <= |base|
      invariant forall g :: 0 <= g < buckets.Length ==> BucketExact(o, begin, end, base, k, g, buckets[g])
    {
      ghost var before := buckets[..];
      if o.Chosen(Filing, base[k]) {
        FilePrime(o, begin, end, base[k], buckets);
      }
      forall g | 0 <= g < buckets.Length
        ensures BucketExact(o, begin, end, base, k + 1, g, buckets[g])
      {
        assert BucketExact(o, begin, end, base, k, g, before[g]);
        forall v: int
          ensures StruckBy(o, Filing, base, k + 1, v) <==>
            StruckBy(o, Filing, base, k, v) || (o.Chosen(Filing, base[k]) && Struck(v, base[k]))
        {
          StruckByStep(o, Filing, base, k, v);
        }
      }
      k := k + 1;
    }
  }

  // ----- one segment

  lemma FilingNeedsBuckets(o: SieveOptions, base: seq<u64>, v: int)
    requires !o.bucketSieve
    ensures !StruckBy(o, Filing, base, |base|, v)
  {
  }

  /** A segment's bucket holds its odd numbers that a filing prime strikes. */
  lemma BucketOfSegment(o: SieveOptions, begin: u64, end: u64, base: seq<u64>, bucket: Bucket, g: nat)
    requires begin < end && o.segmentSpan > 0 && g < SegmentTotal(end - begin, o.segmentSpan)
    requires BucketExact(o, begin, end, base, |base|, g, bucket)
    ensures var s, listed := SegmentOf(begin, end, o.segmentSpan, g), bucket.Listed(o.bucketLayout);
      && (forall j :: 0 <= j < |listed| ==> s.low <= listed[j] < s.high && listed[j] % 2 == 1)
      && (forall i :: 0 <= i < s.OddCount() ==>
        (s.ValueAt(i) in listed <==> StruckBy(o, Filing, base, |base|, s.ValueAt(i))))
  {
    var s, listed := SegmentOf(begin, end, o.segmentSpan, g), bucket.Listed(o.bucketLayout);
    forall j | 0 <= j < |listed|
      ensures s.low <= listed[j] < s.high && listed[j] % 2 == 1
    {
      assert listed[j] in listed;
      SegmentMembers(begin, end, o.segmentSpan, g, listed[j]);
    }
    forall i | 0 <= i < s.OddCount()
      ensures s.ValueAt(i) in listed <==> StruckBy(o, Filing, base, |base|, s.ValueAt(i))
    {
      SegmentValue(s, i);
      SegmentMembers(begin, end, o.segmentSpan, g, s.ValueAt(i));
    }
  }

  /** process_segment */
  method ProcessSegment(o: SieveOptions, begin: u64, end: u64, base: seq<u64>, bucket: Bucket, g: nat)
    returns (primes: seq<u64>)
    requires begin < end && o.segmentSpan > 0 && g < SegmentTotal(end - begin, o.segmentSpan)
    requires AllBase(base) && Covers(base, end)
    requires o.bucketSieve ==> BucketExact(o, begin, end, base, |base|, g, bucket)
    ensures var s := SegmentOf(begin, end, o.segmentSpan, g); primes == PrimesIn(s.low, s.high)
  {
    var s := SegmentOf(begin, end, o.segmentSpan, g);
    SegmentMembers(begin, end, o.segmentSpan, g, begin);
    var composite := new CompositeBits(s.OddCount(), o.bitPacked);
    StrikePrimes(s, o, base, composite);
    if o.bucketSieve {
      BucketOfSegment(o, begin, end, base, bucket, g);
      StrikeBucket(s, bucket.Listed(o.bucketLayout), composite);
    }
    CoversLess(base, end, s.high);
    hide BucketExact, AllBase, Covers, SegmentTotal, SegmentOf;
    forall i | 0 <= i < composite.size
      ensures Finished(o, base, s.ValueAt(i), composite.marks[i])
    {
      if !o.bucketSieve {
        FilingNeedsBuckets(o, base, s.ValueAt(i));
      }
    }
    primes := ReadSegment(s, o, base, composite);
  }

  lemma CoversLess(base: seq<u64>, bound: int, less: int)
    requires Covers(base, bound) && less <= bound
    ensures Covers(base, less)
  {
  }

  // ----- the whole range

  /** The base primes through the root of the last value are enough. */
  lemma BaseCovers(base: seq<u64>, root: u64, end: u64)
    requires end > 0 && root * root <= end - 1 < (root + 1) * (root + 1) && base == PrimesIn(0, root + 1)
    ensures AllBase(base) && Covers(base, end)
  {
    PrimesInExact(0, root + 1);
    forall j | 0 <= j < |base|
      ensures IsPrime(base[j]) && base[j] * base[j] <= MAX_U64
    {
      assert base[j] in base;
      MulMonotone(base[j], base[j], root);
      MulMonotone(root, base[j], root);
    }
    forall p: int, v: int | IsPrime(p) && Struck(v, p) && v < end
      ensures p in base
    {
      MulMonotone(p, if p > root then root + 1 else 0, p);
      MulMonotone(root + 1, if p > root then root + 1 else 0, if p > root then p else 0);
    }
  }

  lemma RootIsSmall(root: u64, value: u64)
    requires root * root <= value
    ensures root < MAX_U64
  {
    if root == MAX_U64 {
      MulMonotone(root, 2, root);
    }
  }

  /** The primes of the first g segments. */
  lemma SegmentsJoin(begin: u64, end: u64, span: u64, g: nat)
    requires begin < end && span > 0 && g < SegmentTotal(end - begin, span)
    ensures var s := SegmentOf(begin, end, span, g);
      begin <= s.low <= s.high && PrimesIn(begin, s.high) == PrimesIn(begin, s.low) + PrimesIn(s.low, s.high)
  {
    var s := SegmentOf(begin, end, span, g);
    SegmentMembers(begin, end, span, g, begin);
    SegmentFits(end - begin, span, g);
    PrimesJoin(begin, s.low, s.high);
  }

  /** The segments, in any order the workers take them. */
  method ProcessSegments(o: SieveOptions, begin: u64, end: u64, base: seq<u64>, buckets: seq<Bucket>, order: seq<nat>)
    returns (outputs: array<seq<u64>>)
    requires begin < end && o.segmentSpan > 0 && AllBase(base) && Covers(base, end)
    requires o.bucketSieve ==> |buckets| == SegmentTotal(end - begin, o.segmentSpan)
    requires o.bucketSieve ==> forall g :: 0 <= g < |buckets| ==>
      BucketExact(o, begin, end, base, |base|, g, buckets[g])
    requires forall i :: 0 <= i < |order| ==> order[i] < SegmentTotal(end - begin, o.segmentSpan)
    requires forall g :: 0 <= g < SegmentTotal(end - begin, o.segmentSpan) ==> g in order
    ensures fresh(outputs) && outputs.Length == SegmentTotal(end - begin, o.segmentSpan)
    ensures forall g :: 0 <= g < outputs.Length ==> OutputExact(o, begin, end, g, outputs[g])
  {
    outputs := new seq<u64>[SegmentTotal(end - begin, o.segmentSpan)](_ => []);
    var i := 0;
    while i < |order|
      invariant 0 <= i <= |order|
      invariant forall g :: 0 <= g < outputs.Length && g in order[..i] ==> OutputExact(o, begin, end, g, outputs[g])
    {
      var g := order[i];
      assert order[..i + 1] == order[..i] + [g];
      outputs[g] := ProcessSegment(o, begin, end, base, if o.bucketSieve then buckets[g] else Bucket([], [], []), g);
      i := i + 1;
    }
    assert order[..i] == order;
  }

  ghost predicate OutputExact(o: SieveOptions, begin: u64, end: u64, g: nat, primes: seq<u64>)
    requires begin < end && o.segmentSpan > 0 && g < SegmentTotal(end - begin, o.segmentSpan)
  {
    var s := SegmentOf(begin, end, o.segmentSpan, g);
    primes == PrimesIn(s.low, s.high)
  }

  /** The outputs in segment order. */
  method Concatenate(o: SieveOptions, begin: u64, end: u64, outputs: array<seq<u64>>) returns (primes: seq<u64>)
    requires begin < end && o.segmentSpan > 0 && outputs.Length == SegmentTotal(end - begin, o.segmentSpan)
    requires forall g :: 0 <= g < outputs.Length ==> OutputExact(o, begin, end, g, outputs[g])
    ensures primes == PrimesIn(begin, end)
  {
    primes := [];
    SegmentExists(begin, end, o.segmentSpan, begin);
    FirstSegment(begin, end, o.segmentSpan);
    var g := 0;
    while g < outputs.Length
      invariant 0 <= g <= outputs.Length
      invariant primes == PrimesIn(begin, if g < outputs.Length then SegmentOf(begin, end, o.segmentSpan, g).low
        else end)
    {
      SegmentsJoin(begin, end, o.segmentSpan, g);
      SegmentsMeet(begin, end, o.segmentSpan, g);
      assert OutputExact(o, begin, end, g, outputs[g]);
      primes := primes + outputs[g];
      g := g + 1;
    }
  }

  lemma FirstSegment(begin: u64, end: u64, span: u64)
    requires begin < end && span > 0 && 0 < SegmentTotal(end - begin, span)
    ensures SegmentOf(begin, end, span, 0).low == begin
  {
  }

  /** generate_primes: for every option and worker order, the primes of [begin, end). */
  method GeneratePrimes(begin: u64, end: u64, o: SieveOptions, estimate: u64, order: seq<nat>)
    returns (r: Result<seq<u64>, Exception>)
    requires begin < end && o.segmentSpan > 0 ==>
      forall g: nat :: g in order <==> g < SegmentTotal(end - begin, o.segmentSpan)
    ensures o.segmentSpan < 2 || o.threadCount == 0 ==> r == Err(InvalidArgument)
    ensures o.segmentSpan >= 2 && o.threadCount > 0 ==> r.Ok? && r.value == PrimesIn(begin, end)
  {
    if o.segmentSpan < 2 {
      return Err(InvalidArgument);
    }
    if o.threadCount == 0 {
      return Err(InvalidArgument);
    }
    if begin >= end || end <= 2 {
      NoPrimesBelowTwo(begin, if end <= 2 then end else 0);
      return Ok([]);
    }
    var root := IntegerSquareRoot(end - 1, estimate);
    RootIsSmall(root, end - 1);
    var base := BasePrimesThrough(root);
    BaseCovers(base, root, end);
    var buckets: seq<Bucket> := [];
    if o.bucketSieve {
      var filed := FileBuckets(o, begin, end, base);
      buckets := filed[..];
    }
    assert forall i :: 0 <= i < |order| ==> order[i] in order;
    var outputs := ProcessSegments(o, begin, end, base, buckets, order);
    var primes := Concatenate(o, begin, end, outputs);
    return Ok(primes);
  }

  /** Both generators agree on every range. */
  method GeneratorsAgree(begin: u64, end: u64, o: SieveOptions, estimate: u64, order: seq<nat>)
    returns (fast: Result<seq<u64>, Exception>, slow: seq<u64>)
    requires o.segmentSpan >= 2 && o.threadCount > 0
    requires begin < end ==> forall g: nat :: g in order <==> g < SegmentTotal(end - begin, o.segmentSpan)
    ensures fast == Ok(slow)
    ensures forall v: int :: v in slow <==> begin <= v < end && IsPrime(v)
    ensures forall i, j :: 0 <= i < j < |slow| ==> slow[i] < slow[j]
  {
    fast := GeneratePrimes(begin, end, o, estimate, order);
    slow := GeneratePrimesReference(begin, end);
    PrimesInExact(begin, end);
  }
}
