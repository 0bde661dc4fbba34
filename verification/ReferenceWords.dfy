/** The bit set of the scalar reference: which bits it holds and how many
    (src/family_sieve/family_sieve.cpp). */
module ReferenceWords {
  import opened NumberTheory
  import opened MachineArithmetic
  import opened Progressions
  import opened Eliminations
  import opened SieveCells
  import opened SieveScan
  import opened SieveLoops
  import opened RuleTables
  import opened Words
  import opened Wrappers

  ghost predicate ListInRange(f: AffineExponentialFamily, list: seq<Elimination>) {
    forall i :: 0 <= i < |list| ==> f.InRange(list[i].candidate.kIndex, list[i].candidate.nIndex)
  }

  function IndexOf(f: AffineExponentialFamily, c: CandidateIndex): nat
    requires f.InRange(c.kIndex, c.nIndex)
  {
    CanonicalIndex(f, c.kIndex, c.nIndex)
  }

  lemma IndexFits(f: AffineExponentialFamily, c: CandidateIndex)
    requires f.InRange(c.kIndex, c.nIndex)
    ensures IndexOf(f, c) < CandidateCount(f) && IndexOf(f, c) / 64 < WordCount(CandidateCount(f))
  {
    PositionExact(f, c.kIndex, c.nIndex, ByK);
  }

  /** One bit for every elimination of a list. */
  ghost function WordsOf(f: AffineExponentialFamily, list: seq<Elimination>): (r: seq<Word>)
    requires f.Valid() && ListInRange(f, list)
    ensures |r| == WordCount(CandidateCount(f))
  {
    if list == [] then Zeros(WordCount(CandidateCount(f)))
    else
      IndexFits(f, list[|list| - 1].candidate);
      SetBit(WordsOf(f, list[..|list| - 1]), IndexOf(f, list[|list| - 1].candidate))
  }

  lemma {:induction false} RowInRange(f: AffineExponentialFamily, primes: seq<u64>, ki: nat, bound: nat)
    requires f.Valid() && ki < f.k.Count() && bound <= f.n.Count()
    ensures ListInRange(f, RowList(f, primes, ki, bound))
  {
    if bound > 0 {
      RowInRange(f, primes, ki, bound - 1);
    }
  }

  lemma {:induction false} ListsInRange(f: AffineExponentialFamily, primes: seq<u64>, bound: nat)
    requires f.Valid() && bound <= f.k.Count()
    ensures ListInRange(f, ReferenceList(f, primes, bound))
  {
    if bound > 0 {
      ListsInRange(f, primes, bound - 1);
      RowInRange(f, primes, bound - 1, f.n.Count());
    }
  }

  /** The words of the scalar reference. */
  ghost function Reference(f: AffineExponentialFamily, primes: seq<u64>): seq<Word>
    requires f.Valid()
  {
    ListsInRange(f, primes, f.k.Count());
    WordsOf(f, ReferenceList(f, primes, f.k.Count()))
  }

  /** The words a run or the reference allocates: the sum before the division wraps. */
  function AllocatedWords(count: u64): nat {
    ((count + 63) % TWO_TO_64) / 64
  }

  predicate WordsWrap(count: nat) {
    count + 63 > MAX_U64
  }

  /** Enough words for the candidates, or none at all when the sum wraps. */
  lemma WordsAllocated(count: u64)
    ensures AllocatedWords(count) == if WordsWrap(count) then 0 else WordCount(count)
  {
  }

  /** reference_eliminated_words: with enough words the reference's words. When the sum
      before the division wraps there are none: that is the whole result without
      eliminations, and with one the language defines nothing. */
  method ReferenceEliminatedWords(f: AffineExponentialFamily, primes: seq<u64>)
    returns (r: Result<seq<Word>, Exception>)
    requires TestDecides(primes) && f.Valid() && forall q :: q in primes ==> IsPrime(q)
    ensures CandidateCount(f) > MAX_U64 || NeedsTooLarge(f, SortDistinct(primes)) ==> r == Err(LengthError)
    ensures CandidateCount(f) <= MAX_U64 && !NeedsTooLarge(f, SortDistinct(primes)) && !WordsWrap(CandidateCount(f)) ==>
      r == Ok(Reference(f, SortDistinct(primes)))
    ensures CandidateCount(f) <= MAX_U64 && !NeedsTooLarge(f, SortDistinct(primes)) && WordsWrap(CandidateCount(f)) ==>
      ReferenceList(f, SortDistinct(primes), f.k.Count()) == [] ==> r == Ok([])
  {
    if CandidateCount(f) > MAX_U64 {
      return Err(LengthError);
    }
    WordsAllocated(CandidateCount(f));
    var eliminations := ScalarReferenceEliminations(f, primes);
    if eliminations.Err? {
      return Err(eliminations.error);
    }
    ListsInRange(f, SortDistinct(primes), f.k.Count());
    if AllocatedWords(CandidateCount(f)) < WordCount(CandidateCount(f)) {
      if eliminations.value != [] {
        return Err(LogicError);  // the source indexes the empty vector here
      }
      return Ok([]);
    }
    var words := SetListed(f, eliminations.value);
    return Ok(words);
  }

  method SetListed(f: AffineExponentialFamily, list: seq<Elimination>) returns (words: seq<Word>)
    requires f.Valid() && ListInRange(f, list)
    ensures words == WordsOf(f, list)
  {
    words := Zeros(WordCount(CandidateCount(f)));
    var i := 0;
    while i < |list|
      invariant 0 <= i <= |list| && words == WordsOf(f, list[..i])
    {
      assert list[..i + 1][..i] == list[..i];
      IndexFits(f, list[i].candidate);
      words := SetBit(words, list[i].candidate.kIndex * f.n.Count() + list[i].candidate.nIndex);
      i := i + 1;
    }
    assert list[..i] == list;
  }

  // ----- its bits

  ghost predicate Mentions(f: AffineExponentialFamily, list: seq<Elimination>, i: nat)
    requires f.Valid() && ListInRange(f, list)
  {
    exists e :: 0 <= e < |list| && IndexOf(f, list[e].candidate) == i
  }

  lemma {:induction false} BitsOfList(f: AffineExponentialFamily, list: seq<Elimination>, i: nat)
    requires f.Valid() && ListInRange(f, list) && i / 64 < WordCount(CandidateCount(f))
    ensures Bit(WordsOf(f, list), i) <==> Mentions(f, list, i)
  {
    if list != [] {
      var last := |list| - 1;
      IndexFits(f, list[last].candidate);
      BitsOfList(f, list[..last], i);
      assert Mentions(f, list, i) <==> Mentions(f, list[..last], i) || IndexOf(f, list[last].candidate) == i;
    }
  }

  ghost predicate Eliminated(f: AffineExponentialFamily, primes: seq<u64>, ki: nat, ni: nat)
    requires f.InRange(ki, ni)
  {
    Verdict(f, primes, ki, ni).Some?
  }

  lemma {:induction false} RowMentions(f: AffineExponentialFamily, primes: seq<u64>, ki: nat, bound: nat,
                                       c: CandidateIndex)
    requires f.Valid() && ki < f.k.Count() && bound <= f.n.Count()
    ensures (exists e :: e in RowList(f, primes, ki, bound) && e.candidate == c) <==>
      c.kIndex == ki && c.nIndex < bound && Eliminated(f, primes, ki, c.nIndex)
  {
    if bound > 0 {
      RowMentions(f, primes, ki, bound - 1, c);
      var here := EliminationAt(f, primes, ki, bound - 1);
      if here.Some? {
        assert here.value in RowList(f, primes, ki, bound);
      }
    }
  }

  lemma {:induction false} ListMentions(f: AffineExponentialFamily, primes: seq<u64>, bound: nat, c: CandidateIndex)
    requires f.Valid() && bound <= f.k.Count()
    ensures (exists e :: e in ReferenceList(f, primes, bound) && e.candidate == c) <==>
      c.kIndex < bound && c.nIndex < f.n.Count() && Eliminated(f, primes, c.kIndex, c.nIndex)
  {
    hide Progression.Count, Progression.Size, Eliminated, RowList;
    if bound > 0 {
      ListMentions(f, primes, bound - 1, c);
      RowMentions(f, primes, bound - 1, f.n.Count(), c);
    }
  }

  /** A candidate's bit in the reference is its verdict. */
  lemma ReferenceBit(f: AffineExponentialFamily, primes: seq<u64>, ki: nat, ni: nat)
    requires f.InRange(ki, ni)
    ensures var i := CanonicalIndex(f, ki, ni);
      i / 64 < WordCount(CandidateCount(f)) && (Bit(Reference(f, primes), i) <==> Eliminated(f, primes, ki, ni))
  {
    var list, c := ReferenceList(f, primes, f.k.Count()), CandidateIndex(ki, ni);
    ListsInRange(f, primes, f.k.Count());
    IndexFits(f, c);
    BitsOfList(f, list, IndexOf(f, c));
    ListMentions(f, primes, f.k.Count(), c);
    if e :| 0 <= e < |list| && IndexOf(f, list[e].candidate) == IndexOf(f, c) {
      CanonicalInjective(f, list[e].candidate.kIndex, list[e].candidate.nIndex, ki, ni);
      assert list[e] in list && list[e].candidate == c;
    }
  }

  lemma ReferencePadding(f: AffineExponentialFamily, primes: seq<u64>)
    requires f.Valid()
    ensures NoPadding(Reference(f, primes), CandidateCount(f))
  {
    var list := ReferenceList(f, primes, f.k.Count());
    ListsInRange(f, primes, f.k.Count());
    forall i: nat | CandidateCount(f) <= i && i / 64 < |WordsOf(f, list)|
      ensures !Bit(WordsOf(f, list), i)
    {
      BitsOfList(f, list, i);
      forall e | 0 <= e < |list|
        ensures IndexOf(f, list[e].candidate) != i
      {
        IndexFits(f, list[e].candidate);
      }
    }
  }

  /** Every index below the count is a candidate's. */
  lemma IndexDecodes(f: AffineExponentialFamily, i: nat) returns (ki: nat, ni: nat)
    requires f.Valid() && i < CandidateCount(f)
    ensures f.InRange(ki, ni) && CanonicalIndex(f, ki, ni) == i
  {
    DecodeExact(f, i, ByK);
    ki, ni := DecodeK(f, i, ByK), DecodeN(f, i, ByK);
  }

  /** Words with the verdict of every candidate and no padding are the reference's. */
  lemma WordsAreReference(f: AffineExponentialFamily, primes: seq<u64>, words: seq<Word>)
    requires f.Valid() && |words| == WordCount(CandidateCount(f)) && NoPadding(words, CandidateCount(f))
    requires forall ki, ni :: f.InRange(ki, ni) && CanonicalIndex(f, ki, ni) / 64 < |words| ==>
      (Bit(words, CanonicalIndex(f, ki, ni)) <==> Eliminated(f, primes, ki, ni))
    ensures words == Reference(f, primes)
  {
    ReferencePadding(f, primes);
    forall i: nat | i / 64 < |words|
      ensures Bit(words, i) <==> Bit(Reference(f, primes), i)
    {
      if i < CandidateCount(f) {
        var ki, ni := IndexDecodes(f, i);
        ReferenceBit(f, primes, ki, ni);
      }
    }
    VectorExtensional(words, Reference(f, primes));
  }

  // ----- how many there are

  ghost predicate IndicesBelow(f: AffineExponentialFamily, list: seq<Elimination>, bound: int)
    requires f.Valid() && ListInRange(f, list)
  {
    forall i :: 0 <= i < |list| ==> IndexOf(f, list[i].candidate) < bound
  }

  ghost predicate IndicesAscend(f: AffineExponentialFamily, list: seq<Elimination>)
    requires f.Valid() && ListInRange(f, list)
  {
    forall i, j :: 0 <= i < j < |list| ==> IndexOf(f, list[i].candidate) < IndexOf(f, list[j].candidate)
  }

  lemma {:induction false} RowAscends(f: AffineExponentialFamily, primes: seq<u64>, ki: nat, bound: nat)
    requires f.Valid() && ki < f.k.Count() && bound <= f.n.Count()
    ensures var row := RowList(f, primes, ki, bound);
      && ListInRange(f, row) && IndicesAscend(f, row) && IndicesBelow(f, row, ki * f.n.Count() + bound)
      && forall i :: 0 <= i < |row| ==> ki * f.n.Count() <= IndexOf(f, row[i].candidate)
  {
    hide Progression.Count, Progression.Size;
    if bound > 0 {
      RowAscends(f, primes, ki, bound - 1);
    }
  }

  lemma {:induction false} ListAscends(f: AffineExponentialFamily, primes: seq<u64>, bound: nat)
    requires f.Valid() && bound <= f.k.Count()
    ensures var list := ReferenceList(f, primes, bound);
      ListInRange(f, list) && IndicesAscend(f, list) && IndicesBelow(f, list, bound * f.n.Count())
  {
    hide Progression.Count, Progression.Size;
    if bound > 0 {
      ListAscends(f, primes, bound - 1);
      RowAscends(f, primes, bound - 1, f.n.Count());
      assert (bound - 1) * f.n.Count() + f.n.Count() == bound * f.n.Count();
    }
  }

  lemma {:induction false} BitsCounted(f: AffineExponentialFamily, list: seq<Elimination>)
    requires f.Valid() && ListInRange(f, list) && IndicesAscend(f, list)
    ensures TotalBits(WordsOf(f, list)) == |list|
  {
    if list == [] {
      TotalOfZeros(WordCount(CandidateCount(f)));
    } else {
      var last := |list| - 1;
      BitsCounted(f, list[..last]);
      IndexFits(f, list[last].candidate);
      BitsOfList(f, list[..last], IndexOf(f, list[last].candidate));
      TotalAfterSet(WordsOf(f, list[..last]), IndexOf(f, list[last].candidate));
    }
  }

  /** The reference has one bit per elimination. */
  lemma ReferenceCount(f: AffineExponentialFamily, primes: seq<u64>)
    requires f.Valid()
    ensures TotalBits(Reference(f, primes)) == |ReferenceList(f, primes, f.k.Count())|
  {
    ListAscends(f, primes, f.k.Count());
    BitsCounted(f, ReferenceList(f, primes, f.k.Count()));
  }
}
