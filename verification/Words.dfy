/** Bit sets packed into 64-bit words. A word is modelled by the set of its one
    bits: or is union, testing a mask is membership, the population count is
    the cardinality. */
module Words {
  import opened NumberTheory

  type Word = w: set<int> | forall b :: b in w ==> 0 <= b < 64

  predicate Bit(words: seq<Word>, i: nat)
    requires i / 64 < |words|
  {
    i % 64 in words[i / 64]
  }

  /** words[i / 64] |= 1 << (i % 64) */
  function SetBit(words: seq<Word>, i: nat): (r: seq<Word>)
    requires i / 64 < |words|
    ensures |r| == |words|
    ensures forall j: nat :: j / 64 < |words| ==> (Bit(r, j) <==> Bit(words, j) || i == j)
  {
    words[i / 64 := words[i / 64] + {i % 64}]
  }

  function Zeros(n: nat): (r: seq<Word>)
    ensures |r| == n && forall j: nat :: j / 64 < n ==> !Bit(r, j)
  {
    seq(n, _ => {})
  }

  /** The word-wise merge of two vectors. */
  method MergeWords(words: seq<Word>, other: seq<Word>) returns (r: seq<Word>)
    requires |words| == |other|
    ensures |r| == |words|
    ensures forall j: nat :: j / 64 < |words| ==> (Bit(r, j) <==> Bit(words, j) || Bit(other, j))
  {
    r := words;
    var i := 0;
    while i < |words|
      invariant 0 <= i <= |words| && |r| == |words|
      invariant forall j :: 0 <= j < |r| ==> r[j] == if j < i then words[j] + other[j] else words[j]
    {
      r := r[i := r[i] + other[i]];
      i := i + 1;
    }
  }

  /** Vectors with the same bits are the same vectors. */
  lemma VectorExtensional(a: seq<Word>, b: seq<Word>)
    requires |a| == |b|
    requires forall j: nat :: j / 64 < |a| ==> (Bit(a, j) <==> Bit(b, j))
    ensures a == b
  {
    forall w | 0 <= w < |a|
      ensures a[w] == b[w]
    {
      forall j | 0 <= j < 64
        ensures j in a[w] <==> j in b[w]
      {
        var i := 64 * w + j;
        assert i / 64 == w && i % 64 == j;
        assert Bit(a, i) <==> Bit(b, i);
      }
    }
  }

  // ----- population count

  /** The sum of std::popcount over the words. */
  method PopulationCount(words: seq<Word>) returns (count: nat)
    ensures count == TotalBits(words)
  {
    count := 0;
    var i := 0;
    while i < |words|
      invariant 0 <= i <= |words| && count == TotalBits(words[..i])
    {
      assert words[..i + 1][..i] == words[..i];
      count := count + |words[i]|;
      i := i + 1;
    }
    assert words[..i] == words;
  }

  function TotalBits(words: seq<Word>): nat {
    if words == [] then 0 else TotalBits(words[..|words| - 1]) + |words[|words| - 1]|
  }

  lemma {:induction false} TotalAfterUpdate(words: seq<Word>, w: nat, word: Word)
    requires w < |words|
    ensures TotalBits(words[w := word]) == TotalBits(words) - |words[w]| + |word|
    decreases |words|
  {
    var last := |words| - 1;
    var updated := words[w := word];
    if w < last {
      assert updated[..last] == words[..last][w := word];
      TotalAfterUpdate(words[..last], w, word);
    } else {
      assert updated[..last] == words[..last];
    }
  }

  /** Setting a bit raises the count by one exactly when the bit was clear. */
  lemma TotalAfterSet(words: seq<Word>, i: nat)
    requires i / 64 < |words|
    ensures TotalBits(SetBit(words, i)) == TotalBits(words) + if Bit(words, i) then 0 else 1
  {
    var w := words[i / 64];
    TotalAfterUpdate(words, i / 64, w + {i % 64});
    if Bit(words, i) {
      assert w + {i % 64} == w;
    }
  }

  lemma {:induction false} TotalOfZeros(n: nat)
    ensures TotalBits(Zeros(n)) == 0
  {
    if n > 0 {
      assert Zeros(n)[..n - 1] == Zeros(n - 1);
      TotalOfZeros(n - 1);
    }
  }
}
