/** Substring search in the manner of std::string_view. */
module TextSearch {
  import opened Wrappers

  predicate OccursAt(s: string, t: string, p: nat) {
    p + |t| <= |s| && s[p..p + |t|] == t
  }

  /** find: the first occurrence at or after a position. */
  function FindText(s: string, t: string, from: nat): (r: Option<nat>)
    ensures r.Some? ==> from <= r.value && OccursAt(s, t, r.value)
    ensures r.Some? ==> forall q: nat :: from <= q < r.value ==> !OccursAt(s, t, q)
    ensures r.None? ==> forall q: nat :: from <= q ==> !OccursAt(s, t, q)
    decreases |s| - from
  {
    if from + |t| > |s| then None else if OccursAt(s, t, from) then Some(from) else FindText(s, t, from + 1)
  }

  lemma OccursChar(s: string, t: string, p: nat, i: nat)
    requires i < |t|
    ensures OccursAt(s, t, p) ==> p + |t| <= |s| && s[p + i] == t[i]
  {
    assert OccursAt(s, t, p) ==> s[p..p + |t|][i] == t[i];
  }

  lemma FirstIsFound(s: string, t: string, p: nat)
    requires OccursAt(s, t, p) && forall q: nat :: q < p ==> !OccursAt(s, t, q)
    ensures FindText(s, t, 0) == Some(p)
  {
  }

  /** rfind: the last occurrence at or before a position. */
  function FindLast(s: string, t: string, last: nat): (r: Option<nat>)
    ensures r.Some? ==> r.value <= last && OccursAt(s, t, r.value)
    ensures r.Some? ==> forall q: nat :: r.value < q <= last ==> !OccursAt(s, t, q)
    ensures r.None? ==> forall q: nat :: q <= last ==> !OccursAt(s, t, q)
  {
    if OccursAt(s, t, last) then Some(last) else if last == 0 then None else FindLast(s, t, last - 1)
  }

  predicate StartsWith(s: string, t: string) {
    |t| <= |s| && s[..|t|] == t
  }

  predicate EndsWith(s: string, t: string) {
    |t| <= |s| && s[|s| - |t|..] == t
  }

  lemma OccursInFrontOf(a: string, b: string)
    ensures StartsWith(a + b, a) && (a + b)[|a|..] == b
  {
    assert (a + b)[..|a|] == a;
  }

  lemma EndsBehind(a: string, b: string, t: string)
    requires EndsWith(b, t)
    ensures EndsWith(a + b, t)
  {
  }

  /** A text is found right behind a piece in which it cannot begin. */
  lemma FoundBehind(head: string, t: string, rest: string)
    requires t != "" && forall i :: 0 <= i < |head| ==> head[i] != t[0]
    ensures FindText(head + (t + rest), t, 0) == Some(|head|)
  {
    var s := head + (t + rest);
    assert s[|head|..|head| + |t|] == t;
    assert OccursAt(s, t, |head|);
    forall q: nat | q < |head|
      ensures !OccursAt(s, t, q)
    {
      assert s[q] == head[q];
      assert q + |t| <= |s| ==> s[q..q + |t|][0] == s[q];
    }
  }
}
