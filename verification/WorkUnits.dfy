/** Work units: splitting a domain and verifying that units cover it exactly
    (src/work/work_unit.cpp). */
module WorkUnits {
  import opened MachineArithmetic
  import opened DelimitedText
  import opened Hexadecimal
  import opened Wrappers

  datatype Interval = Interval(begin: u64, end: u64) {
    predicate Contains(p: int) {
      begin <= p < end
    }
  }

  datatype SieveBounds = SieveBounds(minimumPrime: u64, maximumPrime: u64)

  datatype WorkUnit = WorkUnit(
    workUnitId: string, familyId: string, canonicalDefinitionSha256: string, interval: Interval,
    residueCompilerVersion: string, sieveBounds: SieveBounds, constraints: seq<string>,
    proofPolicy: string, seed: Option<u64>)
  {
    /** The unit as it is hashed: everything but the identifier. */
    function WithoutId(): WorkUnit {
      this.(workUnitId := "")
    }
  }

  /** The SHA-256 identifier of a unit's canonical text: an unknown function of its content. */
  type Digest = WorkUnit -> string

  // ----- field checks

  predicate Ascii(s: string) {
    forall i :: 0 <= i < |s| ==> (s[i] as int) < 0x80
  }

  predicate SortedUnique(s: seq<string>) {
    forall i :: 0 <= i < |s| - 1 ==> Less(s[i], s[i + 1])
  }

  /** validate_unit_fields */
  predicate ValidFields(u: WorkUnit) {
    && u.familyId != "" && Ascii(u.familyId) && Ascii(u.residueCompilerVersion) && Ascii(u.proofPolicy)
    && u.interval.begin < u.interval.end && CanonicalDigest(u.canonicalDefinitionSha256)
    && u.sieveBounds.minimumPrime <= u.sieveBounds.maximumPrime
    && SortedUnique(u.constraints) && forall i :: 0 <= i < |u.constraints| ==> Ascii(u.constraints[i])
  }

  function InsertText(x: string, s: seq<string>): (r: seq<string>)
    requires SortedUnique(s)
    ensures SortedUnique(r) && r != [] && (r[0] == x || (s != [] && r[0] == s[0]))
    ensures forall y :: y in r <==> y == x || y in s
  {
    if s == [] then [x]
    else if Less(x, s[0]) then [x] + s
    else if x == s[0] then s
    else
      LessTotal(x, s[0]);
      assert forall y :: y in s <==> y == s[0] || y in s[1..];
      [s[0]] + InsertText(x, s[1..])
  }

  /** std::sort and std::unique on the constraints. */
  function SortConstraints(s: seq<string>): (r: seq<string>)
    ensures SortedUnique(r) && forall y :: y in r <==> y in s
  {
    if s == [] then [] else
      assert forall y :: y in s <==> y == s[0] || y in s[1..];
      InsertText(s[0], SortConstraints(s[1..]))
  }

  /** finalize_work_unit */
  function FinalizeWorkUnit(digest: Digest, u: WorkUnit): Result<WorkUnit, Exception> {
    var sorted := u.(constraints := SortConstraints(u.constraints), workUnitId := "");
    if ValidFields(sorted) then Ok(sorted.(workUnitId := digest(sorted))) else Err(InvalidArgument)
  }

  // ----- partition

  function PieceEnd(cursor: u64, end: u64, span: u64): (r: u64)
    requires cursor < end && span > 0
    ensures cursor < r <= end && r - cursor <= span
  {
    cursor + if span < end - cursor then span else end - cursor
  }

  /** The consecutive pieces of a domain, all but the last of the full span. */
  function Pieces(begin: u64, end: u64, span: u64): seq<Interval>
    requires begin <= end && span > 0
    decreases end - begin
  {
    if begin == end then [] else
      [Interval(begin, PieceEnd(begin, end, span))] + Pieces(PieceEnd(begin, end, span), end, span)
  }

  /** The units of these pieces, all finalized from one prototype. */
  ghost predicate UnitsOf(digest: Digest, prototype: WorkUnit, pieces: seq<Interval>, units: seq<WorkUnit>) {
    |units| == |pieces| && forall i :: 0 <= i < |units| ==>
      FinalizeWorkUnit(digest, prototype.(interval := pieces[i])) == Ok(units[i])
  }

  /** The prototype's fields pass for any nonempty interval. */
  predicate ValidPrototype(u: WorkUnit) {
    ValidFields(u.(constraints := SortConstraints(u.constraints), workUnitId := "", interval := Interval(0, 1)))
  }

  lemma FinalizeSucceeds(digest: Digest, prototype: WorkUnit, interval: Interval)
    requires interval.begin < interval.end
    ensures FinalizeWorkUnit(digest, prototype.(interval := interval)).Ok? <==> ValidPrototype(prototype)
    ensures var r := FinalizeWorkUnit(digest, prototype.(interval := interval)); r.Err? ==> r.error == InvalidArgument
  {
  }

  lemma NoUnits(digest: Digest, prototype: WorkUnit)
    ensures UnitsOf(digest, prototype, [], [])
  {
  }

  lemma OneMoreUnit(digest: Digest, prototype: WorkUnit, pieces: seq<Interval>, units: seq<WorkUnit>, piece: Interval,
                    unit: WorkUnit)
    requires UnitsOf(digest, prototype, pieces, units)
      && FinalizeWorkUnit(digest, prototype.(interval := piece)) == Ok(unit)
    ensures UnitsOf(digest, prototype, pieces + [piece], units + [unit])
  {
    hide FinalizeWorkUnit;
  }

  lemma FirstPiece(cursor: u64, end: u64, span: u64, done: seq<Interval>)
    requires cursor < end && span > 0
    ensures var next := PieceEnd(cursor, end, span);
      done + Pieces(cursor, end, span) == (done + [Interval(cursor, next)]) + Pieces(next, end, span)
  {
    hide PieceEnd;
  }

  /** partition_work_units: the pieces of the domain, in order. */
  method PartitionWorkUnits(digest: Digest, prototype: WorkUnit, begin: u64, end: u64, maximumSpan: u64)
    returns (r: Result<seq<WorkUnit>, Exception>)
    ensures r.Err? <==> begin > end || maximumSpan == 0 || (begin < end && !ValidPrototype(prototype))
    ensures r.Err? ==> r.error == InvalidArgument
    ensures r.Ok? ==> UnitsOf(digest, prototype, Pieces(begin, end, maximumSpan), r.value)
  {
    hide FinalizeWorkUnit, ValidPrototype, UnitsOf, PieceEnd;
    NoUnits(digest, prototype);
    if begin > end {
      return Err(InvalidArgument);
    }
    if maximumSpan == 0 {
      return Err(InvalidArgument);
    }
    var units := [];
    ghost var done: seq<Interval> := [];
    var cursor: u64 := begin;
    while cursor < end
      invariant begin <= cursor <= end && (cursor > begin ==> ValidPrototype(prototype))
      invariant UnitsOf(digest, prototype, done, units)
      invariant Pieces(begin, end, maximumSpan) == done + Pieces(cursor, end, maximumSpan)
      decreases end - cursor
    {
      var next := PieceEnd(cursor, end, maximumSpan);
      var piece := Interval(cursor, next);
      FinalizeSucceeds(digest, prototype, piece);
      var unit := FinalizeWorkUnit(digest, prototype.(interval := piece));
      if unit.Err? {
        return Err(unit.error);
      }
      OneMoreUnit(digest, prototype, done, units, piece, unit.value);
      FirstPiece(cursor, end, maximumSpan, done);
      units := units + [unit.value];
      done := done + [piece];
      cursor := next;
    }
    assert done + [] == done;
    return Ok(units);
  }

  // ----- exact cover

  /** How many of the intervals contain a point. */
  function Count(intervals: seq<Interval>, p: int): nat {
    if intervals == [] then 0 else Count(intervals[1..], p) + if intervals[0].Contains(p) then 1 else 0
  }

  ghost predicate AllNonempty(intervals: seq<Interval>) {
    forall i :: 0 <= i < |intervals| ==> intervals[i].begin < intervals[i].end
  }

  /** Each point of [begin, end) lies in exactly one interval, and none outside lies in any. */
  ghost predicate ExactCover(begin: int, end: int, intervals: seq<Interval>) {
    AllNonempty(intervals) && forall p: int :: Count(intervals, p) == if begin <= p < end then 1 else 0
  }

  predicate Precedes(a: Interval, b: Interval) {
    a.begin < b.begin || (a.begin == b.begin && a.end <= b.end)
  }

  predicate Ordered(s: seq<Interval>) {
    forall i, j :: 0 <= i < j < |s| ==> Precedes(s[i], s[j])
  }

  function InsertInterval(x: Interval, s: seq<Interval>): (r: seq<Interval>)
    requires Ordered(s)
    ensures Ordered(r) && forall y :: y in r <==> y == x || y in s
  {
    if s == [] then [x]
    else if Precedes(x, s[0]) then [x] + s
    else
      var t := InsertInterval(x, s[1..]);
      assert forall y :: y in s <==> y == s[0] || y in s[1..];
      assert forall i :: 0 <= i < |t| ==> t[i] in t;
      [s[0]] + t
  }

  /** std::sort by begin, then end. */
  function SortIntervals(s: seq<Interval>): (r: seq<Interval>)
    ensures Ordered(r) && forall y :: y in r <==> y in s
  {
    if s == [] then [] else
      assert forall y :: y in s <==> y == s[0] || y in s[1..];
      InsertInterval(s[0], SortIntervals(s[1..]))
  }

  lemma {:induction false} CountInsert(x: Interval, s: seq<Interval>, p: int)
    requires Ordered(s)
    ensures Count(InsertInterval(x, s), p) == Count(s, p) + if x.Contains(p) then 1 else 0
  {
    if s != [] {
      if Precedes(x, s[0]) {
        assert ([x] + s)[1..] == s;
      } else {
        CountInsert(x, s[1..], p);
        assert ([s[0]] + InsertInterval(x, s[1..]))[1..] == InsertInterval(x, s[1..]);
      }
    }
  }

  /** Sorting changes no count, so the verdict does not depend on the input order. */
  lemma {:induction false} CountSort(s: seq<Interval>, p: int)
    ensures Count(SortIntervals(s), p) == Count(s, p)
  {
    if s != [] {
      CountSort(s[1..], p);
      CountInsert(s[0], SortIntervals(s[1..]), p);
    }
  }

  lemma SortCovers(begin: int, end: int, s: seq<Interval>)
    ensures ExactCover(begin, end, SortIntervals(s)) <==> ExactCover(begin, end, s)
  {
    var t := SortIntervals(s);
    forall p: int
      ensures Count(t, p) == Count(s, p)
    {
      CountSort(s, p);
    }
    assert forall i :: 0 <= i < |s| ==> s[i] in t;
    assert forall i :: 0 <= i < |t| ==> t[i] in s;
  }

  /** Intervals that meet from a cursor to the end. */
  ghost predicate Chained(s: seq<Interval>, cursor: int, end: int) {
    if s == [] then cursor == end
    else s[0].begin == cursor && s[0].begin < s[0].end && Chained(s[1..], s[0].end, end)
  }

  lemma {:induction false} CountBelow(s: seq<Interval>, p: int)
    requires forall i :: 0 <= i < |s| ==> p < s[i].begin
    ensures Count(s, p) == 0
  {
    if s != [] {
      CountBelow(s[1..], p);
    }
  }

  lemma {:induction false} ChainCounts(s: seq<Interval>, cursor: int, end: int, p: int)
    requires Chained(s, cursor, end)
    ensures cursor <= end && Count(s, p) == if cursor <= p < end then 1 else 0
  {
    if s != [] {
      ChainCounts(s[1..], s[0].end, end, p);
    }
  }

  lemma {:induction false} ChainNonempty(s: seq<Interval>, cursor: int, end: int)
    requires Chained(s, cursor, end)
    ensures AllNonempty(s)
  {
    if s != [] {
      ChainNonempty(s[1..], s[0].end, end);
    }
  }

  /** In a sorted exact cover the first interval begins at the cursor and ends inside. */
  lemma FirstMeets(s: seq<Interval>, cursor: int, end: int)
    requires s != [] && Ordered(s) && cursor <= end && ExactCover(cursor, end, s)
    ensures s[0].begin == cursor && s[0].end <= end && ExactCover(s[0].end, end, s[1..]) && Ordered(s[1..])
  {
    var first := s[0];
    assert first.begin < first.end;
    assert Count(s, first.begin) >= 1 && Count(s, first.end - 1) >= 1;
    assert Count(s, cursor) == if cursor <= cursor < end then 1 else 0;
    if cursor < first.begin {
      forall i | 0 <= i < |s|
        ensures cursor < s[i].begin
      {
        assert i > 0 ==> Precedes(s[0], s[i]);
      }
      CountBelow(s, cursor);
    }
    forall p: int
      ensures Count(s[1..], p) == if first.end <= p < end then 1 else 0
    {
      assert Count(s, p) == Count(s[1..], p) + if first.Contains(p) then 1 else 0;
    }
  }

  lemma {:induction false} CoverChains(s: seq<Interval>, cursor: int, end: int)
    requires Ordered(s) && cursor <= end && ExactCover(cursor, end, s)
    ensures Chained(s, cursor, end)
  {
    if s == [] {
      assert Count(s, cursor) == if cursor <= cursor < end then 1 else 0;
    } else {
      FirstMeets(s, cursor, end);
      CoverChains(s[1..], s[0].end, end);
    }
  }

  /** A sorted list meets end to end exactly when it is an exact cover. */
  lemma ChainIffCover(s: seq<Interval>, begin: int, end: int)
    requires Ordered(s) && begin <= end
    ensures Chained(s, begin, end) <==> ExactCover(begin, end, s)
  {
    if Chained(s, begin, end) {
      ChainNonempty(s, begin, end);
      forall p: int
        ensures Count(s, p) == if begin <= p < end then 1 else 0
      {
        ChainCounts(s, begin, end, p);
      }
    }
    if ExactCover(begin, end, s) {
      CoverChains(s, begin, end);
    }
  }

  // ----- coverage

  datatype CoverageError =
    | ExpectedDomainReversed
    | DuplicateId(index: nat) | ContentHashMismatch(index: nat) | InvalidUnit(index: nat)
    | FamilyMismatch(index: nat) | DefinitionMismatch(index: nat)
    | GapBefore(at: u64) | OverlapAt(at: u64) | EmptyOrReversedInterval(index: nat)
    | NoUnitsForNonemptyDomain | TrailingGapFrom(at: u64) | DomainOverrunTo(at: u64)
  {
    predicate AboutIntervals() {
      GapBefore? || OverlapAt? || EmptyOrReversedInterval? || NoUnitsForNonemptyDomain? || TrailingGapFrom?
        || DomainOverrunTo?
    }
  }

  ghost predicate AllAboutIntervals(errors: seq<CoverageError>) {
    forall i :: 0 <= i < |errors| ==> errors[i].AboutIntervals()
  }

  ghost predicate NoneAboutIntervals(errors: seq<CoverageError>) {
    forall i :: 0 <= i < |errors| ==> !errors[i].AboutIntervals()
  }

  /** The sweep over the sorted intervals: it finds no error exactly when they meet end to end. */
  method Sweep(begin: u64, end: u64, ordered: seq<Interval>) returns (errors: seq<CoverageError>)
    ensures errors == [] <==> Chained(ordered, begin, end)
    ensures AllAboutIntervals(errors)
  {
    errors := [];
    var cursor: u64 := begin;
    var index := 0;
    while index < |ordered|
      invariant 0 <= index <= |ordered| && AllAboutIntervals(errors)
      invariant errors == [] ==> (Chained(ordered, begin, end) <==> Chained(ordered[index..], cursor, end))
      invariant errors != [] ==> !Chained(ordered, begin, end)
    {
      var interval := ordered[index];
      assert ordered[index..][0] == interval && ordered[index..][1..] == ordered[index + 1..];
      if interval.begin > cursor {
        errors := errors + [GapBefore(interval.begin)];
      } else if interval.begin < cursor {
        errors := errors + [OverlapAt(interval.begin)];
      }
      if interval.end <= interval.begin {
        errors := errors + [EmptyOrReversedInterval(index)];
      } else {
        cursor := if cursor < interval.end then interval.end else cursor;
      }
      index := index + 1;
    }
    if ordered == [] && begin != end {
      errors := errors + [NoUnitsForNonemptyDomain];
    } else if cursor < end {
      errors := errors + [TrailingGapFrom(cursor)];
    } else if cursor > end {
      errors := errors + [DomainOverrunTo(cursor)];
    }
  }

  function Intervals(units: seq<WorkUnit>): (s: seq<Interval>)
    ensures |s| == |units|
  {
    seq(|units|, i requires 0 <= i < |units| => units[i].interval)
  }

  /** The unit's identifier is the digest of its valid content. */
  ghost predicate Authentic(digest: Digest, u: WorkUnit) {
    ValidFields(u) && digest(u.WithoutId()) == u.workUnitId
  }

  ghost predicate SameOrigin(u: WorkUnit, first: WorkUnit) {
    u.familyId == first.familyId && u.canonicalDefinitionSha256 == first.canonicalDefinitionSha256
  }

  ghost predicate IdentitiesAgree(digest: Digest, units: seq<WorkUnit>) {
    && (forall i :: 0 <= i < |units| ==> Authentic(digest, units[i]) && SameOrigin(units[i], units[0]))
    && (forall i, j :: 0 <= i < j < |units| ==> units[i].workUnitId != units[j].workUnitId)
  }

  /** The checks on one unit's content and origin. */
  method CheckUnit(digest: Digest, unit: WorkUnit, first: WorkUnit, index: nat) returns (errors: seq<CoverageError>)
    ensures errors == [] <==> Authentic(digest, unit) && SameOrigin(unit, first)
    ensures NoneAboutIntervals(errors)
  {
    errors := [];
    if !ValidFields(unit) {
      errors := errors + [InvalidUnit(index)];
    } else if digest(unit.WithoutId()) != unit.workUnitId {
      errors := errors + [ContentHashMismatch(index)];
    }
    if unit.familyId != first.familyId {
      errors := errors + [FamilyMismatch(index)];
    }
    if unit.canonicalDefinitionSha256 != first.canonicalDefinitionSha256 {
      errors := errors + [DefinitionMismatch(index)];
    }
  }

  method CheckIdentities(digest: Digest, units: seq<WorkUnit>) returns (errors: seq<CoverageError>)
    ensures errors == [] <==> IdentitiesAgree(digest, units)
    ensures NoneAboutIntervals(errors)
  {
    hide Authentic, SameOrigin, IdentitiesAgree;
    errors := [];
    assert units[..0] == [];
    NoneAgree(digest);
    var identifiers: set<string> := {};
    var index := 0;
    while index < |units|
      invariant 0 <= index <= |units| && NoneAboutIntervals(errors)
      invariant forall id :: id in identifiers <==> exists i :: 0 <= i < index && units[i].workUnitId == id
      invariant errors == [] <==> IdentitiesAgree(digest, units[..index])
    {
      var unit := units[index];
      ghost var before := units[..index];
      assert units[..index + 1] == before + [unit];
      AgreeStep(digest, before, unit);
      if unit.workUnitId in identifiers {
        errors := errors + [DuplicateId(index)];
      }
      identifiers := identifiers + {unit.workUnitId};
      var more := CheckUnit(digest, unit, units[0], index);
      errors := errors + more;
      index := index + 1;
    }
    assert units[..index] == units;
  }

  lemma NoneAgree(digest: Digest)
    ensures IdentitiesAgree(digest, [])
  {
  }

  lemma AgreeStep(digest: Digest, before: seq<WorkUnit>, unit: WorkUnit)
    ensures IdentitiesAgree(digest, before + [unit]) <==>
      IdentitiesAgree(digest, before) && Authentic(digest, unit) && SameOrigin(unit, (before + [unit])[0])
      && forall i :: 0 <= i < |before| ==> before[i].workUnitId != unit.workUnitId
  {
    var after := before + [unit];
    assert after[|before|] == unit && forall i :: 0 <= i < |before| ==> after[i] == before[i];
    hide Authentic, SameOrigin;
  }

  /** verify_coverage: no interval error exactly when the intervals cover the domain
      exactly, in whatever order the units are given; valid exactly when the
      identities agree as well. */
  method VerifyCoverage(digest: Digest, begin: u64, end: u64, units: seq<WorkUnit>) returns (errors: seq<CoverageError>)
    ensures begin > end ==> errors == [ExpectedDomainReversed]
    ensures begin <= end ==> (NoneAboutIntervals(errors) <==> ExactCover(begin, end, Intervals(units)))
    ensures errors == [] <==> begin <= end && IdentitiesAgree(digest, units) && ExactCover(begin, end, Intervals(units))
  {
    if begin > end {
      return [ExpectedDomainReversed];
    }
    var identityErrors := CheckIdentities(digest, units);
    var intervalErrors := Sweep(begin, end, SortIntervals(Intervals(units)));
    SortCovers(begin, end, Intervals(units));
    ChainIffCover(SortIntervals(Intervals(units)), begin, end);
    errors := identityErrors + intervalErrors;
    assert intervalErrors != [] ==> errors[|identityErrors|] == intervalErrors[0];
  }

  // ----- every partition is accepted

  lemma {:induction false} PiecesChain(begin: u64, end: u64, span: u64)
    requires begin <= end && span > 0
    ensures Chained(Pieces(begin, end, span), begin, end)
    decreases end - begin
  {
    if begin < end {
      PiecesChain(PieceEnd(begin, end, span), end, span);
    }
  }

  /** Intervals in the order of their beginnings, none in front of this one. */
  ghost predicate Ascend(s: seq<Interval>, begin: int) {
    (forall i :: 0 <= i < |s| ==> begin <= s[i].begin) && forall i, j :: 0 <= i < j < |s| ==> s[i].begin < s[j].begin
  }

  lemma AscendCons(x: Interval, rest: seq<Interval>)
    requires x.begin < x.end && Ascend(rest, x.end)
    ensures Ascend([x] + rest, x.begin)
  {
  }

  lemma {:induction false} PiecesAscend(begin: u64, end: u64, span: u64)
    requires begin <= end && span > 0
    ensures Ascend(Pieces(begin, end, span), begin)
    decreases end - begin
  {
    if begin < end {
      var next := PieceEnd(begin, end, span);
      PiecesAscend(next, end, span);
      AscendCons(Interval(begin, next), Pieces(next, end, span));
    }
  }

  /** Different contents have different digests, as far as these units are concerned. */
  ghost predicate CollisionFree(digest: Digest, units: seq<WorkUnit>) {
    forall i, j :: 0 <= i < j < |units| && units[i].WithoutId() != units[j].WithoutId() ==>
      digest(units[i].WithoutId()) != digest(units[j].WithoutId())
  }

  lemma FinalizedUnit(digest: Digest, prototype: WorkUnit, interval: Interval, u: WorkUnit)
    requires FinalizeWorkUnit(digest, prototype.(interval := interval)) == Ok(u)
    ensures u.interval == interval && Authentic(digest, u)
    ensures u.familyId == prototype.familyId && u.canonicalDefinitionSha256 == prototype.canonicalDefinitionSha256
  {
    assert u.WithoutId() == u.(workUnitId := "");
  }

  /** Every output of a partition passes the coverage verification. */
  lemma PartitionAccepted(digest: Digest, prototype: WorkUnit, begin: u64, end: u64, span: u64, units: seq<WorkUnit>)
    requires begin <= end && span > 0 && UnitsOf(digest, prototype, Pieces(begin, end, span), units)
    requires CollisionFree(digest, units)
    ensures IdentitiesAgree(digest, units) && ExactCover(begin, end, Intervals(units))
  {
    var pieces := Pieces(begin, end, span);
    PiecesChain(begin, end, span);
    PiecesAscend(begin, end, span);
    forall i | 0 <= i < |units|
      ensures units[i].interval == pieces[i] && Authentic(digest, units[i]) && SameOrigin(units[i], units[0])
    {
      FinalizedUnit(digest, prototype, pieces[i], units[i]);
      FinalizedUnit(digest, prototype, pieces[0], units[0]);
    }
    hide ValidFields, SameOrigin, Pieces, FinalizeWorkUnit;
    forall i, j | 0 <= i < j < |units|
      ensures units[i].workUnitId != units[j].workUnitId
    {
      assert pieces[i].begin < pieces[j].begin && units[i].interval == pieces[i] && units[j].interval == pieces[j];
      assert units[i].WithoutId().interval != units[j].WithoutId().interval;
      assert Authentic(digest, units[i]) && Authentic(digest, units[j]);
    }
    assert Intervals(units) == pieces;
    ChainNonempty(pieces, begin, end);
    forall p: int
      ensures Count(pieces, p) == if begin <= p < end then 1 else 0
    {
      ChainCounts(pieces, begin, end, p);
    }
  }
}
