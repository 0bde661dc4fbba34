/** One-line JSON objects as the search writes them, and why a substring search for a
    quoted key and value finds exactly the member it means
    (src/mvp/search_pipeline.cpp). */
module JsonLines {
  import opened TextSearch
  import opened Wrappers

  // ----- keys and values

  predicate IsPlain(c: char) {
    'a' <= c <= 'z' || '0' <= c <= '9' || c == '_'
  }

  predicate AllPlain(s: string) {
    forall i :: 0 <= i < |s| ==> IsPlain(s[i])
  }

  predicate NoQuote(s: string) {
    forall i :: 0 <= i < |s| ==> s[i] != '"'
  }

  /** Text that quote_json writes unchanged. */
  predicate Bare(s: string) {
    forall i :: 0 <= i < |s| ==> s[i] != '"' && s[i] != '\\'
  }

  /** What quote_json accepts. */
  predicate Quotable(s: string) {
    forall i :: 0 <= i < |s| ==> ' ' <= s[i] <= '~'
  }

  /** No control character, so neither line feed nor carriage return. */
  predicate Unbroken(s: string) {
    forall i :: 0 <= i < |s| ==> s[i] >= ' '
  }

  function EscapeChar(c: char): (s: string)
    ensures s != "" && s[0] != '"'
  {
    if c == '"' || c == '\\' then ['\\', c] else [c]
  }

  function Escape(s: string): string {
    if s == "" then "" else EscapeChar(s[0]) + Escape(s[1..])
  }

  lemma {:induction false} EscapeBare(s: string)
    requires Bare(s)
    ensures Escape(s) == s
  {
    if s != "" {
      EscapeBare(s[1..]);
      assert s == [s[0]] + s[1..];
    }
  }

  lemma {:induction false} EscapeQuotable(s: string)
    requires Quotable(s)
    ensures Quotable(Escape(s))
  {
    if s != "" {
      EscapeQuotable(s[1..]);
    }
  }

  /** Opens is the opening brace of a nested object, whose members follow. */
  datatype Value = Null | Quoted(text: string) | Opens

  function Null4(): string { "null" }

  function ValueText(v: Value): string {
    match v
    case Null => Null4()
    case Quoted(text) => ['"'] + (Escape(text) + ['"'])
    case Opens => "{"
  }

  /** A key, its value and the punctuation behind it. */
  datatype Member = Member(key: string, value: Value, after: string)

  /** Behind a value comes a comma or a closing brace, behind an opening brace nothing. */
  ghost predicate WellFormed(m: Member) {
    && m.key != "" && NoQuote(m.key) && NoQuote(m.after)
    && (m.value.Opens? ==> m.after == "") && (!m.value.Opens? ==> Stops(m.after))
  }

  predicate Stops(s: string) {
    s != "" && (s[0] == ',' || s[0] == '}')
  }

  function KeyPattern(key: string): string {
    ['"'] + (key + ['"', ':'])
  }

  function MemberText(m: Member): string {
    KeyPattern(m.key) + (ValueText(m.value) + m.after)
  }

  function MembersText(ms: seq<Member>): string {
    if ms == [] then "" else MemberText(ms[0]) + MembersText(ms[1..])
  }

  ghost predicate AllWellFormed(ms: seq<Member>) {
    forall i :: 0 <= i < |ms| ==> WellFormed(ms[i])
  }

  // ----- where a key pattern can occur

  lemma OccursBehind(a: string, b: string, t: string, p: nat)
    requires p >= |a|
    ensures OccursAt(a + b, t, p) <==> OccursAt(b, t, p - |a|)
  {
    if p + |t| <= |a + b| {
      assert (a + b)[p..p + |t|] == b[p - |a|..p - |a| + |t|];
    }
  }

  /** What a text that occurs somewhere continues with after its first character. */
  lemma OccursTail(c: char, s: string, d: char, t: string)
    ensures OccursAt([c] + s, [d] + t, 0) <==> c == d && OccursAt(s, t, 0)
  {
    var left, right := [c] + s, [d] + t;
    if |t| <= |s| {
      assert left[0..|right|] == [c] + s[0..|t|];
      assert s[0..|t|] == left[0..|right|][1..] && t == right[1..];
    }
  }

  /** Behind the opening quotation mark of a value there is no key. */
  lemma {:induction false} NoKeyInValue(s: string, key: string, rest: string)
    requires AllPlain(key) && Stops(rest)
    ensures !OccursAt(Escape(s) + (['"'] + rest), key + ['"', ':'], 0)
    decreases |s|
  {
    var text, pattern := Escape(s) + (['"'] + rest), key + ['"', ':'];
    if s == "" {
      assert text == ['"'] + rest;
      if key == "" {
        OccursChar(text, pattern, 0, 1);
      } else {
        OccursChar(text, pattern, 0, 0);
      }
    } else {
      assert text == EscapeChar(s[0]) + (Escape(s[1..]) + (['"'] + rest));
      if key == "" || s[0] == '"' || s[0] == '\\' {
        OccursChar(text, pattern, 0, 0);
      } else {
        NoKeyInValue(s[1..], key[1..], rest);
        assert pattern == [key[0]] + (key[1..] + ['"', ':']);
        OccursTail(s[0], Escape(s[1..]) + (['"'] + rest), key[0], key[1..] + ['"', ':']);
      }
    }
  }

  /** Inside a quoted value and at its closing quotation mark no key pattern begins. */
  lemma {:induction false} NoPatternInValue(s: string, key: string, rest: string, p: nat)
    requires key != "" && AllPlain(key) && Stops(rest) && p <= |Escape(s)|
    ensures !OccursAt(Escape(s) + (['"'] + rest), KeyPattern(key), p)
    decreases |s|
  {
    var text, pattern := Escape(s) + (['"'] + rest), KeyPattern(key);
    if s == "" {
      assert text == ['"'] + rest;
      OccursChar(text, pattern, 0, 1);
    } else {
      var head, tail := EscapeChar(s[0]), Escape(s[1..]) + (['"'] + rest);
      assert text == head + tail;
      if p == 0 {
        OccursChar(text, pattern, 0, 0);
      } else if p < |head| {
        if s[0] == '"' {
          NoKeyInValue(s[1..], key, rest);
          OccursTail('"', tail, '"', key + ['"', ':']);
          OccursBehind(['\\'], ['"'] + tail, pattern, 1);
          assert text == ['\\'] + (['"'] + tail);
        } else {
          OccursChar(text, pattern, p, 0);
        }
      } else {
        NoPatternInValue(s[1..], key, rest, p - |head|);
        OccursBehind(head, tail, pattern, p);
      }
    }
  }

  lemma NoPatternWithoutQuote(s: string, rest: string, key: string, p: nat)
    requires NoQuote(s) && p < |s|
    ensures !OccursAt(s + rest, KeyPattern(key), p)
  {
    OccursChar(s + rest, KeyPattern(key), p, 0);
  }

  /** Within a value and the punctuation behind it no key pattern begins. */
  lemma NoPatternInMember(m: Member, rest: string, key: string, p: nat)
    requires WellFormed(m) && key != "" && AllPlain(key) && p < |ValueText(m.value) + m.after|
    ensures !OccursAt((ValueText(m.value) + m.after) + rest, KeyPattern(key), p)
  {
    hide KeyPattern, Escape, OccursAt, Stops;
    var v := ValueText(m.value);
    match m.value
    case Null =>
      assert NoQuote(v + m.after);
      NoPatternWithoutQuote(v + m.after, rest, key, p);
    case Opens =>
      assert NoQuote(v + m.after);
      NoPatternWithoutQuote(v + m.after, rest, key, p);
    case Quoted(s) =>
      var behind := m.after + rest;
      assert Stops(behind) by {
        StopsAppend(m.after, rest);
      }
      assert (v + m.after) + rest == ['"'] + (Escape(s) + (['"'] + behind));
      if p == 0 {
        NoKeyInValue(s, key, behind);
        OccursTail('"', Escape(s) + (['"'] + behind), '"', key + ['"', ':']);
        assert KeyPattern(key) == ['"'] + (key + ['"', ':']) by {
          PatternIs(key);
        }
      } else if p <= |Escape(s)| + 1 {
        NoPatternInValue(s, key, behind, p - 1);
        OccursBehind(['"'], Escape(s) + (['"'] + behind), KeyPattern(key), p);
      } else {
        assert (v + m.after) + rest == v + behind;
        OccursBehind(v, behind, KeyPattern(key), p);
        NoPatternWithoutQuote(m.after, rest, key, p - |v|);
      }
  }

  lemma StopsAppend(a: string, b: string)
    requires Stops(a)
    ensures Stops(a + b)
  {
  }

  lemma PatternIs(key: string)
    ensures KeyPattern(key) == ['"'] + (key + ['"', ':'])
  {
  }

  /** Two key patterns at the same place are the same. */
  lemma {:induction false} SameKey(a: string, b: string, rest: string)
    requires NoQuote(a) && NoQuote(b) && OccursAt(a + (['"', ':'] + rest), b + ['"', ':'], 0)
    ensures a == b
  {
    var text, pattern := a + (['"', ':'] + rest), b + ['"', ':'];
    if a == "" || b == "" {
      OccursChar(text, pattern, 0, 0);
    } else {
      assert text == [a[0]] + (a[1..] + (['"', ':'] + rest)) && pattern == [b[0]] + (b[1..] + ['"', ':']);
      OccursTail(a[0], a[1..] + (['"', ':'] + rest), b[0], b[1..] + ['"', ':']);
      SameKey(a[1..], b[1..], rest);
      assert a == [a[0]] + a[1..] && b == [b[0]] + b[1..];
    }
  }

  /** In a member's own key pattern only that pattern begins. */
  lemma PatternInKey(key: string, rest: string, other: string, p: nat)
    requires key != "" && NoQuote(key) && other != "" && AllPlain(other) && p < |KeyPattern(key)|
    ensures OccursAt(KeyPattern(key) + rest, KeyPattern(other), p) <==> p == 0 && key == other
  {
    var text := KeyPattern(key) + rest;
    if p == 0 {
      assert text == ['"'] + (key + (['"', ':'] + rest));
      OccursTail('"', key + (['"', ':'] + rest), '"', other + ['"', ':']);
      if key == other {
        assert text[0..|KeyPattern(key)|] == KeyPattern(key);
      } else if OccursAt(text, KeyPattern(other), 0) {
        SameKey(key, other, rest);
      }
    } else {
      OccursChar(text, KeyPattern(other), p, 0);
      OccursChar(text, KeyPattern(other), p, 1);
      assert p == |key| + 1 ==> text[p + 1] == ':';
    }
  }

  // ----- where a key stands

  function KeyPosition(ms: seq<Member>, j: nat): nat
    requires j <= |ms|
  {
    if j == 0 then 0 else |MemberText(ms[0])| + KeyPosition(ms[1..], j - 1)
  }

  /** A key pattern begins exactly where a member with that key does. */
  lemma {:induction false} KeyOccurs(ms: seq<Member>, key: string, p: nat) returns (j: nat)
    requires AllWellFormed(ms) && key != "" && AllPlain(key) && OccursAt(MembersText(ms), KeyPattern(key), p)
    ensures j < |ms| && ms[j].key == key && p == KeyPosition(ms, j)
    decreases |ms|
  {
    hide KeyPattern, OccursAt, AllPlain, ValueText;
    j := 0;
    if ms == [] {
      EmptyHasNone(key, p);
    } else {
      var m, tail := ms[0], MembersText(ms[1..]);
      var value := ValueText(m.value) + m.after;
      assert WellFormed(m);
      var pattern := KeyPattern(m.key);
      assert MembersText(ms) == pattern + (value + tail) && MembersText(ms) == MemberText(m) + tail;
      if p < |pattern| {
        PatternInKey(m.key, value + tail, key, p);
      } else if p < |pattern| + |value| {
        OccursBehind(pattern, value + tail, KeyPattern(key), p);
        NoPatternInMember(m, tail, key, p - |pattern|);
      } else {
        OccursBehind(MemberText(m), tail, KeyPattern(key), p);
        j := KeyOccurs(ms[1..], key, p - |MemberText(m)|);
        j := j + 1;
      }
    }
  }

  lemma EmptyHasNone(key: string, p: nat)
    ensures !OccursAt("", KeyPattern(key), p)
  {
  }

  /** What stands at a member's place. */
  lemma {:induction false} MemberAt(ms: seq<Member>, j: nat) returns (rest: string)
    requires j < |ms|
    ensures KeyPosition(ms, j) <= |MembersText(ms)| && MembersText(ms)[KeyPosition(ms, j)..] == MemberText(ms[j]) + rest
    ensures j + 1 < |ms| ==> KeyPosition(ms, j + 1) == KeyPosition(ms, j) + |MemberText(ms[j])|
  {
    hide MemberText;
    if j == 0 {
      rest := MembersText(ms[1..]);
      assert MembersText(ms)[0..] == MembersText(ms);
      assert KeyPosition(ms[1..], 0) == 0;
    } else {
      rest := MemberAt(ms[1..], j - 1);
      var n := KeyPosition(ms[1..], j - 1);
      assert MembersText(ms)[|MemberText(ms[0])| + n..] == MembersText(ms[1..])[n..];
    }
  }

  lemma {:induction false} PositionsGrow(ms: seq<Member>, i: nat, j: nat)
    requires i < j < |ms|
    ensures KeyPosition(ms, i) + |MemberText(ms[i])| <= KeyPosition(ms, j)
  {
    hide MemberText;
    if i > 0 {
      PositionsGrow(ms[1..], i - 1, j - 1);
    }
  }

  // ----- searching for a key with a value

  /** What is searched for behind a key: null, any quoted text, or one quoted text. */
  datatype Sought = IsNull | IsQuoted | Is(text: string)

  function SoughtText(v: Sought): string {
    match v
    case IsNull => Null4()
    case IsQuoted => ['"']
    case Is(text) => ['"'] + (Escape(text) + ['"'])
  }

  predicate Fits(v: Value, sought: Sought) {
    match sought
    case IsNull => v.Null?
    case IsQuoted => v.Quoted?
    case Is(text) => v == Quoted(text)
  }

  lemma SameHead(head: string, a: string, b: string)
    ensures OccursAt(head + a, head + b, 0) <==> OccursAt(a, b, 0)
  {
    hide OccursAt;
    OccursSplit(head + a, head, b, 0);
    OccursBehind(head, a, b, |head|);
    OccursInFront(head, a);
  }

  /** A written value begins with an escaped text and a quotation mark only if it is that text. */
  lemma {:induction false} EscapedValue(s: string, t: string, rest: string)
    ensures OccursAt(Escape(s) + (['"'] + rest), Escape(t) + ['"'], 0) <==> s == t
    decreases |s|
  {
    hide OccursAt;
    var text, pattern := Escape(s) + (['"'] + rest), Escape(t) + ['"'];
    if s == "" && t == "" {
      assert text == ['"'] + rest && pattern == ['"'];
      OccursInFront(['"'], rest);
    } else if s == "" || t == "" {
      OccursChar(text, pattern, 0, 0);
    } else {
      var head, tail := EscapeChar(s[0]), Escape(s[1..]) + (['"'] + rest);
      assert text == head + tail && pattern == EscapeChar(t[0]) + (Escape(t[1..]) + ['"']);
      assert s == [s[0]] + s[1..] && t == [t[0]] + t[1..];
      if s[0] == t[0] {
        EscapedValue(s[1..], t[1..], rest);
        SameHead(head, tail, Escape(t[1..]) + ['"']);
      } else {
        OccursChar(text, pattern, 0, 0);
        OccursChar(text, pattern, 0, 1);
      }
    }
  }

  lemma ValueFits(v: Value, sought: Sought, rest: string)
    ensures OccursAt(ValueText(v) + rest, SoughtText(sought), 0) <==> Fits(v, sought)
  {
    hide OccursAt, Escape;
    if v.Quoted? && sought.Is? {
      QuotedFits(v.text, sought.text, rest);
    } else if v.Null? && sought.IsNull? {
      OccursInFront(Null4(), rest);
    } else if v.Quoted? && sought.IsQuoted? {
      assert ValueText(v) + rest == ['"'] + (Escape(v.text) + ['"'] + rest);
      OccursInFront(['"'], Escape(v.text) + ['"'] + rest);
    } else {
      assert (ValueText(v) + rest)[0] != SoughtText(sought)[0];
      OccursChar(ValueText(v) + rest, SoughtText(sought), 0, 0);
    }
  }

  lemma QuotedFits(s: string, t: string, rest: string)
    ensures OccursAt(ValueText(Quoted(s)) + rest, SoughtText(Is(t)), 0) <==> s == t
  {
    hide Escape, OccursAt;
    EscapedValue(s, t, rest);
    assert ValueText(Quoted(s)) + rest == ['"'] + (Escape(s) + (['"'] + rest));
    OccursTail('"', Escape(s) + (['"'] + rest), '"', Escape(t) + ['"']);
  }

  lemma OccursInFront(a: string, b: string)
    ensures OccursAt(a + b, a, 0)
  {
    assert (a + b)[0..|a|] == a;
  }

  /** The text that is searched for. */
  function Marker(key: string, sought: Sought): (s: string)
    ensures s != "" && s[0] == '"'
  {
    KeyPattern(key) + SoughtText(sought)
  }

  ghost predicate Hit(ms: seq<Member>, key: string, sought: Sought, j: nat) {
    j < |ms| && ms[j].key == key && Fits(ms[j].value, sought)
  }

  /** A whole line: an opening brace and the members, the last of which closes it. */
  function LineText(ms: seq<Member>): string {
    ['{'] + MembersText(ms)
  }

  function LinePosition(ms: seq<Member>, j: nat): nat
    requires j <= |ms|
  {
    1 + KeyPosition(ms, j)
  }

  lemma OccursSplit(s: string, a: string, b: string, p: nat)
    ensures OccursAt(s, a + b, p) <==> OccursAt(s, a, p) && OccursAt(s, b, p + |a|)
  {
    if p + |a| + |b| <= |s| {
      var x, y := s[p..p + |a|], s[p + |a|..p + |a| + |b|];
      assert s[p..p + |a + b|] == x + y;
      assert (x + y)[..|a|] == x && (x + y)[|a|..] == y && (a + b)[..|a|] == a && (a + b)[|a|..] == b;
    }
  }

  lemma OccursSuffix(s: string, t: string, p: nat)
    requires p <= |s|
    ensures OccursAt(s, t, p) <==> OccursAt(s[p..], t, 0)
  {
    assert s == s[..p] + s[p..];
    OccursBehind(s[..p], s[p..], t, p);
  }

  /** At a member's place its own key is found with exactly the values that fit it. */
  lemma MarkerAtMember(ms: seq<Member>, sought: Sought, j: nat)
    requires AllWellFormed(ms) && j < |ms|
    ensures OccursAt(MembersText(ms), Marker(ms[j].key, sought), KeyPosition(ms, j)) <==> Fits(ms[j].value, sought)
  {
    hide KeyPattern, OccursAt, AllPlain, ValueText, MembersText, KeyPosition, SoughtText, MemberText, WellFormed;
    var m := ms[j];
    var rest := MemberAt(ms, j);
    MemberSplit(m, rest);
    ValueFits(m.value, sought, m.after + rest);
    var p, pattern := KeyPosition(ms, j), KeyPattern(m.key);
    var value := ValueText(m.value) + (m.after + rest);
    OccursSuffix(MembersText(ms), Marker(m.key, sought), p);
    OccursSplit(pattern + value, pattern, SoughtText(sought), 0);
    OccursBehind(pattern, value, SoughtText(sought), |pattern|);
    OccursInFront(pattern, value);
  }

  lemma MemberSplit(m: Member, rest: string)
    ensures MemberText(m) + rest == KeyPattern(m.key) + (ValueText(m.value) + (m.after + rest))
  {
    hide KeyPattern, ValueText;
  }

  /** A search finds a key with a value only where a member has it. */
  lemma MarkerOccurs(ms: seq<Member>, key: string, sought: Sought, p: nat) returns (j: nat)
    requires AllWellFormed(ms) && key != "" && AllPlain(key)
    requires OccursAt(LineText(ms), Marker(key, sought), p)
    ensures Hit(ms, key, sought, j) && p == LinePosition(ms, j)
  {
    hide KeyPattern, AllPlain, ValueText, MembersText, KeyPosition, SoughtText, AllWellFormed;
    OccursChar(LineText(ms), Marker(key, sought), p, 0);
    hide OccursAt;
    OccursBehind(['{'], MembersText(ms), Marker(key, sought), p);
    OccursSplit(MembersText(ms), KeyPattern(key), SoughtText(sought), p - 1);
    j := KeyOccurs(ms, key, p - 1);
    MarkerAtMember(ms, sought, j);
  }

  lemma MarkerOccursAt(ms: seq<Member>, key: string, sought: Sought, j: nat)
    requires AllWellFormed(ms) && Hit(ms, key, sought, j)
    ensures OccursAt(LineText(ms), Marker(key, sought), LinePosition(ms, j))
  {
    hide KeyPattern, AllPlain, ValueText, MembersText, KeyPosition, SoughtText, AllWellFormed, OccursAt;
    MarkerAtMember(ms, sought, j);
    OccursBehind(['{'], MembersText(ms), Marker(key, sought), LinePosition(ms, j));
  }

  /** A line contains a key with a value exactly when one of its members has it, whatever
      the quoted texts say. */
  lemma Contained(ms: seq<Member>, key: string, sought: Sought)
    requires AllWellFormed(ms) && key != "" && AllPlain(key)
    ensures FindText(LineText(ms), Marker(key, sought), 0).Some? <==> exists j: nat :: Hit(ms, key, sought, j)
  {
    hide LineText, Marker, AllPlain, AllWellFormed;
    var found := FindText(LineText(ms), Marker(key, sought), 0);
    if found.Some? {
      var j := MarkerOccurs(ms, key, sought, found.value);
    }
    if j: nat :| Hit(ms, key, sought, j) {
      MarkerOccursAt(ms, key, sought, j);
    }
  }

  ghost predicate OnlyHit(ms: seq<Member>, key: string, sought: Sought, j: nat) {
    Hit(ms, key, sought, j) && forall i: nat :: Hit(ms, key, sought, i) ==> i == j
  }

  /** A single member is found from both sides, and only once. */
  lemma FoundOnly(ms: seq<Member>, key: string, sought: Sought, j: nat, other: nat)
    requires AllWellFormed(ms) && key != "" && AllPlain(key) && OnlyHit(ms, key, sought, j)
    ensures var s, t, p := LineText(ms), Marker(key, sought), LinePosition(ms, j);
      FindText(s, t, 0) == Some(p) && (other > p ==> FindText(s, t, other) == None)
      && (other >= p ==> FindLast(s, t, other) == Some(p))
  {
    MarkerOccursAt(ms, key, sought, j);
    hide LineText, Marker, AllPlain, AllWellFormed, LinePosition;
    var s, t, p := LineText(ms), Marker(key, sought), LinePosition(ms, j);
    forall q: nat | OccursAt(s, t, q)
      ensures q == p
    {
      var i := MarkerOccurs(ms, key, sought, q);
    }
  }

  /** What follows the opening quotation mark of a bare quoted value. */
  lemma QuotedAt(ms: seq<Member>, j: nat) returns (rest: string)
    requires AllWellFormed(ms) && j < |ms| && ms[j].value.Quoted? && Bare(ms[j].value.text)
    ensures var begin := LinePosition(ms, j) + |KeyPattern(ms[j].key)| + 1;
      begin <= |LineText(ms)| && LineText(ms)[begin..] == ms[j].value.text + (['"'] + rest)
      && begin + |ms[j].value.text| + 1 <= LinePosition(ms, j) + |MemberText(ms[j])|
  {
    hide KeyPattern, Escape, MembersText, KeyPosition, MemberText;
    var m := ms[j];
    var rest0 := MemberAt(ms, j);
    rest := m.after + rest0;
    QuotedSplit(m, rest0);
    DropAhead(MembersText(ms), KeyPosition(ms, j), KeyPattern(m.key) + ['"'], m.value.text + (['"'] + rest));
  }

  lemma QuotedSplit(m: Member, rest: string)
    requires m.value.Quoted? && Bare(m.value.text)
    ensures MemberText(m) + rest == (KeyPattern(m.key) + ['"']) + (m.value.text + (['"'] + (m.after + rest)))
    ensures |MemberText(m)| >= |KeyPattern(m.key)| + 1 + |m.value.text| + 1
  {
    EscapeBare(m.value.text);
    hide KeyPattern, Escape;
  }

  lemma DropAhead(s: string, p: nat, a: string, b: string)
    requires p <= |s| && s[p..] == a + b
    ensures 1 + p + |a| <= |['{'] + s| && (['{'] + s)[1 + p + |a|..] == b
  {
    assert (['{'] + s)[1 + p + |a|..] == s[p..][|a|..];
  }

  // ----- a line has no line break

  ghost predicate MemberQuotable(m: Member) {
    Unbroken(m.key) && Unbroken(m.after) && (m.value.Quoted? ==> Quotable(m.value.text))
  }

  ghost predicate AllQuotable(ms: seq<Member>) {
    forall i :: 0 <= i < |ms| ==> MemberQuotable(ms[i])
  }

  lemma UnbrokenAppend(a: string, b: string)
    requires Unbroken(a) && Unbroken(b)
    ensures Unbroken(a + b)
  {
  }

  lemma MemberUnbroken(m: Member)
    requires MemberQuotable(m)
    ensures Unbroken(MemberText(m))
  {
    if m.value.Quoted? {
      EscapeQuotable(m.value.text);
      assert Unbroken(Escape(m.value.text));
    }
    assert Unbroken(['"', ':']) && Unbroken(['"']) && Unbroken(Null4()) && Unbroken("{");
    hide Unbroken, Escape;
    UnbrokenAppend(m.key, ['"', ':']);
    UnbrokenAppend(['"'], m.key + ['"', ':']);
    match m.value {
      case Null =>
      case Opens =>
      case Quoted(text) =>
        UnbrokenAppend(Escape(text), ['"']);
        UnbrokenAppend(['"'], Escape(text) + ['"']);
    }
    UnbrokenAppend(ValueText(m.value), m.after);
    UnbrokenAppend(KeyPattern(m.key), ValueText(m.value) + m.after);
  }

  lemma {:induction false} MembersUnbroken(ms: seq<Member>)
    requires AllQuotable(ms)
    ensures Unbroken(MembersText(ms))
  {
    hide MemberQuotable, MemberText;
    if ms != [] {
      MembersUnbroken(ms[1..]);
      MemberUnbroken(ms[0]);
      hide Unbroken;
      UnbrokenAppend(MemberText(ms[0]), MembersText(ms[1..]));
    }
  }

  /** A line of printable members has no line break. */
  lemma LineUnbroken(ms: seq<Member>)
    requires AllQuotable(ms)
    ensures Unbroken(LineText(ms))
  {
    MembersUnbroken(ms);
  }
}
