/** The canonical text of family expressions determines their meaning, although
    operands are sorted and differences become sums (src/family/family.cpp). */
module FamilyText {
  import opened NumberTheory
  import opened Decimal
  import opened DelimitedText
  import opened BigDecimal
  import opened Eliminations
  import opened Progressions
  import opened FamilyExpressions
  import opened Wrappers

  /** canonical_expression */
  function CanonicalExpression(e: Expression): string {
    match e
    case Constant(v) => "C(" + (SignedDecimal(v) + ")")
    case Param(name) => "P(" + (name + ")")
    case Negate(x) => "N(" + (CanonicalExpression(x) + ")")
    case Subtract(l, r) => SortedPair("A(", CanonicalExpression(l), "N(" + (CanonicalExpression(r) + ")"))
    case Add(l, r) => SortedPair("A(", CanonicalExpression(l), CanonicalExpression(r))
    case Multiply(l, r) => SortedPair("M(", CanonicalExpression(l), CanonicalExpression(r))
    case Power(b, x) => Pair("W(", CanonicalExpression(b), CanonicalExpression(x))
  }

  function Pair(head: string, first: string, second: string): string {
    head + (first + ("," + (second + ")")))
  }

  /** The two texts in the order of std::string. */
  function SortedPair(head: string, first: string, second: string): string {
    if Less(second, first) then Pair(head, second, first) else Pair(head, first, second)
  }

  // ----- the normal form a text stands for

  datatype Normal =
    | NConstant(value: int)
    | NParam(name: string)
    | NNegate(operand: Normal)
    | NAdd(first: Normal, second: Normal)
    | NMultiply(first: Normal, second: Normal)
    | NPower(first: Normal, second: Normal)

  function NormalText(t: Normal): string {
    match t
    case NConstant(v) => "C(" + (SignedDecimal(v) + ")")
    case NParam(name) => "P(" + (name + ")")
    case NNegate(x) => "N(" + (NormalText(x) + ")")
    case NAdd(l, r) => Pair("A(", NormalText(l), NormalText(r))
    case NMultiply(l, r) => Pair("M(", NormalText(l), NormalText(r))
    case NPower(l, r) => Pair("W(", NormalText(l), NormalText(r))
  }

  function Normalized(e: Expression): Normal {
    match e
    case Constant(v) => NConstant(v)
    case Param(name) => NParam(name)
    case Negate(x) => NNegate(Normalized(x))
    case Subtract(l, r) =>
      var (a, b) := (Normalized(l), NNegate(Normalized(r)));
      if Less(NormalText(b), NormalText(a)) then NAdd(b, a) else NAdd(a, b)
    case Add(l, r) =>
      var (a, b) := (Normalized(l), Normalized(r));
      if Less(NormalText(b), NormalText(a)) then NAdd(b, a) else NAdd(a, b)
    case Multiply(l, r) =>
      var (a, b) := (Normalized(l), Normalized(r));
      if Less(NormalText(b), NormalText(a)) then NMultiply(b, a) else NMultiply(a, b)
    case Power(b, x) => NPower(Normalized(b), Normalized(x))
  }

  /** The canonical text is the text of the normal form. */
  lemma {:induction false} TextOfNormal(e: Expression)
    ensures CanonicalExpression(e) == NormalText(Normalized(e))
  {
    hide Less, Pair, SignedDecimal;
    match e
    case Constant(_) =>
    case Param(_) =>
    case Negate(x) =>
      TextOfNormal(x);
    case Subtract(l, r) =>
      TextOfNormal(l);
      TextOfNormal(r);
    case Add(l, r) =>
      TextOfNormal(l);
      TextOfNormal(r);
    case Multiply(l, r) =>
      TextOfNormal(l);
      TextOfNormal(r);
    case Power(b, x) =>
      TextOfNormal(b);
      TextOfNormal(x);
  }

  /** Names are identifiers of the lexer, in particular without parentheses and commas. */
  predicate IdentifierChar(c: char) {
    'A' <= c <= 'Z' || 'a' <= c <= 'z' || '0' <= c <= '9' || c == '_' || c == '.'
  }

  predicate Identifier(s: string) {
    forall i :: 0 <= i < |s| ==> IdentifierChar(s[i])
  }

  ghost predicate Named(t: Normal) {
    match t
    case NConstant(_) => true
    case NParam(name) => Identifier(name)
    case NNegate(x) => Named(x)
    case NAdd(l, r) => Named(l) && Named(r)
    case NMultiply(l, r) => Named(l) && Named(r)
    case NPower(l, r) => Named(l) && Named(r)
  }

  // ----- unique decoding

  function Kind(t: Normal): char {
    match t
    case NConstant(_) => 'C'
    case NParam(_) => 'P'
    case NNegate(_) => 'N'
    case NAdd(_, _) => 'A'
    case NMultiply(_, _) => 'M'
    case NPower(_, _) => 'W'
  }

  /** The text after its two-character head. */
  function BodyText(t: Normal): string {
    match t
    case NConstant(v) => SignedDecimal(v) + ")"
    case NParam(name) => name + ")"
    case NNegate(x) => NormalText(x) + ")"
    case NAdd(l, r) => NormalText(l) + ("," + (NormalText(r) + ")"))
    case NMultiply(l, r) => NormalText(l) + ("," + (NormalText(r) + ")"))
    case NPower(l, r) => NormalText(l) + ("," + (NormalText(r) + ")"))
  }

  lemma TextParts(t: Normal)
    ensures NormalText(t) == [Kind(t), '('] + BodyText(t)
  {
  }

  lemma HeadsAgree(s: Normal, u: string, t: Normal, v: string)
    requires NormalText(s) + u == NormalText(t) + v
    ensures Kind(s) == Kind(t) && BodyText(s) + u == BodyText(t) + v
  {
    TextParts(s);
    TextParts(t);
    hide NormalText, BodyText;
    var whole := NormalText(s) + u;
    assert whole[0] == Kind(s) && whole[0] == Kind(t);
    assert whole[2..] == BodyText(s) + u && whole[2..] == BodyText(t) + v;
  }

  lemma LeafAgrees(a: string, u: string, b: string, v: string)
    requires Without(a, ')') && Without(b, ')') && (a + ")") + u == (b + ")") + v
    ensures a == b && u == v
  {
    var whole := (a + ")") + u;
    FindUnique(whole, ')', 0, |a|);
    assert whole == (b + ")") + v;
    FindUnique(whole, ')', 0, |b|);
    assert a == whole[..|a|] && b == whole[..|b|];
    assert u == whole[|a| + 1..] && v == whole[|b| + 1..];
  }

  lemma DecimalHasNoParen(v: int)
    ensures Without(SignedDecimal(v), ')')
  {
  }

  lemma Reassociate(x: string, y: string, z: string)
    ensures (x + y) + z == x + (y + z)
  {
  }

  lemma PairRegroup(l: string, r: string, u: string)
    ensures (l + ("," + (r + ")"))) + u == l + (("," + (r + ")")) + u)
    ensures (("," + (r + ")")) + u)[1..] == r + (")" + u)
  {
    Reassociate(l, "," + (r + ")"), u);
    assert (("," + (r + ")")) + u)[1..] == (r + ")") + u;
    Reassociate(r, ")", u);
  }

  lemma FirstDrops(u: string, v: string)
    requires ")" + u == ")" + v
    ensures u == v
  {
    assert (")" + u)[1..] == u && (")" + v)[1..] == v;
  }

  /** Two texts with the same concatenation are the same text with the same rest. */
  lemma {:induction false} Decodes(s: Normal, u: string, t: Normal, v: string)
    requires Named(s) && Named(t) && NormalText(s) + u == NormalText(t) + v
    ensures s == t && u == v
    decreases s
  {
    HeadsAgree(s, u, t, v);
    match s
    case NConstant(x) =>
      DecimalHasNoParen(x);
      DecimalHasNoParen(t.value);
      LeafAgrees(SignedDecimal(x), u, SignedDecimal(t.value), v);
      PrintedIsCanonical(x);
      PrintedIsCanonical(t.value);
    case NParam(name) =>
      LeafAgrees(name, u, t.name, v);
    case NNegate(x) =>
      Reassociate(NormalText(x), ")", u);
      Reassociate(NormalText(t.operand), ")", v);
      Decodes(x, ")" + u, t.operand, ")" + v);
      FirstDrops(u, v);
    case NAdd(l, r) =>
      DecodesPair(s, l, r, u, t, t.first, t.second, v);
    case NMultiply(l, r) =>
      DecodesPair(s, l, r, u, t, t.first, t.second, v);
    case NPower(l, r) =>
      DecodesPair(s, l, r, u, t, t.first, t.second, v);
  }

  lemma {:induction false} DecodesPair(s: Normal, l: Normal, r: Normal, u: string, t: Normal, l': Normal, r': Normal,
                                       v: string)
    requires l < s && r < s && Named(l) && Named(r) && Named(l') && Named(r')
    requires (NormalText(l) + ("," + (NormalText(r) + ")"))) + u ==
      (NormalText(l') + ("," + (NormalText(r') + ")"))) + v
    ensures l == l' && r == r' && u == v
    decreases s, 0
  {
    hide NormalText, Named;
    PairRegroup(NormalText(l), NormalText(r), u);
    PairRegroup(NormalText(l'), NormalText(r'), v);
    Decodes(l, ("," + (NormalText(r) + ")")) + u, l', ("," + (NormalText(r') + ")")) + v);
    Decodes(r, ")" + u, r', ")" + v);
    FirstDrops(u, v);
  }

  // ----- meaning

  /** Every name of the expression is an identifier. */
  ghost predicate NamesAreIdentifiers(e: Expression) {
    match e
    case Constant(_) => true
    case Param(name) => Identifier(name)
    case Negate(x) => NamesAreIdentifiers(x)
    case Add(l, r) => NamesAreIdentifiers(l) && NamesAreIdentifiers(r)
    case Subtract(l, r) => NamesAreIdentifiers(l) && NamesAreIdentifiers(r)
    case Multiply(l, r) => NamesAreIdentifiers(l) && NamesAreIdentifiers(r)
    case Power(b, x) => NamesAreIdentifiers(b) && NamesAreIdentifiers(x)
  }

  lemma {:induction false} NormalizedIsNamed(e: Expression)
    requires NamesAreIdentifiers(e)
    ensures Named(Normalized(e))
  {
    hide Less, NormalText;
    match e
    case Constant(_) =>
    case Param(_) =>
    case Negate(x) =>
      NormalizedIsNamed(x);
    case Subtract(l, r) =>
      NormalizedIsNamed(l);
      NormalizedIsNamed(r);
    case Add(l, r) =>
      NormalizedIsNamed(l);
      NormalizedIsNamed(r);
    case Multiply(l, r) =>
      NormalizedIsNamed(l);
      NormalizedIsNamed(r);
    case Power(b, x) =>
      NormalizedIsNamed(b);
      NormalizedIsNamed(x);
  }

  /** The value of a normal form; an absent name counts as zero. */
  ghost function NormalValue(t: Normal, a: Assignment): int {
    match t
    case NConstant(v) => v
    case NParam(name) => if name in a then a[name] else 0
    case NNegate(x) => -NormalValue(x, a)
    case NAdd(l, r) => NormalValue(l, a) + NormalValue(r, a)
    case NMultiply(l, r) => NormalValue(l, a) * NormalValue(r, a)
    case NPower(l, r) => Pow(NormalValue(l, a), Magnitude(NormalValue(r, a)))
  }

  /** Sorting operands and rewriting differences keep the value. */
  lemma {:induction false} NormalKeepsValue(e: Expression, a: Assignment)
    requires Evaluable(e, a)
    ensures NormalValue(Normalized(e), a) == Exact(e, a)
  {
    hide Less, NormalText;
    match e
    case Constant(_) =>
    case Param(_) =>
    case Negate(x) =>
      NormalKeepsValue(x, a);
    case Subtract(l, r) =>
      NormalKeepsValue(l, a);
      NormalKeepsValue(r, a);
    case Add(l, r) =>
      NormalKeepsValue(l, a);
      NormalKeepsValue(r, a);
    case Multiply(l, r) =>
      NormalKeepsValue(l, a);
      NormalKeepsValue(r, a);
      assert Exact(l, a) * Exact(r, a) == Exact(r, a) * Exact(l, a);
    case Power(b, x) =>
      NormalKeepsValue(b, a);
      NormalKeepsValue(x, a);
  }

  /** Equal canonical texts mean equal values under every assignment in range. */
  lemma TextDeterminesMeaning(e: Expression, f: Expression, parameters: Parameters, allowed: set<string>, a: Assignment)
    requires Valid(e, parameters, allowed) && Valid(f, parameters, allowed) && InRange(a, parameters)
    requires NamesAreIdentifiers(e) && NamesAreIdentifiers(f)
    requires CanonicalExpression(e) == CanonicalExpression(f)
    ensures Evaluable(e, a) && Evaluable(f, a) && Exact(e, a) == Exact(f, a)
  {
    ValidIsEvaluable(e, parameters, allowed, a);
    ValidIsEvaluable(f, parameters, allowed, a);
    NormalizedIsNamed(e);
    NormalizedIsNamed(f);
    TextOfNormal(e);
    TextOfNormal(f);
    Decodes(Normalized(e), "", Normalized(f), "");
    NormalKeepsValue(e, a);
    NormalKeepsValue(f, a);
  }

  /** The text does not depend on the order of commuting operands, nor on writing a
      difference as a sum. */
  lemma CommutedTexts(l: Expression, r: Expression)
    ensures CanonicalExpression(Add(l, r)) == CanonicalExpression(Add(r, l))
    ensures CanonicalExpression(Multiply(l, r)) == CanonicalExpression(Multiply(r, l))
    ensures CanonicalExpression(Subtract(l, r)) == CanonicalExpression(Add(l, Negate(r)))
  {
    LessTotal(CanonicalExpression(l), CanonicalExpression(r));
    LessAsymmetric(CanonicalExpression(l), CanonicalExpression(r));
    hide Less, Pair;
  }
}
