/** Lines and tab-separated fields: splitting undoes joining, and a torn append is
    cut back to whole lines (src/discovery/native_b8_campaign.cpp). */
module DelimitedText {
  import opened Decimal
  import opened Wrappers

  predicate Without(s: string, c: char) {
    forall i :: 0 <= i < |s| ==> s[i] != c
  }

  /** A field that can be written to a tab-separated line and read back. */
  predicate Clean(s: string) {
    Without(s, '\t') && Without(s, '\n')
  }

  lemma DecimalClean(n: nat)
    ensures Clean(ToDecimal(n))
  {
  }

  // ----- fields

  function Join(fields: seq<string>, c: char): string
    requires fields != []
  {
    if |fields| == 1 then fields[0] else fields[0] + ([c] + Join(fields[1..], c))
  }

  function Split(s: string, c: char): (fields: seq<string>)
    ensures fields != [] && forall i :: 0 <= i < |fields| ==> Without(fields[i], c)
    decreases |s|
  {
    var end := Find(s, c, 0);
    if end == |s| then [s] else [s[..end]] + Split(s[end + 1..], c)
  }

  lemma SplitHead(head: string, rest: string, c: char)
    requires Without(head, c)
    ensures Split(head + ([c] + rest), c) == [head] + Split(rest, c)
  {
    var s := head + ([c] + rest);
    FindUnique(s, c, 0, |head|);
    assert s[..|head|] == head && s[|head| + 1..] == rest;
  }

  lemma SplitNone(s: string, c: char)
    requires Without(s, c)
    ensures Split(s, c) == [s]
  {
  }

  /** Splitting undoes joining. */
  lemma {:induction false} SplitJoin(fields: seq<string>, c: char)
    requires fields != [] && forall i :: 0 <= i < |fields| ==> Without(fields[i], c)
    ensures Split(Join(fields, c), c) == fields
  {
    if |fields| == 1 {
      SplitNone(fields[0], c);
    } else {
      SplitJoin(fields[1..], c);
      SplitHead(fields[0], Join(fields[1..], c), c);
      assert Join(fields, c) == fields[0] + ([c] + Join(fields[1..], c));
      hide Split, Join;
      assert fields == [fields[0]] + fields[1..];
    }
  }

  lemma {:induction false} JoinWithout(fields: seq<string>, c: char, d: char)
    requires fields != [] && c != d && forall i :: 0 <= i < |fields| ==> Without(fields[i], d)
    ensures Without(Join(fields, c), d)
  {
    if |fields| > 1 {
      JoinWithout(fields[1..], c, d);
    }
  }

  /** Joining two lists of fields. */
  lemma {:induction false} JoinAppend(a: seq<string>, b: seq<string>, c: char)
    requires a != [] && b != []
    ensures Join(a + b, c) == Join(a, c) + ([c] + Join(b, c))
  {
    if |a| == 1 {
      assert (a + b)[1..] == b;
    } else {
      JoinAppend(a[1..], b, c);
      assert (a + b)[1..] == a[1..] + b && (a + b)[0] == a[0];
      JoinHead(a + b, c);
      JoinHead(a, c);
      hide Join;
      Regroup([c], Join(a[1..], c), [c] + Join(b, c));
      Regroup(a[0], [c] + Join(a[1..], c), [c] + Join(b, c));
    }
  }

  lemma JoinHead(fields: seq<string>, c: char)
    requires |fields| > 1
    ensures Join(fields, c) == fields[0] + ([c] + Join(fields[1..], c))
  {
  }

  /** Splitting behind clean fields gives them and the fields of the rest. */
  lemma {:induction false} SplitBehind(fields: seq<string>, rest: string, c: char)
    requires fields != [] && forall i :: 0 <= i < |fields| ==> Without(fields[i], c)
    ensures Split(Join(fields, c) + ([c] + rest), c) == fields + Split(rest, c)
  {
    hide Split;
    if |fields| == 1 {
      SplitHead(fields[0], rest, c);
    } else {
      SplitBehind(fields[1..], rest, c);
      JoinHead(fields, c);
      hide Join;
      SplitHead(fields[0], Join(fields[1..], c) + ([c] + rest), c);
      Regroup([c], Join(fields[1..], c), [c] + rest);
      Regroup(fields[0], [c] + Join(fields[1..], c), [c] + rest);
      assert fields == [fields[0]] + fields[1..];
    }
  }

  /** A separator in between: the fields of both sides. */
  lemma {:induction false} SplitBoth(s: string, rest: string, c: char)
    ensures Split(s + ([c] + rest), c) == Split(s, c) + Split(rest, c)
    decreases |s|
  {
    hide Split;
    if Without(s, c) {
      SplitNone(s, c);
      SplitHead(s, rest, c);
    } else {
      var end := Find(s, c, 0);
      CutAt(s, c, end);
      var head, tail := s[..end], s[end + 1..];
      hide Find, Without;
      SplitBoth(tail, rest, c);
      SplitHead(head, tail, c);
      SplitHead(head, tail + ([c] + rest), c);
      Regroup([c], tail, [c] + rest);
      Regroup(head, [c] + tail, [c] + rest);
    }
  }

  lemma CutAt(s: string, c: char, end: nat)
    requires !Without(s, c) && end == Find(s, c, 0)
    ensures end < |s| && s == s[..end] + ([c] + s[end + 1..]) && Without(s[..end], c)
  {
  }

  lemma SplitSome(s: string, c: char)
    requires !Without(s, c)
    ensures |Split(s, c)| >= 2
  {
  }

  // ----- lines

  /** The text in front of the first newline. */
  function FirstLine(s: string): (line: string)
    ensures |line| <= |s| && s[..|line|] == line && Without(line, '\n')
    ensures |line| < |s| ==> s[|line|] == '\n'
    ensures Without(s, '\n') ==> line == s
  {
    s[..Find(s, '\n', 0)]
  }

  /** In front of a text without newlines nothing is the first line's but that text. */
  lemma FirstLineBehind(a: string, b: string)
    requires Without(a, '\n')
    ensures FirstLine(a + b) == a + FirstLine(b)
  {
    var i := |a| + |FirstLine(b)|;
    assert forall j :: 0 <= j < i ==> (a + b)[j] == (a + FirstLine(b))[j];
    if i < |a + b| {
      FindUnique(a + b, '\n', 0, i);
    }
  }

  /** Every line followed by its newline. */
  function Lines(lines: seq<string>): string {
    if lines == [] then "" else lines[0] + (['\n'] + Lines(lines[1..]))
  }

  lemma Regroup(a: string, b: string, c: string)
    ensures a + (b + c) == (a + b) + c
  {
  }

  lemma {:induction false} LinesAppend(a: seq<string>, b: seq<string>)
    ensures Lines(a + b) == Lines(a) + Lines(b)
  {
    if a == [] {
      assert a + b == b;
    } else {
      var rest := a[1..];
      LinesAppend(rest, b);
      assert (a + b)[1..] == rest + b && (a + b)[0] == a[0];
      assert Lines(a + b) == a[0] + (['\n'] + Lines(rest + b)) && Lines(a) == a[0] + (['\n'] + Lines(rest));
      hide Lines;
      Regroup(['\n'], Lines(rest), Lines(b));
      Regroup(a[0], ['\n'] + Lines(rest), Lines(b));
    }
  }

  lemma LinesSnoc(lines: seq<string>, line: string)
    ensures Lines(lines + [line]) == Lines(lines) + (line + ['\n'])
  {
    LinesAppend(lines, [line]);
    assert [line][1..] == [];
    assert Lines([line]) == line + (['\n'] + Lines([]));
  }

  /** What successive std::getline calls return: a last line without newline counts when nonempty. */
  function GetLines(s: string): (lines: seq<string>)
    ensures forall i :: 0 <= i < |lines| ==> Without(lines[i], '\n')
    decreases |s|
  {
    if s == "" then []
    else
      var end := Find(s, '\n', 0);
      if end == |s| then [s] else [s[..end]] + GetLines(s[end + 1..])
  }

  lemma GetLinesHead(first: string, rest: string)
    requires Without(first, '\n')
    ensures GetLines(first + (['\n'] + rest)) == [first] + GetLines(rest)
  {
    var s := first + (['\n'] + rest);
    FindUnique(s, '\n', 0, |first|);
    assert s[..|first|] == first && s[|first| + 1..] == rest;
  }

  /** A line between whole lines and anything else is one of the lines read. */
  lemma {:induction false} LineInside(front: string, line: string, rest: string) returns (j: nat)
    requires (front == "" || front[|front| - 1] == '\n') && Without(line, '\n')
    ensures var lines := GetLines(front + (line + (['\n'] + rest))); j < |lines| && lines[j] == line
    decreases |front|
  {
    if front == "" {
      assert front + (line + (['\n'] + rest)) == line + (['\n'] + rest);
      GetLinesHead(line, rest);
      j := 0;
    } else {
      var end := Find(front, '\n', 0);
      var tail := front[end + 1..];
      assert front == front[..end] + (['\n'] + tail);
      var k := LineInside(tail, line, rest);
      Regroup(['\n'], tail, line + (['\n'] + rest));
      Regroup(front[..end], ['\n'] + tail, line + (['\n'] + rest));
      GetLinesHead(front[..end], tail + (line + (['\n'] + rest)));
      j := k + 1;
    }
  }

  /** Reading lines undoes writing them. */
  lemma {:induction false} GetLinesOf(lines: seq<string>)
    requires forall i :: 0 <= i < |lines| ==> Without(lines[i], '\n')
    ensures GetLines(Lines(lines)) == lines
  {
    if lines != [] {
      GetLinesOf(lines[1..]);
      GetLinesHead(lines[0], Lines(lines[1..]));
      assert Lines(lines) == lines[0] + (['\n'] + Lines(lines[1..]));
      hide GetLines, Lines;
      assert lines == [lines[0]] + lines[1..];
    }
  }

  /** The position after the last newline, 0 when there is none. */
  function AfterLastNewline(s: string): (n: nat)
    ensures n <= |s| && (n > 0 ==> s[n - 1] == '\n') && Without(s[n..], '\n')
  {
    if s == "" then 0
    else if s[|s| - 1] == '\n' then |s|
    else
      var n := AfterLastNewline(s[..|s| - 1]);
      assert s[n..] == s[..|s| - 1][n..] + [s[|s| - 1]];
      n
  }

  lemma AfterLastUnique(s: string, n: nat)
    requires n <= |s| && (n > 0 ==> s[n - 1] == '\n') && Without(s[n..], '\n')
    ensures AfterLastNewline(s) == n
  {
    hide AfterLastNewline;
    var m := AfterLastNewline(s);
    assert forall j :: n <= j < |s| ==> s[j] == s[n..][j - n];
    assert forall j :: m <= j < |s| ==> s[j] == s[m..][j - m];
  }

  /** discard_truncated_final_line */
  function DiscardTruncatedFinalLine(content: string): Result<string, Exception> {
    if content == "" || content[|content| - 1] == '\n' then Ok(content)
    else
      var n := AfterLastNewline(content);
      if n == 0 then Err(RuntimeError) else Ok(content[..n])
  }

  lemma {:induction false} LinesEndInNewline(lines: seq<string>)
    requires lines != []
    ensures Lines(lines) != "" && Lines(lines)[|Lines(lines)| - 1] == '\n'
  {
    if |lines| > 1 {
      LinesEndInNewline(lines[1..]);
    }
  }

  /** Whole lines and a torn one: exactly the whole lines stay. */
  lemma DiscardTorn(whole: string, torn: string)
    requires whole != "" && whole[|whole| - 1] == '\n' && Without(torn, '\n')
    ensures DiscardTruncatedFinalLine(whole + torn) == Ok(whole)
  {
    var content := whole + torn;
    if torn == "" {
      assert content == whole;
    } else {
      assert content[|whole|..] == torn && content[..|whole|] == whole;
      AfterLastUnique(content, |whole|);
    }
  }

  /** A prefix of written lines is some whole lines and the beginning of the next. */
  lemma {:induction false} PrefixOfLines(lines: seq<string>, kept: nat) returns (whole: nat, torn: string)
    requires kept <= |Lines(lines)| && forall i :: 0 <= i < |lines| ==> Without(lines[i], '\n')
    ensures whole <= |lines| && Without(torn, '\n')
    ensures Lines(lines)[..kept] == Lines(lines[..whole]) + torn
    ensures kept < |Lines(lines)| ==> whole < |lines|
  {
    if lines == [] {
      whole, torn := 0, "";
    } else {
      var text, first := Lines(lines), lines[0];
      if kept <= |first| {
        whole, torn := 0, first[..kept];
        assert text[..kept] == torn;
        assert lines[..0] == [];
      } else {
        var rest := Lines(lines[1..]);
        assert text == first + (['\n'] + rest);
        whole, torn := PrefixOfLines(lines[1..], kept - |first| - 1);
        assert lines[..whole + 1][0] == first && lines[..whole + 1][1..] == lines[1..][..whole];
        assert text[..kept] == first + (['\n'] + rest[..kept - |first| - 1]);
        whole := whole + 1;
      }
    }
  }

  // ----- the order of std::string

  predicate Less(a: string, b: string) {
    if b == "" then false
    else if a == "" then true
    else if a[0] != b[0] then a[0] < b[0]
    else Less(a[1..], b[1..])
  }

  lemma {:induction false} LessTotal(a: string, b: string)
    ensures Less(a, b) || a == b || Less(b, a)
  {
    if a != "" && b != "" && a[0] == b[0] {
      LessTotal(a[1..], b[1..]);
      assert a == [a[0]] + a[1..] && b == [b[0]] + b[1..];
    }
  }

  lemma {:induction false} LessAsymmetric(a: string, b: string)
    ensures !(Less(a, b) && Less(b, a))
  {
    if a != "" && b != "" && a[0] == b[0] {
      LessAsymmetric(a[1..], b[1..]);
    }
  }
}
