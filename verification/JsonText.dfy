/** JSON strings as the checkpoints and the event log write them, and the two readers
    of the repository, neither of which knows every escape the writer uses
    (src/runtime/runtime_internal.hpp, src/discovery/native_b8_campaign.cpp). */
module JsonText {
  import opened DelimitedText
  import opened Hexadecimal
  import opened Wrappers

  // ----- writing

  predicate IsControl(c: char) {
    c < ' '
  }

  /** The control characters with a one-letter escape. */
  predicate IsShortControl(c: char) {
    c == 8 as char || c == 12 as char || c == '\n' || c == '\r' || c == '\t'
  }

  function EscapeChar(c: char): string {
    if c == '"' then "\\\""
    else if c == '\\' then "\\\\"
    else if c == 8 as char then "\\b"
    else if c == 12 as char then "\\f"
    else if c == '\n' then "\\n"
    else if c == '\r' then "\\r"
    else if c == '\t' then "\\t"
    else if IsControl(c) then "\\u00" + [HexDigit(c as int / 16), HexDigit(c as int % 16)]
    else [c]
  }

  function EscapeBody(value: string): string {
    if value == "" then "" else EscapeChar(value[0]) + EscapeBody(value[1..])
  }

  /** json_escape, from after the opening quotation mark. */
  function JsonEscape(value: string): string {
    EscapeBody(value) + "\""
  }

  /** A character that is neither escaped nor part of an escape stays away. */
  predicate NeverInEscapes(c: char) {
    c != '"' && c != '\\' && c != 'b' && c != 'f' && c != 'n' && c != 'r' && c != 't' && c != 'u' && !IsHex(c)
  }

  lemma {:induction false} EscapeWithout(value: string, c: char)
    requires NeverInEscapes(c) && (Without(value, c) || IsControl(c))
    ensures Without(EscapeBody(value), c)
  {
    if value != "" {
      EscapeWithout(value[1..], c);
    }
  }

  /** Inside an escaped text every quotation mark follows a backslash. */
  lemma {:induction false} QuoteFollowsBackslash(value: string, i: nat)
    requires i < |EscapeBody(value)| && EscapeBody(value)[i] == '"'
    ensures i > 0 && EscapeBody(value)[i - 1] == '\\'
  {
    var first := EscapeChar(value[0]);
    if i >= |first| {
      QuoteFollowsBackslash(value[1..], i - |first|);
    }
  }

  // ----- the reader of the native campaign

  function PrependChar(c: char, rest: Option<string>): Option<string> {
    match rest
    case None => None
    case Some(s) => Some([c] + s)
  }

  /** json_string_field, from after the opening quotation mark: only the escapes of the
      quotation mark and the backslash are known. */
  function JsonRead(text: string): Option<string> {
    if text == "" then None
    else if text[0] == '"' then Some("")
    else if text[0] == '\\' then
      if |text| >= 2 && (text[1] == '"' || text[1] == '\\') then PrependChar(text[1], JsonRead(text[2..])) else None
    else PrependChar(text[0], JsonRead(text[1..]))
  }

  predicate Printable(s: string) {
    forall i :: 0 <= i < |s| ==> !IsControl(s[i])
  }

  lemma ReadEscaped(c: char, rest: string)
    ensures JsonRead(EscapeChar(c) + rest) == if IsControl(c) then None else PrependChar(c, JsonRead(rest))
  {
    var text := EscapeChar(c) + rest;
    if c == '"' || c == '\\' {
      assert text[0] == '\\' && text[1] == c && text[2..] == rest;
    } else if IsControl(c) {
      assert text[0] == '\\' && text[1] == EscapeChar(c)[1];
    } else {
      assert text[0] == c && text[1..] == rest;
    }
  }

  lemma ReadEnd(rest: string)
    ensures JsonRead("\"" + rest) == Some("")
  {
  }

  /** A text survives exactly when it has no control characters: the reader refuses the
      escapes the writer uses for them. */
  lemma {:induction false} JsonRoundTrip(value: string, rest: string)
    ensures JsonRead(JsonEscape(value) + rest) == if Printable(value) then Some(value) else None
  {
    hide JsonRead, EscapeChar;
    if value == "" {
      assert JsonEscape(value) + rest == "\"" + rest;
      ReadEnd(rest);
    } else {
      JsonRoundTrip(value[1..], rest);
      ReadEscaped(value[0], JsonEscape(value[1..]) + rest);
      assert JsonEscape(value) + rest == EscapeChar(value[0]) + (JsonEscape(value[1..]) + rest);
      assert value == [value[0]] + value[1..];
      assert Printable(value) <==> !IsControl(value[0]) && Printable(value[1..]);
    }
  }

  /** A text field written to a checkpoint and read back. */
  function ReadBack(value: string): Option<string> {
    JsonRead(JsonEscape(value))
  }

  lemma ReadBackOf(value: string)
    ensures ReadBack(value) == if Printable(value) then Some(value) else None
  {
    JsonRoundTrip(value, "");
    assert JsonEscape(value) + "" == JsonEscape(value);
  }

  // ----- the reader of the checkpoint manager

  /** The position of the quotation mark that closes a string. */
  function ClosingQuote(text: string): (p: Option<nat>)
    ensures p.Some? ==> p.value < |text| && text[p.value] == '"'
  {
    if text == "" then None
    else if text[0] == '"' then Some(0)
    else
      var step := if text[0] == '\\' then 2 else 1;
      if step > |text| then None
      else match ClosingQuote(text[step..]) case None => None case Some(p) => Some(p + step)
  }

  /** The character a one-letter escape stands for. */
  function Unescaped(c: char): Option<char> {
    match c
    case '"' => Some('"')
    case '\\' => Some('\\')
    case 'b' => Some(8 as char)
    case 'f' => Some(12 as char)
    case 'n' => Some('\n')
    case 'r' => Some('\r')
    case 't' => Some('\t')
    case _ => None
  }

  /** unescape_json_string */
  function Unescape(value: string): Option<string> {
    if value == "" then Some("")
    else if value[0] != '\\' then PrependChar(value[0], Unescape(value[1..]))
    else if |value| < 2 then None
    else match Unescaped(value[1]) case None => None case Some(c) => PrependChar(c, Unescape(value[2..]))
  }

  datatype Parsed = Parsed(value: string, rest: string)

  /** parse_string, from after the opening quotation mark. */
  function ParseString(text: string): Option<Parsed> {
    match ClosingQuote(text)
    case None => None
    case Some(p) => match Unescape(text[..p]) case None => None case Some(v) => Some(Parsed(v, text[p + 1..]))
  }

  /** No control character but those with a one-letter escape. */
  predicate Reloadable(s: string) {
    forall i :: 0 <= i < |s| ==> IsControl(s[i]) ==> IsShortControl(s[i])
  }

  lemma ReloadableBoth(a: string, b: string)
    requires Reloadable(a) && Reloadable(b)
    ensures Reloadable(a + b)
  {
  }

  /** An escaped character is one other character or a backslash, a letter and digits. */
  lemma EscapeShape(c: char)
    ensures var e := EscapeChar(c); if |e| == 1 then e[0] != '"' && e[0] != '\\'
      else |e| >= 2 && e[0] == '\\' && forall i :: 2 <= i < |e| ==> e[i] != '"' && e[i] != '\\'
  {
  }

  /** Plain characters are passed over. */
  lemma {:induction false} SkipPlains(text: string, n: nat)
    requires n <= |text| && forall i :: 0 <= i < n ==> text[i] != '"' && text[i] != '\\'
    requires ClosingQuote(text[n..]).Some?
    ensures ClosingQuote(text) == Some(n + ClosingQuote(text[n..]).value)
    decreases n
  {
    hide ClosingQuote;
    if n == 0 {
      assert text[0..] == text;
    } else {
      assert text[1..][n - 1..] == text[n..];
      SkipPlains(text[1..], n - 1);
      SkipPlain(text);
    }
  }

  lemma SkipPlain(text: string)
    requires text != "" && text[0] != '"' && text[0] != '\\' && ClosingQuote(text[1..]).Some?
    ensures ClosingQuote(text) == Some(1 + ClosingQuote(text[1..]).value)
  {
  }

  lemma SkipEscape(text: string)
    requires |text| >= 2 && text[0] == '\\' && ClosingQuote(text[2..]).Some?
    ensures ClosingQuote(text) == Some(2 + ClosingQuote(text[2..]).value)
  {
  }

  lemma SkipOne(e: string, tail: string)
    requires |e| >= 1 && ClosingQuote(tail).Some?
    requires if |e| == 1 then e[0] != '"' && e[0] != '\\'
      else e[0] == '\\' && forall i :: 2 <= i < |e| ==> e[i] != '"' && e[i] != '\\'
    ensures ClosingQuote(e + tail) == Some(|e| + ClosingQuote(tail).value)
  {
    hide ClosingQuote;
    var text := e + tail;
    if |e| == 1 {
      assert text[1..] == tail;
      SkipPlains(text, 1);
    } else {
      var n := |e| - 2;
      assert text[2..][n..] == tail;
      SkipPlains(text[2..], n);
      SkipEscape(text);
    }
  }

  lemma {:induction false} ClosesBehind(value: string, rest: string)
    ensures ClosingQuote(EscapeBody(value) + ("\"" + rest)) == Some(|EscapeBody(value)|)
  {
    hide ClosingQuote, EscapeChar;
    if value == "" {
      assert EscapeBody(value) + ("\"" + rest) == "\"" + rest;
      ClosesHere(rest);
    } else {
      var first, tail := EscapeChar(value[0]), EscapeBody(value[1..]) + ("\"" + rest);
      ClosesBehind(value[1..], rest);
      EscapeShape(value[0]);
      SkipOne(first, tail);
      assert EscapeBody(value) + ("\"" + rest) == first + tail;
    }
  }

  lemma ClosesHere(rest: string)
    ensures ClosingQuote("\"" + rest) == Some(0)
  {
  }

  lemma UnescapeOne(c: char, rest: string)
    ensures Unescape(EscapeChar(c) + rest) == if IsControl(c) && !IsShortControl(c) then None
      else PrependChar(c, Unescape(rest))
  {
    var text, first := EscapeChar(c) + rest, EscapeChar(c);
    if first[0] == '\\' {
      assert text[0] == '\\' && text[1] == first[1];
      if |first| == 2 {
        assert text[2..] == rest;
      }
    } else {
      assert text[1..] == rest;
    }
  }

  lemma {:induction false} UnescapeEscaped(value: string)
    ensures Unescape(EscapeBody(value)) == if Reloadable(value) then Some(value) else None
  {
    if value != "" {
      UnescapeEscaped(value[1..]);
      UnescapeOne(value[0], EscapeBody(value[1..]));
      assert value == [value[0]] + value[1..];
      assert Reloadable(value) <==> (IsControl(value[0]) ==> IsShortControl(value[0])) && Reloadable(value[1..]);
    }
  }

  /** A text written to a checkpoint is read back exactly when it is reloadable, and
      otherwise the reader fails. */
  lemma ParseEscaped(value: string, rest: string)
    ensures ParseString(JsonEscape(value) + rest) == if Reloadable(value) then Some(Parsed(value, rest)) else None
  {
    ClosesBehind(value, rest);
    UnescapeEscaped(value);
    var text := JsonEscape(value) + rest;
    assert text == EscapeBody(value) + ("\"" + rest);
    assert text[..|EscapeBody(value)|] == EscapeBody(value) && text[|EscapeBody(value)| + 1..] == rest;
    hide ClosingQuote, Unescape, EscapeBody, Reloadable;
  }
}
