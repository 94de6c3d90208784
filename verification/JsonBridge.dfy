/** Escaping a string for a JSON message, and scanning a string field out of one */
module JsonBridge {
  import opened Outcomes
  import opened Strings

  // ----- escaping

  function HexDigit(n: nat): char
    requires n < 16
  {
    "0123456789abcdef"[n]
  }

  function EscapeChar(c: char): string {
    if c == '\\' then "\\\\"
    else if c == '"' then "\\\""
    else if c == '\U{8}' then "\\b"
    else if c == '\U{C}' then "\\f"
    else if c == '\n' then "\\n"
    else if c == '\r' then "\\r"
    else if c == '\t' then "\\t"
    else if c < ' ' then "\\u00" + [HexDigit(c as int / 16), HexDigit(c as int % 16)]
    else [c]
  }

  function Escaped(value: string): string {
    if value == "" then "" else EscapeChar(value[0]) + Escaped(value[1..])
  }

  method JsonEscapeUtf8(value: string) returns (out: string)
    ensures out == Escaped(value)
  {
    hide HexDigit, Escaped;
    out := "";
    EscapedPrefixes(value, 0);
    for k := 0 to |value|
      invariant out == Escaped(value[..k])
    {
      EscapedPrefixes(value, k);
      var c := value[k];
      match c
      case '\\' => out := out + "\\\\";
      case '"' => out := out + "\\\"";
      case '\U{8}' => out := out + "\\b";
      case '\U{C}' => out := out + "\\f";
      case '\n' => out := out + "\\n";
      case '\r' => out := out + "\\r";
      case '\t' => out := out + "\\t";
      case _ =>
        if c < ' ' {
          out := out + "\\u00" + [HexDigit(c as int / 16), HexDigit(c as int % 16)];
        } else {
          out := out + [c];
        }
    }
  }

  lemma EscapedPrefixes(value: string, k: nat)
    requires k <= |value|
    ensures Escaped(value[..0]) == "" && Escaped(value[..|value|]) == Escaped(value)
    ensures k < |value| ==> Escaped(value[..k + 1]) == Escaped(value[..k]) + EscapeChar(value[k])
  {
    hide EscapeChar, Escaped;
    NothingEscaped();
    assert value[..|value|] == value;
    if k < |value| {
      assert value[..k + 1] == value[..k] + [value[k]];
      EscapedAppend(value[..k], [value[k]]);
      EscapedOne(value[k]);
    }
  }

  lemma NothingEscaped()
    ensures Escaped("") == ""
  {}

  lemma EscapedOne(c: char)
    ensures Escaped([c]) == EscapeChar(c)
  {
    hide EscapeChar;
    assert [c][1..] == "";
  }

  lemma {:induction false} EscapedAppend(a: string, b: string)
    ensures Escaped(a + b) == Escaped(a) + Escaped(b)
  {
    hide EscapeChar;
    if a == "" {
      assert a + b == b;
    } else {
      assert (a + b)[1..] == a[1..] + b;
      EscapedAppend(a[1..], b);
    }
  }

  // ----- scanning

  /** The value up to the closing quote, and what follows that quote */
  datatype Scanned = Scanned(value: string, rest: string)

  function Unescape(c: char): char {
    match c
    case 'b' => '\U{8}'
    case 'f' => '\U{C}'
    case 'n' => '\n'
    case 'r' => '\r'
    case 't' => '\t'
    case _ => c
  }

  function Prepend(c: char, scanned: Option<Scanned>): Option<Scanned> {
    match scanned
    case None => None
    case Some(s) => Some(Scanned([c] + s.value, s.rest))
  }

  function Scan(s: string): Option<Scanned> {
    if s == "" then None
    else if s[0] == '\\' && |s| > 1 then Prepend(Unescape(s[1]), Scan(s[2..]))
    else if s[0] == '"' then Some(Scanned("", s[1..]))
    else Prepend(s[0], Scan(s[1..]))
  }

  /** The characters iswspace accepts are a parameter: a fixed set that contains no quote. */
  function SkipSpace(body: string, pos: nat, spaces: set<char>): (k: nat)
    requires pos <= |body|
    ensures pos <= k <= |body| && (forall i | pos <= i < k :: body[i] in spaces) && (k < |body| ==> body[k] !in spaces)
    decreases |body| - pos
  {
    if pos < |body| && body[pos] in spaces then SkipSpace(body, pos + 1, spaces) else pos
  }

  function Quoted(key: string): string {
    "\"" + key + "\""
  }

  /** Where the scan of the field's value starts, after its opening quote */
  function ValueStart(body: string, key: string, spaces: set<char>): (k: Option<nat>)
    ensures k.Some? ==> k.value <= |body|
  {
    var pattern := Quoted(key);
    var at := FindPattern(body, pattern, 0);
    if at == |body| then None
    else
      var colon := Find(body, ':', at + |pattern|);
      if colon == |body| then None
      else
        var open := SkipSpace(body, colon + 1, spaces);
        if open == |body| || body[open] != '"' then None else Some(open + 1)
  }

  function Field(body: string, key: string, spaces: set<char>): string {
    match ValueStart(body, key, spaces)
    case None => ""
    case Some(start) => (match Scan(body[start..]) case None => "" case Some(s) => s.value)
  }

  method JsonStringField(body: string, key: string, spaces: set<char>) returns (value: string)
    ensures value == Field(body, key, spaces)
  {
    hide Scan, Quoted, PrependAll, Prepend;
    var pattern := Quoted(key);
    var pos := FindPattern(body, pattern, 0);
    if pos == |body| { return ""; }
    pos := Find(body, ':', pos + |pattern|);
    if pos == |body| { return ""; }
    pos := pos + 1;
    ghost var colon := pos;
    while pos < |body| && body[pos] in spaces
      invariant colon <= pos <= |body|
      invariant SkipSpace(body, colon, spaces) == SkipSpace(body, pos, spaces)
    {
      pos := pos + 1;
    }
    if pos >= |body| || body[pos] != '"' { return ""; }
    pos := pos + 1;
    ghost var start := pos;
    value := "";
    ScanEnds(body, start);
    while pos < |body|
      invariant start <= pos <= |body|
      invariant Scan(body[start..]) == PrependAll(value, Scan(body[pos..]))
    {
      ScanStep(body, pos);
      PrependNone(value, body, pos);
      var ch := body[pos];
      pos := pos + 1;
      if ch == '\\' && pos < |body| {
        var next := body[pos];
        pos := pos + 1;
        PrependOne(value, Unescape(next), Scan(body[pos..]));
        match next {
          case 'b' => value := value + ['\U{8}'];
          case 'f' => value := value + ['\U{C}'];
          case 'n' => value := value + ['\n'];
          case 'r' => value := value + ['\r'];
          case 't' => value := value + ['\t'];
          case _ => value := value + [next];
        }
        continue;
      }
      if ch == '"' { return value; }
      PrependOne(value, ch, Scan(body[pos..]));
      value := value + [ch];
    }
    return "";
  }

  function PrependAll(value: string, scanned: Option<Scanned>): Option<Scanned> {
    match scanned
    case None => None
    case Some(s) => Some(Scanned(value + s.value, s.rest))
  }

  lemma PrependOne(value: string, c: char, scanned: Option<Scanned>)
    ensures PrependAll(value, Prepend(c, scanned)) == PrependAll(value + [c], scanned)
  {
    if scanned.Some? { assert value + ([c] + scanned.value.value) == value + [c] + scanned.value.value; }
  }

  lemma ScanEnds(body: string, start: nat)
    requires start <= |body|
    ensures Scan(body[start..]) == PrependAll("", Scan(body[start..]))
    ensures forall value :: PrependAll(value, Scan(body[|body|..])) == None
  {
    var scanned := Scan(body[start..]);
    if scanned.Some? { assert "" + scanned.value.value == scanned.value.value; }
  }

  lemma PrependNone(value: string, body: string, pos: nat)
    requires pos < |body|
    ensures PrependAll(value, Some(Scanned("", body[pos + 1..]))) == Some(Scanned(value, body[pos + 1..]))
  {
    assert value + "" == value;
  }

  lemma ScanStep(body: string, pos: nat)
    requires pos < |body|
    ensures Scan(body[pos..])
            == if body[pos] == '\\' && pos + 1 < |body| then Prepend(Unescape(body[pos + 1]), Scan(body[pos + 2..]))
               else if body[pos] == '"' then Some(Scanned("", body[pos + 1..]))
               else Prepend(body[pos], Scan(body[pos + 1..]))
  {
    var s := body[pos..];
    assert s[1..] == body[pos + 1..];
    if |s| > 1 { assert s[2..] == body[pos + 2..]; }
  }

  // ----- scanning what was escaped

  /** The characters JSON can escape by one letter, and those that need no escape */
  predicate Plain(c: char) {
    c >= ' ' || c == '\U{8}' || c == '\U{C}' || c == '\n' || c == '\r' || c == '\t'
  }

  /** What the scanner makes of a character: it does not know \u, and keeps its five characters. */
  function Read(c: char): string {
    if Plain(c) then [c] else "u00" + [HexDigit(c as int / 16), HexDigit(c as int % 16)]
  }

  function ReadAll(value: string): string {
    if value == "" then "" else Read(value[0]) + ReadAll(value[1..])
  }

  lemma ScanEscapedChar(c: char, rest: string)
    ensures Scan(EscapeChar(c) + rest) == PrependAll(Read(c), Scan(rest))
  {
    hide Unescape, PrependAll, HexDigit;
    var s := EscapeChar(c) + rest;
    if c >= ' ' && c != '"' && c != '\\' {
      assert s[1..] == rest;
      PrependSingle(c, Scan(rest));
    } else if Plain(c) {
      assert s[2..] == rest && Unescape(s[1]) == c by { UnescapeEscaped(c); }
      PrependSingle(c, Scan(rest));
    } else {
      HexPlain(c as int / 16);
      HexPlain(c as int % 16);
      ScanUnicode(HexDigit(c as int / 16), HexDigit(c as int % 16), rest);
      assert s == "\\u00" + [HexDigit(c as int / 16), HexDigit(c as int % 16)] + rest;
    }
  }

  lemma UnescapeEscaped(c: char)
    requires Plain(c) && (c < ' ' || c == '"' || c == '\\')
    ensures |EscapeChar(c)| == 2 && EscapeChar(c)[0] == '\\' && Unescape(EscapeChar(c)[1]) == c
  {}

  lemma HexPlain(n: nat)
    requires n < 16
    ensures HexDigit(n) != '"' && HexDigit(n) != '\\'
  {}

  lemma PrependSingle(c: char, scanned: Option<Scanned>)
    ensures Prepend(c, scanned) == PrependAll([c], scanned)
  {}

  lemma ScanOne(c: char, rest: string)
    requires c != '\\' && c != '"'
    ensures Scan([c] + rest) == Prepend(c, Scan(rest))
  {
    assert ([c] + rest)[1..] == rest;
  }

  lemma ScanUnicode(h: char, l: char, rest: string)
    requires h != '"' && h != '\\' && l != '"' && l != '\\'
    ensures Scan("\\u00" + [h, l] + rest) == PrependAll("u00" + [h, l], Scan(rest))
  {
    var s := "\\u00" + [h, l] + rest;
    var r1 := [l] + rest;
    var r2 := [h] + r1;
    var r3 := ['0'] + r2;
    assert s[2..] == ['0'] + r3;
    ScanOne(l, rest);
    ScanOne(h, r1);
    ScanOne('0', r2);
    ScanOne('0', r3);
    var scanned := Scan(rest);
    if scanned.Some? {
      assert ['u'] + (['0'] + (['0'] + ([h] + ([l] + scanned.value.value)))) == "u00" + [h, l] + scanned.value.value;
    }
  }

  /** Whatever follows, scanning an escaped value stops at its closing quote. */
  lemma {:induction false} ScanEscaped(value: string, rest: string)
    ensures Scan(Escaped(value) + "\"" + rest) == Some(Scanned(ReadAll(value), rest))
  {
    hide EscapeChar, Read, Scan;
    if value == "" {
      ScanQuote(rest);
      assert "" + "\"" + rest == "\"" + rest;
    } else {
      var tail := Escaped(value[1..]) + "\"" + rest;
      ScanEscaped(value[1..], rest);
      ScanEscapedChar(value[0], tail);
      assert Escaped(value) + "\"" + rest == EscapeChar(value[0]) + tail;
    }
  }

  lemma ScanQuote(rest: string)
    ensures Scan("\"" + rest) == Some(Scanned("", rest))
  {
    assert ("\"" + rest)[1..] == rest;
  }

  predicate AllPlain(value: string) {
    forall k | 0 <= k < |value| :: Plain(value[k])
  }

  /** Only characters below space without a one-letter escape are not read back as themselves. */
  lemma {:induction false} ReadIff(value: string)
    ensures ReadAll(value) == value <==> AllPlain(value)
    ensures |ReadAll(value)| >= |value| && (|ReadAll(value)| == |value| ==> AllPlain(value))
  {
    hide HexDigit;
    if value != "" {
      ReadIff(value[1..]);
      assert value == [value[0]] + value[1..];
      assert AllPlain(value) <==> Plain(value[0]) && AllPlain(value[1..]);
    }
  }

  /**
   The field whose quoted key is the first quote of an object reads back as the string that was
   escaped into it, for every key and whatever follows, exactly when all its characters are plain.
   */
  lemma FieldReadBack(before: string, key: string, gap: string, space: string, value: string, after: string,
                      spaces: set<char>)
    requires '"' !in before && ':' !in gap && (forall c | c in space :: c in spaces) && '"' !in spaces
    ensures var body := before + Quoted(key) + gap + ":" + space + "\"" + Escaped(value) + "\"" + after;
            Field(body, key, spaces) == ReadAll(value)
            && (Field(body, key, spaces) == value <==> AllPlain(value))
  {
    hide Scan, Escaped, ReadAll, AllPlain, Quoted, ValueStart;
    var head := before + Quoted(key) + gap + ":" + space + "\"";
    var tail := Escaped(value) + "\"" + after;
    var body := before + Quoted(key) + gap + ":" + space + "\"" + Escaped(value) + "\"" + after;
    assert body == head + tail;
    StartFound(before, key, gap, space, tail, spaces);
    assert body[|head|..] == tail;
    ScanEscaped(value, after);
    ReadIff(value);
  }

  lemma StartFound(before: string, key: string, gap: string, space: string, tail: string, spaces: set<char>)
    requires '"' !in before && ':' !in gap && (forall c | c in space :: c in spaces) && '"' !in spaces
    ensures var head := before + Quoted(key) + gap + ":" + space + "\"";
            ValueStart(head + tail, key, spaces) == Some(|head|)
  {
    hide FindPattern, Find, SkipSpace, OccursAt, Quoted;
    var pattern := Quoted(key);
    assert pattern != "" && pattern[0] == '"' by { QuotedStarts(key); }
    var colon := before + pattern + gap;
    var open := colon + ":" + space;
    var body := open + "\"" + tail;
    KeyFound(before, pattern, gap + ":" + space + "\"" + tail);
    assert body == before + pattern + (gap + ":" + space + "\"" + tail);
    GapAt(before + pattern, gap, ":" + space + "\"" + tail);
    assert body == before + pattern + gap + (":" + space + "\"" + tail);
    FindWithin(body, ':', |before + pattern|, |colon|);
    GapAt(colon + ":", space, "\"" + tail);
    assert body == colon + ":" + space + ("\"" + tail);
    SpaceSkipped(body, |colon| + 1, |open|, spaces);
  }

  lemma QuotedStarts(key: string)
    ensures Quoted(key) != "" && Quoted(key)[0] == '"'
  {}

  lemma GapAt(a: string, gap: string, b: string)
    requires b != ""
    ensures var s := a + gap + b;
            (forall i | |a| <= i < |a + gap| :: s[i] == gap[i - |a|] && s[i] in gap) && s[|a + gap|] == b[0]
  {}

  lemma KeyFound(before: string, pattern: string, rest: string)
    requires '"' !in before && pattern != "" && pattern[0] == '"'
    ensures FindPattern(before + pattern + rest, pattern, 0) == |before|
  {
    var s := before + pattern + rest;
    assert s[|before|..|before| + |pattern|] == pattern;
    assert OccursAt(s, pattern, |before|);
    forall i | 0 <= i < |before|
      ensures !OccursAt(s, pattern, i)
    {
      assert s[i] == before[i];
      if i + |pattern| <= |s| { assert s[i..i + |pattern|][0] == s[i]; }
    }
  }

  lemma FindWithin(s: string, c: char, from: nat, at: nat)
    requires from <= at < |s| && s[at] == c && forall i | from <= i < at :: s[i] != c
    ensures Find(s, c, from) == at
  {}

  lemma SpaceSkipped(body: string, from: nat, to: nat, spaces: set<char>)
    requires from <= to < |body| && body[to] !in spaces && forall i | from <= i < to :: body[i] in spaces
    ensures SkipSpace(body, from, spaces) == to
  {}

  // ----- a JSON reader

  /** The value of a hexadecimal digit, and 16 for anything else */
  function HexValue(c: char): nat {
    if '0' <= c <= '9' then c as int - '0' as int
    else if 'a' <= c <= 'f' then c as int - 'a' as int + 10
    else if 'A' <= c <= 'F' then c as int - 'A' as int + 10
    else 16
  }

  /** The character of a letter after a backslash, in section 7 of RFC 8259 */
  function ShortEscape(c: char): Option<char> {
    match c
    case '"' => Some('"')
    case '\\' => Some('\\')
    case '/' => Some('/')
    case 'b' => Some('\U{8}')
    case 'f' => Some('\U{C}')
    case 'n' => Some('\n')
    case 'r' => Some('\r')
    case 't' => Some('\t')
    case _ => None
  }

  /** The character of four hexadecimal digits below the surrogates */
  function HexEscape(digits: string): Option<char>
    requires |digits| == 4
  {
    var a, b, c, d := HexValue(digits[0]), HexValue(digits[1]), HexValue(digits[2]), HexValue(digits[3]);
    var code := 4096 * a + 256 * b + 16 * c + d;
    if a == 16 || b == 16 || c == 16 || d == 16 || code >= 0xD800 then None else Some(code as char)
  }

  function Before(c: Option<char>, s: Option<string>): Option<string> {
    if c.None? || s.None? then None else Some([c.value] + s.value)
  }

  /** The inside of a string of RFC 8259: no raw quote, no control character, no escape it does not know. */
  function ReadJson(s: string): Option<string> {
    if s == "" then Some("")
    else if s[0] == '\\' then
      if |s| >= 2 && s[1] != 'u' then Before(ShortEscape(s[1]), ReadJson(s[2..]))
      else if |s| >= 6 then Before(HexEscape(s[2..6]), ReadJson(s[6..]))
      else None
    else if s[0] == '"' || s[0] < ' ' then None
    else Before(Some(s[0]), ReadJson(s[1..]))
  }

  /** What the escaper writes is the inside of a JSON string, and every value is read back from it. */
  lemma {:induction false} JsonReadBack(value: string)
    ensures ReadJson(Escaped(value)) == Some(value)
  {
    hide EscapeChar, ReadJson;
    if value == "" {
      ReadNothing();
    } else {
      JsonReadBack(value[1..]);
      ReadEscapedChar(value[0], Escaped(value[1..]), value[1..]);
      assert value == [value[0]] + value[1..];
    }
  }

  lemma ReadNothing()
    ensures ReadJson("") == Some("")
  {}

  lemma ReadEscapedChar(c: char, rest: string, value: string)
    requires ReadJson(rest) == Some(value)
    ensures ReadJson(EscapeChar(c) + rest) == Some([c] + value)
  {
    hide HexDigit;
    var s := EscapeChar(c) + rest;
    if c >= ' ' && c != '"' && c != '\\' {
      assert s[1..] == rest;
    } else if Plain(c) {
      assert s[2..] == rest && s[1] == EscapeChar(c)[1] && ShortEscape(EscapeChar(c)[1]) == Some(c) by { ShortOf(c); }
    } else {
      var h, l := HexDigit(c as int / 16), HexDigit(c as int % 16);
      HexDigits(c as int / 16);
      HexDigits(c as int % 16);
      assert s[6..] == rest && s[2..6] == ['0', '0', h, l];
    }
  }

  lemma ShortOf(c: char)
    requires Plain(c) && (c < ' ' || c == '"' || c == '\\')
    ensures |EscapeChar(c)| == 2 && EscapeChar(c)[0] == '\\' && ShortEscape(EscapeChar(c)[1]) == Some(c)
    ensures EscapeChar(c)[1] != 'u'
  {}

  lemma HexDigits(n: nat)
    requires n < 16
    ensures HexValue(HexDigit(n)) == n
  {}

  /** The string has no escape by character number. */
  predicate NoNumbers(s: string) {
    if s == "" then true
    else if s[0] == '\\' && |s| >= 2 then s[1] != 'u' && NoNumbers(s[2..])
    else NoNumbers(s[1..])
  }

  /** The scanner reads every JSON string without escapes by number as a JSON reader does. */
  lemma {:induction false} ScanReadsJson(s: string, rest: string)
    requires ReadJson(s).Some? && NoNumbers(s)
    ensures Scan(s + "\"" + rest) == Some(Scanned(ReadJson(s).value, rest))
    decreases |s|
  {
    hide Unescape, ShortEscape;
    if s == "" {
      ScanQuote(rest);
      assert "" + "\"" + rest == "\"" + rest;
    } else if s[0] == '\\' {
      var tail := s[2..] + "\"" + rest;
      ScanReadsJson(s[2..], rest);
      assert (s + "\"" + rest)[2..] == tail;
      SameEscapes(s[1]);
    } else {
      var tail := s[1..] + "\"" + rest;
      ScanReadsJson(s[1..], rest);
      assert (s + "\"" + rest)[1..] == tail;
    }
  }

  lemma SameEscapes(c: char)
    ensures ShortEscape(c).Some? ==> Unescape(c) == ShortEscape(c).value
  {}

  /** Without the quoted key there is no field. */
  lemma FieldMissing(body: string, key: string, spaces: set<char>)
    requires forall k | 0 <= k <= |body| :: !OccursAt(body, "\"" + key + "\"", k)
    ensures Field(body, key, spaces) == ""
  {
    hide Scan;
  }

  /** A field with a space after its colon */
  lemma FieldExample()
    ensures Field("{\"k\": \"a\\n\"}", "k", {' '}) == "a\n"
  {
    hide Field, Quoted, Escaped;
    ExampleEscaped();
    FieldReadBack("{", "k", "", " ", "a\n", "}", {' '});
    QuotedExample();
    assert "{" + "\"k\"" + "" + ":" + " " + "\"" + "a\\n" + "\"" + "}" == "{\"k\": \"a\\n\"}";
  }

  lemma QuotedExample()
    ensures Quoted("k") == "\"k\""
  {}

  lemma ExampleEscaped()
    ensures Escaped("a\n") == "a\\n" && AllPlain("a\n")
  {
    EscapedOne('a');
    EscapedOne('\n');
    EscapedAppend(['a'], ['\n']);
    assert "a\n" == ['a'] + ['\n'];
  }
}
