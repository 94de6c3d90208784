/** Setting the lang parameter of a URL's query */
module LocaleQuery {
  import opened Strings

  // ----- locale codes

  function Lower(value: string): string {
    seq(|value|, i requires 0 <= i < |value| =>
      if 'A' <= value[i] <= 'Z' then value[i] - 'A' + 'a' else if value[i] == '_' then '-' else value[i])
  }

  method ToLowerAscii(value: string) returns (out: string)
    ensures out == Lower(value)
  {
    out := "";
    for k := 0 to |value|
      invariant out == Lower(value[..k])
    {
      var ch := value[k];
      assert value[..k + 1][..k] == value[..k];
      if 'A' <= ch <= 'Z' {
        out := out + [ch - 'A' + 'a'];
      } else if ch == '_' {
        out := out + ['-'];
      } else {
        out := out + [ch];
      }
    }
    assert value[..|value|] == value;
  }

  /** The code itself, or the code with further subtags */
  predicate Names(lower: string, code: string) {
    lower == code || StartsWith(lower, code + "-")
  }

  function NormalizeLocaleCode(raw: string): string {
    var lower := Lower(raw);
    if lower == "" then "en"
    else if Names(lower, "en") then "en"
    else if lower == "zh" || Names(lower, "zh-cn") || Names(lower, "zh-sg") || Names(lower, "zh-hans") then "zh-CN"
    else if Names(lower, "zh-tw") || Names(lower, "zh-hk") || Names(lower, "zh-mo") || Names(lower, "zh-hant") then
      "zh-TW"
    else if Names(lower, "ko") then "ko"
    else if Names(lower, "ja") then "ja"
    else if Names(lower, "de") then "de"
    else if Names(lower, "ru") then "ru"
    else "en"
  }

  predicate Supported(code: string) {
    code == "en" || code == "zh-CN" || code == "zh-TW" || code == "ko" || code == "ja" || code == "de" || code == "ru"
  }

  predicate IsSupportedLocale(value: string) {
    Supported(NormalizeLocaleCode(value))
  }

  /** Every code is normalized to a supported one, and those stay as they are. */
  lemma NormalizedIsSupported(raw: string)
    ensures Supported(NormalizeLocaleCode(raw))
            && NormalizeLocaleCode(NormalizeLocaleCode(raw)) == NormalizeLocaleCode(raw)
  {
    hide Lower, Names;
    SupportedIsNormal(NormalizeLocaleCode(raw));
  }

  /** Lower changes exactly the letters A to Z and the underscore. */
  lemma LowerExactly(value: string, k: nat)
    requires k < |value|
    ensures |Lower(value)| == |value|
    ensures 'A' <= value[k] <= 'Z' ==>
              'a' <= Lower(value)[k] <= 'z' && Lower(value)[k] as int - 'a' as int == value[k] as int - 'A' as int
    ensures value[k] == '_' ==> Lower(value)[k] == '-'
    ensures !('A' <= value[k] <= 'Z') && value[k] != '_' ==> Lower(value)[k] == value[k]
  {}

  /** The code, or the code with further subtags */
  predicate Among(lower: string, codes: set<string>) {
    exists code :: code in codes && (lower == code || StartsWith(lower, code + "-"))
  }

  /** Which codes give which locale: the two forms of Chinese by region or script, the others by language. */
  lemma WhichLocale(raw: string)
    ensures NormalizeLocaleCode(raw) == "zh-TW" <==> Among(Lower(raw), {"zh-tw", "zh-hk", "zh-mo", "zh-hant"})
    ensures NormalizeLocaleCode(raw) == "zh-CN"
            <==> Lower(raw) == "zh" || Among(Lower(raw), {"zh-cn", "zh-sg", "zh-hans"})
    ensures NormalizeLocaleCode(raw) == "ko" <==> Among(Lower(raw), {"ko"})
    ensures NormalizeLocaleCode(raw) == "ja" <==> Among(Lower(raw), {"ja"})
    ensures NormalizeLocaleCode(raw) == "de" <==> Among(Lower(raw), {"de"})
    ensures NormalizeLocaleCode(raw) == "ru" <==> Among(Lower(raw), {"ru"})
  {
    var lower := Lower(raw);
    hide Lower, Names, Among;
    AmongThem(lower);
    NamesLetters(lower);
  }

  predicate Letters(lower: string, k: nat, a: char, b: char) {
    k + 2 <= |lower| && lower[k] == a && lower[k + 1] == b
  }

  lemma CodeLetters(lower: string, code: string, k: nat)
    requires Names(lower, code) && k + 2 <= |code|
    ensures Letters(lower, k, code[k], code[k + 1])
  {
    if lower != code {
      assert lower[k] == (code + "-")[k] && lower[k + 1] == (code + "-")[k + 1];
    }
  }

  lemma NamesLetters(lower: string)
    ensures Names(lower, "en") ==> Letters(lower, 0, 'e', 'n')
    ensures Names(lower, "ko") ==> Letters(lower, 0, 'k', 'o')
    ensures Names(lower, "ja") ==> Letters(lower, 0, 'j', 'a')
    ensures Names(lower, "de") ==> Letters(lower, 0, 'd', 'e')
    ensures Names(lower, "ru") ==> Letters(lower, 0, 'r', 'u')
    ensures Names(lower, "zh-tw") ==> Letters(lower, 0, 'z', 'h') && Letters(lower, 3, 't', 'w')
    ensures Names(lower, "zh-hk") ==> Letters(lower, 0, 'z', 'h') && Letters(lower, 3, 'h', 'k')
    ensures Names(lower, "zh-mo") ==> Letters(lower, 0, 'z', 'h') && Letters(lower, 3, 'm', 'o')
    ensures Names(lower, "zh-hant") ==>
              Letters(lower, 0, 'z', 'h') && Letters(lower, 3, 'h', 'a') && Letters(lower, 5, 'n', 't')
    ensures Names(lower, "zh-cn") ==> Letters(lower, 0, 'z', 'h') && Letters(lower, 3, 'c', 'n')
    ensures Names(lower, "zh-sg") ==> Letters(lower, 0, 'z', 'h') && Letters(lower, 3, 's', 'g')
    ensures Names(lower, "zh-hans") ==>
              Letters(lower, 0, 'z', 'h') && Letters(lower, 3, 'h', 'a') && Letters(lower, 5, 'n', 's')
  {
    hide Names, Letters;
    if Names(lower, "en") { CodeLetters(lower, "en", 0); }
    if Names(lower, "ko") { CodeLetters(lower, "ko", 0); }
    if Names(lower, "ja") { CodeLetters(lower, "ja", 0); }
    if Names(lower, "de") { CodeLetters(lower, "de", 0); }
    if Names(lower, "ru") { CodeLetters(lower, "ru", 0); }
    if Names(lower, "zh-tw") {
      CodeLetters(lower, "zh-tw", 0);
      CodeLetters(lower, "zh-tw", 3);
    }
    if Names(lower, "zh-hk") {
      CodeLetters(lower, "zh-hk", 0);
      CodeLetters(lower, "zh-hk", 3);
    }
    if Names(lower, "zh-mo") {
      CodeLetters(lower, "zh-mo", 0);
      CodeLetters(lower, "zh-mo", 3);
    }
    if Names(lower, "zh-hant") {
      CodeLetters(lower, "zh-hant", 0);
      CodeLetters(lower, "zh-hant", 3);
      CodeLetters(lower, "zh-hant", 5);
    }
    if Names(lower, "zh-cn") {
      CodeLetters(lower, "zh-cn", 0);
      CodeLetters(lower, "zh-cn", 3);
    }
    if Names(lower, "zh-sg") {
      CodeLetters(lower, "zh-sg", 0);
      CodeLetters(lower, "zh-sg", 3);
    }
    if Names(lower, "zh-hans") {
      CodeLetters(lower, "zh-hans", 0);
      CodeLetters(lower, "zh-hans", 3);
      CodeLetters(lower, "zh-hans", 5);
    }
  }

  lemma AmongThem(lower: string)
    ensures Among(lower, {"zh-tw", "zh-hk", "zh-mo", "zh-hant"})
            <==> Names(lower, "zh-tw") || Names(lower, "zh-hk") || Names(lower, "zh-mo") || Names(lower, "zh-hant")
    ensures Among(lower, {"zh-cn", "zh-sg", "zh-hans"})
            <==> Names(lower, "zh-cn") || Names(lower, "zh-sg") || Names(lower, "zh-hans")
    ensures forall code :: Among(lower, {code}) <==> Names(lower, code)
  {
    hide StartsWith;
  }

  lemma SupportedIsNormal(code: string)
    requires Supported(code)
    ensures NormalizeLocaleCode(code) == code
  {
    var lower := Lower(code);
    if code == "zh-CN" {
      assert lower == "zh-cn";
      assert lower[0] == 'z';
    } else if code == "zh-TW" {
      assert lower == "zh-tw";
      assert lower[0] == 'z' && lower[3] == 't';
    } else {
      assert lower == code;
    }
  }

  // ----- the parts of a URL

  datatype Url = Url(path: string, params: seq<string>, fragment: string)

  /** The nonempty parts between ampersands */
  function Parts(query: string): seq<string>
    decreases |query|
  {
    var amp := Find(query, '&', 0);
    (if amp == 0 then [] else [query[..amp]]) + (if amp == |query| then [] else Parts(query[amp + 1..]))
  }

  function BaseOf(url: string): string {
    url[..Find(url, '#', 0)]
  }

  function PathOf(base: string): string {
    base[..Find(base, '?', 0)]
  }

  function QueryOf(base: string): string {
    var k := Find(base, '?', 0);
    if k == |base| then "" else base[k + 1..]
  }

  function Parse(url: string): Url {
    var base := BaseOf(url);
    Url(PathOf(base), Parts(QueryOf(base)), url[|base|..])
  }

  function Needle(): string {
    "lang="
  }

  function Kept(params: seq<string>): seq<string> {
    if params == [] then []
    else (if StartsWith(params[0], Needle()) then [] else [params[0]]) + Kept(params[1..])
  }

  function Join(params: seq<string>): string {
    if params == [] then ""
    else if |params| == 1 then params[0]
    else Join(params[..|params| - 1]) + "&" + params[|params| - 1]
  }

  /** One trailing question mark removed */
  function Popped(s: string): string {
    if EndsWith(s, '?') then s[..|s| - 1] else s
  }

  // ----- the rewriter

  method RemoveExisting(input: string) returns (value: string)
    ensures value == if '?' !in input then input else Popped(PathOf(input) + "?" + Join(Kept(Parts(QueryOf(input)))))
  {
    hide *;
    value := input;
    var queryPos := Find(value, '?', 0);
    if queryPos == |value| { return; }
    ghost var head, all := HeadAndQuery(input, queryPos);
    var rebuilt := value[..queryPos + 1];
    var query := value[queryPos + 1..];
    var pos := 0;
    var first := true;
    ghost var done, rest := [], all;
    assert query[pos..] == query;
    while pos <= |query|
      invariant pos <= |query| && (first <==> done == [])
      invariant rest == Kept(Parts(query[pos..])) && all == done + rest
      invariant rebuilt == head + Join(done)
      decreases |query| - pos
    {
      var amp := Find(query, '&', pos);
      var part := query[pos..amp];
      JoinedFrom(head, Join(done), part);
      done, rest := NextPart(query, pos, amp, done, rest);
      if part != "" && !StartsWith(part, Needle()) {
        if !first { rebuilt := rebuilt + "&"; }
        rebuilt := rebuilt + part;
        first := false;
      }
      if amp == |query| { break; }
      pos := amp + 1;
    }
    assert rebuilt == head + Join(all);
    PoppedLast(rebuilt);
    if rebuilt != "" && rebuilt[|rebuilt| - 1] == '?' {
      rebuilt := rebuilt[..|rebuilt| - 1];
    }
    value := rebuilt;
  }

  lemma JoinedFrom(head: string, joined: string, part: string)
    ensures head + joined + "&" + part == head + (joined + "&" + part)
    ensures joined == "" ==> head + joined + part == head + part
  {}

  /** The kept parameters once the part between pos and amp has been looked at */
  lemma NextPart(query: string, pos: nat, amp: nat, done: seq<string>, rest: seq<string>)
    returns (done': seq<string>, rest': seq<string>)
    requires pos <= |query| && amp == Find(query, '&', pos) && rest == Kept(Parts(query[pos..]))
    ensures var part := query[pos..amp];
            var keep := part != "" && !StartsWith(part, Needle());
            && (done' == [] <==> done == [] && !keep)
            && Join(done') == if !keep then Join(done) else if done == [] then part else Join(done) + "&" + part
    ensures done + rest == done' + rest' && (amp == |query| ==> done + rest == done')
    ensures rest' == if amp == |query| then [] else Kept(Parts(query[amp + 1..]))
  {
    hide *;
    var part := query[pos..amp];
    var keep := part != "" && !StartsWith(part, Needle());
    PartsFrom(query, pos, amp);
    JoinOne(done, part);
    rest' := if amp == |query| then [] else Kept(Parts(query[amp + 1..]));
    done' := if keep then done + [part] else done;
    MovedOver(done, part, keep, rest');
  }

  lemma MovedOver(done: seq<string>, part: string, keep: bool, rest: seq<string>)
    ensures done + ((if keep then [part] else []) + rest) == (if keep then done + [part] else done) + rest
    ensures done + [] == done && done + [part] + [] == done + [part]
  {}

  /** What the program returns: one question mark too many is removed when the last kept parameter ends in one. */
  function Build(path: string, kept: seq<string>, fragment: string, code: string): string {
    path + "?" + BeforeLang(kept) + Needle() + code + fragment
  }

  function BeforeLang(kept: seq<string>): string {
    if kept == [] then "" else Popped(Join(kept)) + "&"
  }

  function Rewritten(url: string, locale: string): string {
    if url == "" then ""
    else
      var parsed := Parse(url);
      Build(parsed.path, Kept(parsed.params), parsed.fragment, NormalizeLocaleCode(locale))
  }

  method AppendLocaleQuery(url: string, locale: string) returns (result: string)
    ensures result == Rewritten(url, locale)
  {
    hide Needle, BeforeLang, Kept, Parts, NormalizeLocaleCode, Popped, Join;
    var normalized := NormalizeLocaleCode(locale);
    NormalizedIsSupported(locale);
    if !IsSupportedLocale(normalized) || url == "" { return url; }
    var base := url;
    var fragment := "";
    var hashPos := Find(base, '#', 0);
    if hashPos != |base| {
      fragment := base[hashPos..];
      base := base[..hashPos];
    }
    assert base == BaseOf(url) && fragment == url[|base|..];
    ghost var path, kept := PathOf(base), Kept(Parts(QueryOf(base)));
    RemovedShape(base);
    base := RemoveExisting(base);
    base := base + (if Find(base, '?', 0) == |base| then "?" else "&");
    base := base + Needle();
    base := base + normalized;
    result := base + fragment;
    assert base == path + "?" + BeforeLang(kept) + Needle() + normalized;
  }

  /** What is left of a base, and the separator that comes next */
  lemma RemovedShape(base: string)
    ensures var path, kept := PathOf(base), Kept(Parts(QueryOf(base)));
            var removed := if '?' !in base then base else Popped(path + "?" + Join(kept));
            removed + (if Find(removed, '?', 0) == |removed| then "?" else "&")
            == path + "?" + BeforeLang(kept)
  {
    hide *;
    var path, kept := PathOf(base), Kept(Parts(QueryOf(base)));
    PathHasNoMark(base);
    BeforeLangIs(kept);
    if '?' !in base {
      FindNothing(base, '?');
      NoParts();
    } else if kept == [] {
      NothingJoined();
      PoppedLast(path + "?" + "");
      FindNothing(path, '?');
    } else {
      KeptAreParts(QueryOf(base));
      JoinNonempty(kept);
      PoppedAppend(path + ['?'], Join(kept));
      FindAfter(path, '?', Popped(Join(kept)));
    }
  }

  lemma BeforeLangIs(kept: seq<string>)
    ensures BeforeLang(kept) == if kept == [] then "" else Popped(Join(kept)) + "&"
  {}

  lemma PoppedLast(s: string)
    ensures Popped(s) == if s != "" && s[|s| - 1] == '?' then s[..|s| - 1] else s
  {}

  lemma HeadAndQuery(base: string, k: nat) returns (head: string, kept: seq<string>)
    requires k == Find(base, '?', 0) && k < |base|
    ensures '?' in base && base[..k + 1] == head == PathOf(base) + "?" && base[k + 1..] == QueryOf(base)
    ensures kept == Kept(Parts(QueryOf(base))) && head == head + Join([])
  {
    head, kept := PathOf(base) + "?", Kept(Parts(QueryOf(base)));
  }

  lemma PathHasNoMark(base: string)
    ensures '?' !in PathOf(base) && ('?' !in base ==> PathOf(base) == base && QueryOf(base) == "")
    ensures '?' in base ==> base == PathOf(base) + "?" + QueryOf(base)
  {
    var k := Find(base, '?', 0);
    if k == |base| {
      assert base[..k] == base;
    } else {
      SplitAt(base, k);
    }
  }

  lemma SplitAt(s: string, k: nat)
    requires k < |s|
    ensures s == s[..k] + [s[k]] + s[k + 1..]
  {}

  // ----- splitting and joining

  predicate IsPart(p: string) {
    p != "" && '&' !in p
  }

  predicate AreParts(ps: seq<string>) {
    forall k | 0 <= k < |ps| :: IsPart(ps[k])
  }

  lemma NoParts()
    ensures Kept(Parts("")) == []
  {}

  lemma NothingJoined()
    ensures Join([]) == ""
  {}

  lemma JoinNonempty(ps: seq<string>)
    requires ps != [] && AreParts(ps)
    ensures Join(ps) != ""
  {}

  lemma JoinOne(ps: seq<string>, p: string)
    ensures Join(ps + [p]) == if ps == [] then p else Join(ps) + "&" + p
  {
    assert (ps + [p])[..|ps|] == ps;
  }

  lemma {:induction false} FindShift(s: string, c: char, from: nat, k: nat)
    requires from <= k <= |s|
    ensures Find(s[from..], c, k - from) == Find(s, c, k) - from
    decreases |s| - k
  {
    if k < |s| && s[k] != c { FindShift(s, c, from, k + 1); }
  }

  lemma PartsFrom(query: string, pos: nat, amp: nat)
    requires pos <= |query| && amp == Find(query, '&', pos)
    ensures var part := query[pos..amp];
            var rest := if amp == |query| then [] else Kept(Parts(query[amp + 1..]));
            Kept(Parts(query[pos..])) == (if part != "" && !StartsWith(part, Needle()) then [part] else []) + rest
  {
    hide *;
    var part, s := query[pos..amp], query[pos..];
    FindShift(query, '&', pos, pos);
    PartsFirst(s);
    assert s[..amp - pos] == part;
    if amp < |query| {
      assert s[amp - pos + 1..] == query[amp + 1..];
      if part != "" { KeptCons(part, Parts(query[amp + 1..])); }
    } else {
      KeptCons(part, []);
    }
    NoneKept();
  }

  lemma PartsFirst(s: string)
    ensures var amp := Find(s, '&', 0);
            var rest := if amp == |s| then [] else Parts(s[amp + 1..]);
            Parts(s) == if amp == 0 then rest else [s[..amp]] + rest
  {}

  lemma NoneKept()
    ensures Kept([]) == []
  {}

  lemma KeptCons(p: string, ps: seq<string>)
    ensures Kept([p] + ps) == (if StartsWith(p, Needle()) then [] else [p]) + Kept(ps)
    ensures [p] + [] == [p]
  {
    hide Needle, StartsWith;
    assert ([p] + ps)[1..] == ps;
  }

  lemma {:induction false} PartsAreParts(query: string)
    ensures AreParts(Parts(query))
    ensures forall p, c: char | p in Parts(query) && c in p :: c in query
    decreases |query|
  {
    hide Parts;
    var amp := Find(query, '&', 0);
    PartsFirst(query);
    assert forall c | c in query[..amp] :: c in query;
    if amp < |query| {
      PartsAreParts(query[amp + 1..]);
      assert forall c | c in query[amp + 1..] :: c in query;
    }
  }

  lemma {:induction false} KeptInParts(params: seq<string>)
    ensures forall p :: p in Kept(params) <==> p in params && !StartsWith(p, Needle())
  {
    if params != [] { KeptInParts(params[1..]); }
  }

  lemma KeptAreParts(query: string)
    ensures AreParts(Kept(Parts(query)))
    ensures forall p | p in Kept(Parts(query)) :: !StartsWith(p, Needle())
    ensures forall p, c: char | p in Kept(Parts(query)) && c in p :: c in query
  {
    var kept := Kept(Parts(query));
    PartsAreParts(query);
    KeptInParts(Parts(query));
    forall k | 0 <= k < |kept|
      ensures IsPart(kept[k])
    {
      assert kept[k] in Parts(query);
    }
  }

  lemma PartsSingle(b: string)
    requires '&' !in b
    ensures Parts(b) == if b == "" then [] else [b]
  {
    FindNothing(b, '&');
    assert b[..|b|] == b;
  }

  /** Splitting distributes over a separator. */
  lemma {:induction false} PartsAppend(a: string, b: string)
    requires '&' !in b
    ensures Parts(a + "&" + b) == Parts(a) + if b == "" then [] else [b]
    decreases |a|
  {
    hide Parts;
    var amp, s := Find(a, '&', 0), a + "&" + b;
    PartsFirst(a);
    PartsFirst(s);
    AppendSplits(a, b, amp);
    FindAfter(a[..amp], '&', s[amp + 1..]);
    if amp == |a| {
      PartsSingle(b);
    } else {
      PartsAppend(a[amp + 1..], b);
    }
  }

  lemma AppendSplits(a: string, b: string, k: nat)
    requires k <= |a| && (k < |a| ==> a[k] == '&')
    ensures var s := a + "&" + b;
            && s[..k] == a[..k] && s == a[..k] + ['&'] + s[k + 1..]
            && s[k + 1..] == if k == |a| then b else a[k + 1..] + "&" + b
  {}

  /** Splitting undoes joining. */
  lemma {:induction false} PartsJoin(ps: seq<string>)
    requires AreParts(ps)
    ensures Parts(Join(ps)) == ps
  {
    hide Parts;
    if ps == [] {
      PartsSingle("");
    } else if |ps| == 1 {
      assert IsPart(ps[0]);
      PartsSingle(ps[0]);
    } else {
      var last := |ps| - 1;
      assert IsPart(ps[last]);
      assert ps == ps[..last] + [ps[last]];
      PartsJoin(ps[..last]);
      PartsAppend(Join(ps[..last]), ps[last]);
    }
  }

  // ----- one question mark too many

  /** The parameters after the last one has lost a trailing question mark */
  function Trimmed(ps: seq<string>): seq<string> {
    if ps == [] || !EndsWith(ps[|ps| - 1], '?') then ps
    else ps[..|ps| - 1] + if |ps[|ps| - 1]| == 1 then [] else [Popped(ps[|ps| - 1])]
  }

  lemma PoppedAppend(a: string, p: string)
    requires p != ""
    ensures Popped(a + p) == a + Popped(p)
  {}

  lemma PoppedPart(p: string)
    requires IsPart(p)
    ensures '&' !in Popped(p)
    ensures Popped(p) == "" <==> EndsWith(p, '?') && |p| == 1
    ensures Popped(p) == p <==> !EndsWith(p, '?')
  {}

  lemma PoppedJoin(ps: seq<string>)
    requires ps != [] && AreParts(ps)
    ensures var last := |ps| - 1;
            Popped(Join(ps)) == if last == 0 then Popped(ps[0]) else Join(ps[..last]) + "&" + Popped(ps[last])
  {
    hide Popped, AreParts;
    var last := |ps| - 1;
    LastPart(ps);
    if last > 0 {
      var before := Join(ps[..last]) + "&";
      assert Join(ps) == before + ps[last];
      PoppedAppend(before, ps[last]);
    }
  }

  lemma LastPart(ps: seq<string>)
    requires ps != [] && AreParts(ps)
    ensures IsPart(ps[|ps| - 1]) && AreParts(ps[..|ps| - 1])
    ensures ps == ps[..|ps| - 1] + [ps[|ps| - 1]]
  {}

  /** Reading back a query whose last question mark was removed */
  lemma PartsPopped(ps: seq<string>)
    requires AreParts(ps)
    ensures Parts(Popped(Join(ps))) == Trimmed(ps)
  {
    hide Parts, Join, Popped, EndsWith, AreParts;
    if ps == [] {
      NothingJoined();
      assert Popped("") == "" by { PoppedLast(""); }
      PartsSingle("");
    } else {
      var last := |ps| - 1;
      LastPart(ps);
      PoppedPart(ps[last]);
      PoppedJoin(ps);
      if last == 0 {
        PartsSingle(Popped(ps[0]));
      } else {
        PartsJoin(ps[..last]);
        PartsAppend(Join(ps[..last]), Popped(ps[last]));
      }
    }
  }

  // ----- reading the rewritten URL back

  predicate IsFragment(f: string) {
    f == "" || f[0] == '#'
  }

  predicate Readable(path: string, kept: seq<string>, fragment: string) {
    && '?' !in path && '#' !in path && IsFragment(fragment) && AreParts(kept)
    && (forall p | p in kept :: '#' !in p && !StartsWith(p, Needle()))
  }

  lemma ParsedIsReadable(url: string)
    ensures var parsed := Parse(url); Readable(parsed.path, Kept(parsed.params), parsed.fragment)
  {
    hide Parts, Kept, Needle, StartsWith, AreParts;
    var base := BaseOf(url);
    PathHasNoMark(base);
    KeptAreParts(QueryOf(base));
    assert '#' !in QueryOf(base);
  }

  lemma ParseJoined(path: string, query: string, fragment: string)
    requires '?' !in path && '#' !in path && '#' !in query && IsFragment(fragment)
    ensures Parse(path + "?" + query + fragment) == Url(path, Parts(query), fragment)
  {
    hide Parts;
    var base := path + ['?'] + query;
    var url := base + fragment;
    BaseJoined(base, fragment);
    FindAfter(path, '?', query);
    assert base[..|path|] == path && base[|path| + 1..] == query;
    assert url[|base|..] == fragment;
    assert url == path + "?" + query + fragment;
  }

  lemma BaseJoined(base: string, fragment: string)
    requires '#' !in base && IsFragment(fragment)
    ensures BaseOf(base + fragment) == base
  {
    if fragment == "" {
      FindNothing(base, '#');
      assert base + fragment == base;
    } else {
      FindAfter(base, '#', fragment[1..]);
      assert base + ['#'] + fragment[1..] == base + fragment;
    }
  }

  /** The query of a rewritten URL */
  function BuiltQuery(kept: seq<string>, code: string): string {
    BeforeLang(kept) + (Needle() + code)
  }

  lemma BuiltQueryParts(kept: seq<string>, code: string)
    requires AreParts(kept) && Supported(code)
    ensures Parts(BuiltQuery(kept, code)) == Trimmed(kept) + [Needle() + code]
  {
    hide Parts, Popped, Join, Supported, Trimmed, Needle;
    LangPart(code);
    if kept == [] {
      PartsSingle(Needle() + code);
      assert Trimmed(kept) == [] by { NothingTrimmed(); }
      assert "" + (Needle() + code) == Needle() + code;
    } else {
      PartsPopped(kept);
      PartsAppend(Popped(Join(kept)), Needle() + code);
    }
  }

  lemma NothingTrimmed()
    ensures Trimmed([]) == []
  {}

  lemma LangPart(code: string)
    requires Supported(code)
    ensures IsPart(Needle() + code) && '#' !in Needle() + code && '?' !in Needle() + code
            && StartsWith(Needle() + code, Needle())
  {}

  lemma {:induction false} JoinChars(ps: seq<string>, c: char)
    requires c != '&' && forall p | p in ps :: c !in p
    ensures c !in Join(ps)
  {
    if |ps| > 1 {
      var last := |ps| - 1;
      JoinChars(ps[..last], c);
      assert c !in ps[last];
      assert c !in Join(ps[..last]) + "&";
    } else if |ps| == 1 {
      assert c !in ps[0];
    }
  }

  lemma BuildParses(path: string, kept: seq<string>, fragment: string, code: string)
    requires Readable(path, kept, fragment) && Supported(code)
    ensures Parse(Build(path, kept, fragment, code)) == Url(path, Trimmed(kept) + [Needle() + code], fragment)
  {
    hide Parts, Join, Supported, Trimmed, Needle, AreParts, StartsWith, Parse, Popped;
    var query := BuiltQuery(kept, code);
    JoinChars(kept, '#');
    PoppedChars(Join(kept), '#');
    LangPart(code);
    BuiltQueryParts(kept, code);
    assert '#' !in query;
    ParseJoined(path, query, fragment);
    assert Build(path, kept, fragment, code) == path + "?" + query + fragment;
  }

  lemma PoppedChars(s: string, c: char)
    requires c !in s
    ensures c !in Popped(s)
  {}

  /** The rewritten URL, read back: same path, same fragment, the kept parameters in order, then the locale. */
  lemma RewrittenParses(url: string, locale: string)
    requires url != ""
    ensures var before, after := Parse(url), Parse(Rewritten(url, locale));
            after == Url(before.path, Trimmed(Kept(before.params)) + [Needle() + NormalizeLocaleCode(locale)],
                         before.fragment)
  {
    hide Parse, Kept, Trimmed, Build, NormalizeLocaleCode, Readable;
    var parsed := Parse(url);
    ParsedIsReadable(url);
    NormalizedIsSupported(locale);
    BuildParses(parsed.path, Kept(parsed.params), parsed.fragment, NormalizeLocaleCode(locale));
  }

  /** Trimming is the identity exactly when the last parameter does not end in a question mark. */
  predicate Damages(kept: seq<string>) {
    kept != [] && EndsWith(kept[|kept| - 1], '?')
  }

  lemma TrimmedIff(ps: seq<string>)
    requires AreParts(ps)
    ensures Trimmed(ps) == ps <==> !Damages(ps)
  {
    if ps != [] {
      LastPart(ps);
      PoppedPart(ps[|ps| - 1]);
    }
  }

  /** The other parameters survive exactly when the last of them does not end in a question mark. */
  lemma ParamsKept(url: string, locale: string)
    requires url != ""
    ensures var kept := Kept(Parse(url).params);
            Parse(Rewritten(url, locale)).params == kept + [Needle() + NormalizeLocaleCode(locale)] <==> !Damages(kept)
  {
    hide Parse, Kept, Trimmed, Damages, NormalizeLocaleCode, Rewritten, AreParts, Needle;
    var kept := Kept(Parse(url).params);
    RewrittenParses(url, locale);
    ParsedIsReadable(url);
    TrimmedIff(kept);
    SnocInjective(kept, Trimmed(kept), Needle() + NormalizeLocaleCode(locale));
  }

  lemma SnocInjective(a: seq<string>, b: seq<string>, x: string)
    ensures a + [x] == b + [x] <==> a == b
  {
    assert (a + [x])[..|a|] == a && (b + [x])[..|b|] == b;
  }

  /** A query without a second question mark is never damaged. */
  lemma OneMarkIsEnough(url: string)
    requires '?' !in QueryOf(BaseOf(url))
    ensures !Damages(Kept(Parse(url).params))
  {
    hide Parts, Kept;
    var kept := Kept(Parse(url).params);
    KeptAreParts(QueryOf(BaseOf(url)));
    if kept != [] { assert kept[|kept| - 1] in kept; }
  }

  lemma NeedleIs()
    ensures Needle() == "lang="
  {}

  lemma TrimmedStaysReadable(path: string, kept: seq<string>, fragment: string)
    requires Readable(path, kept, fragment)
    ensures Readable(path, Trimmed(kept), fragment)
  {
    hide Needle;
    if kept != [] {
      var last := kept[|kept| - 1];
      LastPart(kept);
      PoppedPart(last);
      PoppedStarts(last, Needle());
      assert last in kept;
      PoppedChars(last, '#');
      forall p | p in Trimmed(kept)
        ensures '#' !in p && !StartsWith(p, Needle()) && IsPart(p)
      {
        if p in kept { var k :| 0 <= k < |kept| && kept[k] == p; assert IsPart(kept[k]); }
      }
    }
  }

  lemma PoppedStarts(p: string, prefix: string)
    ensures StartsWith(Popped(p), prefix) ==> StartsWith(p, prefix)
  {}

  lemma {:induction false} KeptAll(ps: seq<string>, last: string)
    requires (forall p | p in ps :: !StartsWith(p, Needle())) && StartsWith(last, Needle())
    ensures Kept(ps + [last]) == ps
  {
    hide Needle, StartsWith;
    if ps == [] {
      assert [] + [last] == [last] + [];
      KeptCons(last, []);
      NoneKept();
    } else {
      assert ps[0] in ps;
      assert ps + [last] == [ps[0]] + (ps[1..] + [last]);
      KeptAll(ps[1..], last);
      KeptCons(ps[0], ps[1..] + [last]);
    }
  }

  /** Exactly one parameter names a locale, and it is the last one. */
  lemma OneLang(url: string, locale: string)
    requires url != ""
    ensures var params := Parse(Rewritten(url, locale)).params;
            params != [] && params[|params| - 1] == "lang=" + NormalizeLocaleCode(locale)
            && forall k | 0 <= k < |params| :: StartsWith(params[k], "lang=") <==> k == |params| - 1
  {
    hide Parse, Kept, Trimmed, NormalizeLocaleCode, Rewritten, Needle, StartsWith;
    var parsed := Parse(url);
    var kept := Kept(parsed.params);
    RewrittenParses(url, locale);
    ParsedIsReadable(url);
    TrimmedStaysReadable(parsed.path, kept, parsed.fragment);
    NormalizedIsSupported(locale);
    LangPart(NormalizeLocaleCode(locale));
    NeedleIs();
    assert forall k | 0 <= k < |Trimmed(kept)| :: Trimmed(kept)[k] in Trimmed(kept);
  }

  /** The last kept parameter ends in no question mark, or in one that follows another character. */
  predicate Settled(kept: seq<string>) {
    kept == []
    || var last := kept[|kept| - 1];
       !EndsWith(last, '?') || (|last| >= 2 && last[|last| - 2] != '?')
  }

  lemma TwicePopped(p: string)
    requires IsPart(p)
    ensures Settled([p]) <==> !EndsWith(p, '?') || (Popped(p) != "" && Popped(Popped(p)) == Popped(p))
    ensures |Popped(Popped(p))| <= |Popped(p)| <= |p| && (EndsWith(p, '?') ==> |Popped(p)| == |p| - 1)
  {}

  lemma TrimmedSnoc(before: seq<string>, p: string)
    requires p != ""
    ensures Trimmed(before + [p])
            == if !EndsWith(p, '?') then before + [p] else if |p| == 1 then before else before + [Popped(p)]
    ensures Settled(before + [p]) <==> Settled([p])
  {}

  lemma BeforeLangSnoc(before: seq<string>, p: string)
    requires AreParts(before) && IsPart(p)
    ensures BeforeLang(before + [p]) == (if before == [] then "" else Join(before) + "&") + Popped(p) + "&"
  {
    hide Popped;
    var ps := before + [p];
    assert ps[..|before|] == before;
    PoppedJoin(ps);
  }

  /** A second rewriting finds nothing to repair exactly when the kept parameters are settled. */
  lemma TrimmedTwice(kept: seq<string>)
    requires AreParts(kept)
    ensures BeforeLang(Trimmed(kept)) == BeforeLang(kept) <==> Settled(kept)
  {
    hide Popped, EndsWith, Join, Trimmed, Settled, BeforeLang, AreParts;
    if kept == [] {
      NothingTrimmed();
      assert Settled([]) by { NothingSettled(); }
    } else {
      var before, p := kept[..|kept| - 1], kept[|kept| - 1];
      LastPart(kept);
      TrimmedSnoc(before, p);
      TwicePopped(p);
      PoppedPart(p);
      BeforeLangSnoc(before, p);
      if EndsWith(p, '?') {
        if |p| == 1 {
          BeforeLangShort(before);
        } else {
          BeforeLangSnoc(before, Popped(p));
          Cancel(if before == [] then "" else Join(before) + "&", Popped(p), Popped(Popped(p)), "&");
        }
      }
    }
  }

  lemma NothingSettled()
    ensures Settled([])
  {}

  lemma BeforeLangShort(before: seq<string>)
    ensures |BeforeLang(before)| <= |if before == [] then "" else Join(before) + "&"|
  {}

  /**
   Rewriting twice gives the second locale alone, and rewriting twice with one locale changes
   nothing, exactly when the kept parameters are settled.
   */
  lemma LastWins(url: string, first: string, second: string)
    requires url != ""
    ensures Rewritten(Rewritten(url, first), second) == Rewritten(url, second) <==> Settled(Kept(Parse(url).params))
  {
    hide Parse, Kept, Trimmed, NormalizeLocaleCode, Needle, StartsWith, Popped, Join, Settled, Readable, BeforeLang;
    var parsed := Parse(url);
    var kept, code := Kept(parsed.params), NormalizeLocaleCode(second);
    RewrittenTwice(url, first, second);
    ParsedIsReadable(url);
    ReadableParts(parsed.path, kept, parsed.fragment);
    TrimmedTwice(kept);
    BuildIs(parsed.path, kept, parsed.fragment, code);
    BuildIs(parsed.path, Trimmed(kept), parsed.fragment, code);
    Cancel(parsed.path + "?", BeforeLang(kept), BeforeLang(Trimmed(kept)), Needle() + code + parsed.fragment);
  }

  lemma ReadableParts(path: string, kept: seq<string>, fragment: string)
    requires Readable(path, kept, fragment)
    ensures AreParts(kept) && forall p | p in kept :: !StartsWith(p, Needle())
  {}

  lemma BuildIs(path: string, kept: seq<string>, fragment: string, code: string)
    ensures Build(path, kept, fragment, code) == (path + "?") + BeforeLang(kept) + (Needle() + code + fragment)
  {
    hide Needle, Popped, Join;
  }

  lemma Cancel(a: string, b: string, b': string, c: string)
    ensures a + b + c == a + b' + c <==> b == b'
  {
    var s, s' := a + b + c, a + b' + c;
    assert s[|a|..|s| - |c|] == b && s'[|a|..|s'| - |c|] == b';
  }

  lemma RewrittenTwice(url: string, first: string, second: string)
    requires url != ""
    ensures var parsed := Parse(url);
            Rewritten(Rewritten(url, first), second)
            == Build(parsed.path, Trimmed(Kept(parsed.params)), parsed.fragment, NormalizeLocaleCode(second))
  {
    hide Parse, Kept, Trimmed, NormalizeLocaleCode, Needle, StartsWith, Readable, Build, Supported;
    var parsed := Parse(url);
    var kept, code := Kept(parsed.params), NormalizeLocaleCode(first);
    RewrittenParses(url, first);
    ParsedIsReadable(url);
    TrimmedStaysReadable(parsed.path, kept, parsed.fragment);
    ReadableParts(parsed.path, Trimmed(kept), parsed.fragment);
    NormalizedIsSupported(first);
    LangPart(code);
    KeptAll(Trimmed(kept), Needle() + code);
    BuildNonempty(parsed.path, kept, parsed.fragment, code);
  }

  lemma BuildNonempty(path: string, kept: seq<string>, fragment: string, code: string)
    ensures Build(path, kept, fragment, code) != ""
  {}

  // ----- examples

  /** A URL with a locale already, an empty parameter and a fragment */
  lemma RewrittenExample()
    ensures Rewritten("p?a=b&&lang=ko#f", "zh_HK") == "p?a=b&lang=zh-TW#f"
  {
    hide Parse, Parts, Kept, NormalizeLocaleCode, StartsWith, Needle;
    ExampleParses();
    ExampleLocale();
    NeedleIs();
    KeptCons("a=b", ["lang=ko"]);
    KeptCons("lang=ko", []);
    NoneKept();
    ExampleStarts();
    assert ["a=b"] + ["lang=ko"] == ["a=b", "lang=ko"];
    assert Kept(["a=b", "lang=ko"]) == ["a=b"];
    assert "p" + "?" + "a=b&" + "lang=" + "zh-TW" + "#f" == "p?a=b&lang=zh-TW#f";
  }

  lemma ExampleStarts()
    ensures !StartsWith("a=b", Needle()) && StartsWith("lang=ko", Needle())
  {
    assert "a=b"[0] == 'a' && Needle()[0] == 'l';
  }

  lemma ExampleParses()
    ensures Parse("p?a=b&&lang=ko#f") == Url("p", ["a=b", "lang=ko"], "#f")
  {
    hide Parse, Parts;
    ParseJoined("p", "a=b&&lang=ko", "#f");
    assert "p" + "?" + "a=b&&lang=ko" + "#f" == "p?a=b&&lang=ko#f";
    PartsAppend("a=b&", "lang=ko");
    PartsAppend("a=b", "");
    PartsSingle("a=b");
    assert "a=b&" + "&" + "lang=ko" == "a=b&&lang=ko" && "a=b" + "&" + "" == "a=b&";
    assert ["a=b"] + [] + ["lang=ko"] == ["a=b", "lang=ko"];
  }

  lemma ExampleLocale()
    ensures NormalizeLocaleCode("zh_HK") == "zh-TW"
  {
    hide NormalizeLocaleCode;
    WhichLocale("zh_HK");
    assert Lower("zh_HK") == "zh-hk";
  }

  // ----- two URLs the conditions exclude

  lemma QueryOfOnePart(path: string, part: string)
    requires '?' !in path && '#' !in path && '#' !in part && IsPart(part) && !StartsWith(part, Needle())
    ensures var url := path + "?" + part;
            url != "" && Parse(url).path == path && Kept(Parse(url).params) == [part] && Parse(url).fragment == ""
  {
    hide Parse, Parts, Needle, StartsWith;
    assert path + "?" + part + "" == path + "?" + part;
    ParseJoined(path, part, "");
    PartsSingle(part);
    KeptCons(part, []);
    NoneKept();
  }

  /** The parameter q? becomes q. */
  lemma DamagedUrl(locale: string)
    ensures Rewritten("p?q?", locale) == "p?q&" + Needle() + NormalizeLocaleCode(locale)
  {
    hide Parse, NormalizeLocaleCode, Kept;
    assert "p" + "?" + "q?" == "p?q?";
    QueryOfOnePart("p", "q?");
    assert Popped("q?") == "q";
  }

  /** Rewriting this URL twice is not the same as rewriting it once. */
  lemma UnsettledUrl(locale: string)
    ensures Rewritten(Rewritten("p?q??", locale), locale) != Rewritten("p?q??", locale)
  {
    hide Parse, NormalizeLocaleCode, Kept, Rewritten;
    assert "p" + "?" + "q??" == "p?q??";
    QueryOfOnePart("p", "q??");
    LastWins("p?q??", locale, locale);
  }
}
