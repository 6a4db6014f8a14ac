/**
 The proxy auto-configuration script of crates/eggress-admin/src/pac.rs: string
 escaping against the string-literal grammar of JavaScript (section 12.9.4 of
 ECMA-262), and the whole script against a reader of its shape. A Dafny `char`
 is a Unicode scalar value, like Rust's; the value of a JavaScript literal is a
 sequence of UTF-16 code units.
 */
module PacScript {
  import opened Common
  import opened Ordering

  // ----- Code units -----

  function CodePoint(n: nat): seq<nat> {
    if n < 0x1_0000 then [n] else [0xD800 + (n - 0x1_0000) / 0x400, 0xDC00 + (n - 0x1_0000) % 0x400]
  }

  function Utf16(c: char): seq<nat> {
    CodePoint(c as int)
  }

  function Units(s: string): seq<nat> {
    if s == "" then [] else Utf16(s[0]) + Units(s[1..])
  }

  /** Different strings have different code units, so nothing is lost in `Units`. */
  lemma {:induction false} UnitsInjective(a: string, b: string)
    requires Units(a) == Units(b)
    ensures a == b
  {
    if a == "" || b == "" {
    } else {
      assert Units(a)[0] == Utf16(a[0])[0] && Units(b)[0] == Utf16(b[0])[0];
      assert |Utf16(a[0])| == |Utf16(b[0])|;
      assert Utf16(a[0]) == Units(a)[..|Utf16(a[0])|] && Utf16(b[0]) == Units(b)[..|Utf16(b[0])|];
      assert a[0] as int == b[0] as int;
      assert Units(a[1..]) == Units(a)[|Utf16(a[0])|..] && Units(b[1..]) == Units(b)[|Utf16(b[0])|..];
      UnitsInjective(a[1..], b[1..]);
      assert a == [a[0]] + a[1..] && b == [b[0]] + b[1..];
    }
  }

  // ----- Escaping -----

  /** `{:04x}` */
  function Hex4(n: nat): (r: string)
    requires n < 0x1_0000
    ensures |r| == 4
  {
    [HexDigit(n / 4096), HexDigit(n / 256 % 16), HexDigit(n / 16 % 16), HexDigit(n % 16)]
  }

  function EscapeChar(c: char): string {
    if c == '\\' then "\\\\"
    else if c == '\"' then "\\\""
    else if c == '\n' then "\\n"
    else if c == '\r' then "\\r"
    else if c == '\t' then "\\t"
    else if c == '\U{2028}' then "\\u2028"
    else if c == '\U{2029}' then "\\u2029"
    else if c as int < 0x20 then "\\u" + Hex4(c as int)
    else [c]
  }

  function Escape(s: string): string {
    if s == "" then "" else EscapeChar(s[0]) + Escape(s[1..])
  }

  lemma {:induction false} EscapeConcat(a: string, b: string)
    ensures Escape(a + b) == Escape(a) + Escape(b)
  {
    if a == "" {
      assert a + b == b;
    } else {
      assert (a + b)[1..] == a[1..] + b;
      EscapeConcat(a[1..], b);
      assert EscapeChar(a[0]) + (Escape(a[1..]) + Escape(b)) == (EscapeChar(a[0]) + Escape(a[1..])) + Escape(b);
    }
  }

  /** The characters with an escape of their own. */
  lemma ShortEscapes()
    ensures EscapeChar('\n') == "\\n" && EscapeChar('\r') == "\\r" && EscapeChar('\t') == "\\t"
    ensures EscapeChar('\"') == "\\\"" && EscapeChar('\\') == "\\\\"
  {
  }

  ghost predicate Printable(s: string) {
    forall i :: 0 <= i < |s| ==> s[i] as int >= 0x20 && s[i] as int != 0x2028 && s[i] as int != 0x2029
  }

  lemma CharIsPrintable(c: char)
    ensures Printable(EscapeChar(c))
  {
    if c as int < 0x20 && c !in "\n\r\t" {
      assert EscapeChar(c) == "\\u" + Hex4(c as int);
    }
  }

  /** No control character and no line terminator gets into the script, whatever is escaped. */
  lemma {:induction false} EscapedIsPrintable(s: string)
    ensures Printable(Escape(s))
  {
    if s == "" {
    } else {
      hide EscapeChar;
      CharIsPrintable(s[0]);
      EscapedIsPrintable(s[1..]);
    }
  }

  method JsEscape(s: string) returns (result: string)
    ensures result == Escape(s)
  {
    result := "";
    for i := 0 to |s|
      invariant result == Escape(s[..i])
    {
      assert s[..i + 1] == s[..i] + [s[i]];
      EscapeConcat(s[..i], [s[i]]);
      assert Escape([s[i]]) == EscapeChar(s[i]) + Escape([s[i]][1..]);
      result := result + EscapeChar(s[i]);
    }
    assert s[..|s|] == s;
  }

  // ----- Reading string literals -----

  function HexValue(c: char): Option<nat> {
    if '0' <= c <= '9' then Some(c as int - '0' as int)
    else if 'a' <= c <= 'f' then Some(10 + c as int - 'a' as int)
    else if 'A' <= c <= 'F' then Some(10 + c as int - 'A' as int)
    else None
  }

  /** The number written by a run of hexadecimal digits. */
  function HexNumber(s: string): Option<nat> {
    if s == "" then Some(0)
    else
      var high, low := HexNumber(s[..|s| - 1]), HexValue(s[|s| - 1]);
      if high.Some? && low.Some? then Some(16 * high.value + low.value) else None
  }

  function IndexOf(s: string, c: char): (i: nat)
    ensures i <= |s| && (i < |s| ==> s[i] == c)
  {
    if s == "" || s[0] == c then 0 else 1 + IndexOf(s[1..], c)
  }

  /** What follows a backslash: the code units it stands for and how many characters it takes. */
  function EscapeSequence(s: string): (r: Option<(seq<nat>, nat)>)
    ensures r.Some? ==> 0 < r.value.1 <= |s|
  {
    if s == "" then None
    else if s[0] == 'n' then Some(([10], 1))
    else if s[0] == 'r' then Some(([13], 1))
    else if s[0] == 't' then Some(([9], 1))
    else if s[0] == 'b' then Some(([8], 1))
    else if s[0] == 'v' then Some(([11], 1))
    else if s[0] == 'f' then Some(([12], 1))
    else if s[0] == '0' && !(|s| > 1 && '0' <= s[1] <= '9') then Some(([0], 1))
    else if '0' <= s[0] <= '9' then None
    else if s[0] == 'x' then
      if |s| < 3 || HexNumber(s[1..3]).None? then None else Some(([HexNumber(s[1..3]).value], 3))
    else if s[0] == 'u' && |s| > 1 && s[1] == '{' then
      var close := IndexOf(s, '}');
      if close == |s| || close < 3 || HexNumber(s[2..close]).None? || HexNumber(s[2..close]).value > 0x10FFFF then None
      else Some((CodePoint(HexNumber(s[2..close]).value), close + 1))
    else if s[0] == 'u' then
      if |s| < 5 || HexNumber(s[1..5]).None? then None else Some(([HexNumber(s[1..5]).value], 5))
    else if s[0] == '\r' && |s| > 1 && s[1] == '\n' then Some(([], 2))
    else if s[0] in {'\n', '\r', '\U{2028}', '\U{2029}'} then Some(([], 1))
    else Some((Utf16(s[0]), 1))
  }

  /**
   A double-quoted literal, from after its opening quote: its value and what
   follows the closing quote. Under the rules before ES2019 the separators
   U+2028 and U+2029 end a line as well and may not appear unescaped.
   */
  function Literal(s: string, oldRules: bool): (r: Option<(seq<nat>, string)>)
    ensures r.Some? ==> |r.value.1| < |s|
    decreases |s|
  {
    if s == "" || s[0] == '\n' || s[0] == '\r' then None
    else if oldRules && (s[0] == '\U{2028}' || s[0] == '\U{2029}') then None
    else if s[0] == '\"' then Some(([], s[1..]))
    else if s[0] == '\\' then
      var e := EscapeSequence(s[1..]);
      if e.None? then None else Prefixed(e.value.0, Literal(s[1 + e.value.1..], oldRules))
    else Prefixed(Utf16(s[0]), Literal(s[1..], oldRules))
  }

  function Prefixed(units: seq<nat>, r: Option<(seq<nat>, string)>): Option<(seq<nat>, string)> {
    if r.None? then None else Some((units + r.value.0, r.value.1))
  }

  lemma HexDigitValue(d: nat)
    requires d < 16
    ensures HexValue(HexDigit(d)) == Some(d)
  {
  }

  lemma HexSnoc(s: string, v: nat, d: nat)
    requires HexNumber(s) == Some(v) && d < 16
    ensures HexNumber(s + [HexDigit(d)]) == Some(16 * v + d)
  {
    HexDigitValue(d);
    assert (s + [HexDigit(d)])[..|s|] == s;
  }

  lemma Nibbles(n: nat)
    ensures 16 * (16 * (16 * (n / 4096) + n / 256 % 16) + n / 16 % 16) + n % 16 == n
  {
    assert n / 256 == n / 16 / 16;
    assert n / 4096 == n / 256 / 16;
  }

  lemma Hex4Value(n: nat)
    requires n < 0x1_0000
    ensures HexNumber(Hex4(n)) == Some(n)
  {
    hide HexNumber, HexValue, HexDigit;
    var a, b, c, d := n / 4096, n / 256 % 16, n / 16 % 16, n % 16;
    EmptyHex();
    HexSnoc("", 0, a);
    HexSnoc("" + [HexDigit(a)], a, b);
    HexSnoc("" + [HexDigit(a)] + [HexDigit(b)], 16 * a + b, c);
    HexSnoc("" + [HexDigit(a)] + [HexDigit(b)] + [HexDigit(c)], 16 * (16 * a + b) + c, d);
    assert Hex4(n) == "" + [HexDigit(a)] + [HexDigit(b)] + [HexDigit(c)] + [HexDigit(d)];
    Nibbles(n);
  }

  lemma EmptyHex()
    ensures HexNumber("") == Some(0)
  {
  }

  lemma EscapedUnitReads(n: nat, rest: string, oldRules: bool)
    requires n < 0x1_0000
    ensures Literal("\\u" + Hex4(n) + rest, oldRules) == Prefixed([n], Literal(rest, oldRules))
  {
    var s := "\\u" + Hex4(n) + rest;
    var t := s[1..];
    assert t == "u" + Hex4(n) + rest;
    assert t[1] == HexDigit(n / 4096) && t[1] != '{';
    assert t[1..5] == Hex4(n);
    Hex4Value(n);
    hide HexNumber, Hex4;
    assert EscapeSequence(t) == Some(([n], 5));
    assert s[6..] == rest;
  }

  /** One escaped character reads back as that character, whatever follows. */
  lemma EscapedCharReads(c: char, rest: string, oldRules: bool)
    ensures Literal(EscapeChar(c) + rest, oldRules) == Prefixed(Utf16(c), Literal(rest, oldRules))
  {
    hide HexNumber, Hex4;
    var e := EscapeChar(c);
    var s := e + rest;
    if |e| == 1 {
      assert s[1..] == rest;
    } else if |e| == 2 {
      ShortEscapeReads(c, rest, oldRules);
    } else {
      LongEscape(c);
      EscapedUnitReads(c as int, rest, oldRules);
    }
  }

  lemma LongEscape(c: char)
    requires |EscapeChar(c)| > 2
    ensures c as int < 0x1_0000 && EscapeChar(c) == "\\u" + Hex4(c as int)
  {
    assert Hex4(0x2028) == "2028" && Hex4(0x2029) == "2029";
  }

  lemma ShortEscapeReads(c: char, rest: string, oldRules: bool)
    requires |EscapeChar(c)| == 2
    ensures Literal(EscapeChar(c) + rest, oldRules) == Prefixed(Utf16(c), Literal(rest, oldRules))
  {
    hide HexNumber, Hex4;
    var e := EscapeChar(c);
    var s := e + rest;
    assert s[0] == '\\' && s[1..][0] == e[1];
    assert s[2..] == rest;
  }

  /** Reading an escaped string stops exactly at the closing quote and yields the string. */
  lemma {:induction false} EscapedReads(s: string, rest: string, oldRules: bool)
    ensures Literal(Escape(s) + "\"" + rest, oldRules) == Some((Units(s), rest))
  {
    if s == "" {
      assert Escape(s) + "\"" + rest == "\"" + rest;
      assert ("\"" + rest)[1..] == rest;
    } else {
      EscapedReads(s[1..], rest, oldRules);
      var tail := Escape(s[1..]) + "\"" + rest;
      EscapedCharReads(s[0], tail, oldRules);
      assert Escape(s) + "\"" + rest == EscapeChar(s[0]) + tail;
    }
  }

  // ----- The script -----

  datatype PacConfig = PacConfig(
    proxyDirective: string, directFallback: bool, directHosts: seq<string>, directSuffixes: seq<string>)

  const HEAD := "function FindProxyForURL(url, host) {\n" + "  if (isPlainHostName(host)) return \"DIRECT\";\n"
  const RETURN := "  return \""
  const TAIL := ";\n}\n"

  /** The two arrays of a script. */
  datatype Array = Hosts | Suffixes

  function OpenText(a: Array): string {
    if a.Hosts? then "  var directHosts = [" else "  var directSuffixes = ["
  }

  function ForLine(a: Array): string {
    if a.Hosts? then "  for (var i = 0; i < directHosts.length; i++) {\n"
    else "  for (var i = 0; i < directSuffixes.length; i++) {\n"
  }

  function IfLine(a: Array): string {
    if a.Hosts? then
      "    if (" + ("host == directHosts[i]" + (" || " + ("shExpMatch(host, \"*.\" + directHosts[i])" + ")\n")))
    else
      "    if (" + ("shExpMatch(host, \"*.\" + directSuffixes[i])" + ")\n")
  }

  /** What follows the closing bracket of an array. */
  function LoopText(a: Array): string {
    ";\n" + (ForLine(a) + (IfLine(a) + ("      return \"DIRECT\";\n" + "  }\n")))
  }

  function Quoted(s: string): string {
    "\"" + Escape(s) + "\""
  }

  function ItemList(items: seq<string>): string {
    if items == [] then ""
    else if |items| == 1 then Quoted(items[0])
    else Quoted(items[0]) + ", " + ItemList(items[1..])
  }

  function Section(a: Array, items: seq<string>): string {
    if items == [] then "" else OpenText(a) + ItemList(items) + "]" + LoopText(a)
  }

  /** What the final `return` hands to the browser. */
  function Directive(config: PacConfig): string {
    "PROXY " + config.proxyDirective + if config.directFallback then "; DIRECT" else ""
  }

  function PacText(config: PacConfig): string {
    HEAD
    + Section(Hosts, SortedStrings(config.directHosts))
    + Section(Suffixes, SortedStrings(config.directSuffixes))
    + RETURN + "PROXY " + Escape(config.proxyDirective) + (if config.directFallback then "; DIRECT\"" else "\"") + TAIL
  }

  lemma {:induction false} ItemListSnoc(items: seq<string>, x: string)
    requires items != []
    ensures ItemList(items + [x]) == ItemList(items) + ", " + Quoted(x)
  {
    hide Quoted;
    if |items| > 1 {
      assert (items + [x])[1..] == items[1..] + [x];
      ItemListSnoc(items[1..], x);
      var q, rest, last := Quoted(items[0]) + ", ", ItemList(items[1..]), ", " + Quoted(x);
      assert ItemList(items + [x]) == q + (rest + last);
      assert (q + rest) + last == q + (rest + last);
    } else {
      assert items + [x] == [items[0], x];
      assert [items[0], x][1..] == [x];
    }
  }

  method Quote(s: string) returns (quoted: string)
    ensures quoted == Quoted(s)
  {
    var escaped := JsEscape(s);
    quoted := "\"" + escaped + "\"";
  }

  /** The loop that writes one array. */
  method PushItems(items: seq<string>) returns (body: string)
    ensures body == ItemList(items)
  {
    hide Quoted, Escape;
    body := "";
    for i := 0 to |items|
      invariant body == ItemList(items[..i])
    {
      if i > 0 {
        body := body + ", ";
        ItemListSnoc(items[..i], items[i]);
      }
      assert items[..i + 1] == items[..i] + [items[i]];
      var quoted := Quote(items[i]);
      body := body + quoted;
    }
    assert items[..|items|] == items;
  }

  method GeneratePac(config: PacConfig) returns (body: string)
    ensures body == PacText(config)
  {
    hide Escape, ItemList, SortedStrings, OpenText, LoopText;
    body := HEAD;
    var hosts := SortedStrings(config.directHosts);
    ghost var section := "";
    if hosts != [] {
      var items := PushItems(hosts);
      section := OpenText(Hosts) + items + "]" + LoopText(Hosts);
      body := body + (OpenText(Hosts) + items + "]" + LoopText(Hosts));
    }
    assert body == HEAD + section;
    var suffixes := SortedStrings(config.directSuffixes);
    ghost var section' := "";
    if suffixes != [] {
      var items := PushItems(suffixes);
      section' := OpenText(Suffixes) + items + "]" + LoopText(Suffixes);
      body := body + (OpenText(Suffixes) + items + "]" + LoopText(Suffixes));
    }
    assert body == HEAD + section + section';
    var proxy := JsEscape(config.proxyDirective);
    body := body + RETURN + "PROXY " + proxy + (if config.directFallback then "; DIRECT\"" else "\"") + TAIL;
  }

  // ----- Reading the script back -----

  function Strip(s: string, prefix: string): Option<string> {
    if prefix <= s then Some(s[|prefix|..]) else None
  }

  /** The string literals of an array, from its first one to behind its closing bracket. */
  function Items(s: string, oldRules: bool): Option<(seq<seq<nat>>, string)>
    decreases |s|
  {
    if s == "" || s[0] != '\"' then None
    else
      var first := Literal(s[1..], oldRules);
      if first.None? || |first.value.1| < 1 then None
      else
        var (value, rest) := first.value;
        if rest[0] == ']' then Some(([value], rest[1..]))
        else if |rest| >= 2 && rest[..2] == ", " then
          var others := Items(rest[2..], oldRules);
          if others.None? then None else Some(([value] + others.value.0, others.value.1))
        else None
  }

  /** A condition on the host and the current element of the array. */
  datatype Test = Equals | Matches

  function ForText(a: Array): string {
    if a.Hosts? then "  for (var i = 0; i < directHosts.length; i++) {\n"
    else "  for (var i = 0; i < directSuffixes.length; i++) {\n"
  }

  function VarText(a: Array): string {
    if a.Hosts? then "  var directHosts = [" else "  var directSuffixes = ["
  }

  function EqualsText(a: Array): string {
    if a.Hosts? then "host == directHosts[i]" else "host == directSuffixes[i]"
  }

  function MatchesText(a: Array): string {
    if a.Hosts? then "shExpMatch(host, \"*.\" + directHosts[i])" else "shExpMatch(host, \"*.\" + directSuffixes[i])"
  }

  function ReadTest(s: string, a: Array): (r: Option<(Test, string)>)
    ensures r.Some? ==> |r.value.1| < |s|
  {
    var equals, matches := Strip(s, EqualsText(a)), Strip(s, MatchesText(a));
    if equals.Some? then Some((Equals, equals.value))
    else if matches.Some? then Some((Matches, matches.value))
    else None
  }

  /** Tests joined by `||`. */
  function ReadTests(s: string, a: Array): Option<(seq<Test>, string)>
    decreases |s|
  {
    var first := ReadTest(s, a);
    if first.None? then None
    else
      var more := Strip(first.value.1, " || ");
      if more.None? then Some(([first.value.0], first.value.1))
      else
        var others := ReadTests(more.value, a);
        if others.None? then None else Some(([first.value.0] + others.value.0, others.value.1))
  }

  /** The loop over an array: the tests of which one is enough for a direct connection. */
  function ReadLoop(s: string, a: Array): Option<(seq<Test>, string)> {
    var head := StripAll(s, [";\n", ForText(a), "    if ("]);
    if head.None? then None
    else
      var tests := ReadTests(head.value, a);
      if tests.None? then None
      else
        var rest := StripAll(tests.value.1, [")\n", "      return \"DIRECT\";\n", "  }\n"]);
        if rest.None? then None else Some((tests.value.0, rest.value))
  }

  function StripAll(s: string, prefixes: seq<string>): Option<string> {
    if prefixes == [] then Some(s)
    else
      var rest := Strip(s, prefixes[0]);
      if rest.None? then None else StripAll(rest.value, prefixes[1..])
  }

  /** A loop over the strings of an array that returns "DIRECT" when one of the tests holds for one of them. */
  datatype Loop = Loop(items: seq<seq<nat>>, tests: seq<Test>)

  /** An array and the loop over it, or nothing when the script does not continue with that array. */
  function ReadSection(s: string, a: Array, oldRules: bool): Option<(Loop, string)> {
    var inner := Strip(s, VarText(a));
    if inner.None? then Some((Loop([], []), s))
    else
      var items := Items(inner.value, oldRules);
      if items.None? then None
      else
        var rest := ReadLoop(items.value.1, a);
        if rest.None? then None else Some((Loop(items.value.0, rest.value.0), rest.value.1))
  }

  datatype Script = Script(hosts: Loop, suffixes: Loop, directive: seq<nat>)

  /** The whole script, which has to end where its last brace does. */
  function ReadPac(text: string, oldRules: bool): Option<Script> {
    var body := StripAll(text,
      ["function FindProxyForURL(url, host) {\n", "  if (isPlainHostName(host)) return \"DIRECT\";\n"]);
    if body.None? then None
    else
      var hosts := ReadSection(body.value, Hosts, oldRules);
      if hosts.None? then None
      else
        var suffixes := ReadSection(hosts.value.1, Suffixes, oldRules);
        if suffixes.None? then None
        else
          var last := Strip(suffixes.value.1, "  return \"");
          if last.None? then None
          else
            var directive := Literal(last.value, oldRules);
            if directive.None? || directive.value.1 != ";\n}\n" then None
            else Some(Script(hosts.value.0, suffixes.value.0, directive.value.0))
  }

  // ----- Running the script -----

  predicate Holds(test: Test, host: seq<nat>, item: seq<nat>, shExpMatch: (seq<nat>, seq<nat>) -> bool) {
    match test
    case Equals => host == item
    case Matches => shExpMatch(host, Units("*.") + item)
  }

  predicate Fires(loop: Loop, host: seq<nat>, shExpMatch: (seq<nat>, seq<nat>) -> bool) {
    exists i, j :: 0 <= i < |loop.items| && 0 <= j < |loop.tests| &&
      Holds(loop.tests[j], host, loop.items[i], shExpMatch)
  }

  /** `FindProxyForURL`; whether the host is plain and what `shExpMatch` says is up to the browser. */
  function FindProxy(
      script: Script, host: seq<nat>, isPlain: bool, shExpMatch: (seq<nat>, seq<nat>) -> bool): seq<nat> {
    if isPlain then Units("DIRECT")
    else if Fires(script.hosts, host, shExpMatch) then Units("DIRECT")
    else if Fires(script.suffixes, host, shExpMatch) then Units("DIRECT")
    else script.directive
  }

  function AllUnits(items: seq<string>): seq<seq<nat>> {
    if items == [] then [] else [Units(items[0])] + AllUnits(items[1..])
  }

  lemma StripSelf(prefix: string, rest: string)
    ensures Strip(prefix + rest, prefix) == Some(rest)
  {
    assert (prefix + rest)[|prefix|..] == rest;
  }

  lemma QuotedReads(x: string, after: string, oldRules: bool)
    ensures var s := Quoted(x) + after; s[0] == '\"' && Literal(s[1..], oldRules) == Some((Units(x), after))
  {
    hide Literal, Escape, Units;
    var s := Quoted(x) + after;
    assert s[1..] == Escape(x) + "\"" + after;
    EscapedReads(x, after, oldRules);
  }

  /** An emitted array reads back to exactly its items. */
  lemma {:induction false} ItemsRead(items: seq<string>, rest: string, oldRules: bool)
    requires items != []
    ensures Items(ItemList(items) + "]" + rest, oldRules) == Some((AllUnits(items), rest))
  {
    hide Literal, Quoted, Units;
    var s := ItemList(items) + "]" + rest;
    if |items| == 1 {
      var after := "]" + rest;
      assert s == Quoted(items[0]) + after;
      QuotedReads(items[0], after, oldRules);
      assert after[0] == ']' && after[1..] == rest;
      assert items[1..] == [] && AllUnits(items) == [Units(items[0])];
    } else {
      var others := ItemList(items[1..]) + "]" + rest;
      var after := ", " + others;
      assert s == Quoted(items[0]) + after;
      QuotedReads(items[0], after, oldRules);
      assert after[0] == ',' && after[..2] == ", " && after[2..] == others;
      ItemsRead(items[1..], rest, oldRules);
    }
  }

  lemma StripThree(a: string, b: string, c: string, rest: string)
    ensures StripAll(a + (b + (c + rest)), [a, b, c]) == Some(rest)
  {
    hide Strip;
    StripSelf(a, b + (c + rest));
    StripTwo(b, c, rest);
    assert [a, b, c][1..] == [b, c];
  }

  lemma StripTwo(a: string, b: string, rest: string)
    ensures StripAll(a + (b + rest), [a, b]) == Some(rest)
  {
    hide Strip;
    StripSelf(a, b + rest);
    StripSelf(b, rest);
    assert [a, b][1..] == [b] && [b][1..] == [];
    assert StripAll(b + rest, [b]) == StripAll(rest, []);
  }

  /** The tests that decide over the elements of each array. */
  function Tests(a: Array): seq<Test> {
    if a.Hosts? then [Equals, Matches] else [Matches]
  }

  lemma EqualsReads(a: Array, rest: string)
    ensures ReadTest(EqualsText(a) + rest, a) == Some((Equals, rest))
  {
    StripSelf(EqualsText(a), rest);
  }

  lemma FirstCharacters(a: Array)
    ensures |EqualsText(a)| > 0 && |MatchesText(a)| > 0 && EqualsText(a)[0] == 'h' && MatchesText(a)[0] == 's'
  {
    if a.Hosts? {
      assert EqualsText(a) == "host == directHosts[i]";
      assert MatchesText(a) == "shExpMatch(host, \"*.\" + directHosts[i])";
    } else {
      assert EqualsText(a) == "host == directSuffixes[i]";
      assert MatchesText(a) == "shExpMatch(host, \"*.\" + directSuffixes[i])";
    }
  }

  lemma MatchesReads(a: Array, rest: string)
    ensures ReadTest(MatchesText(a) + rest, a) == Some((Matches, rest))
  {
    FirstCharacters(a);
    hide MatchesText, EqualsText;
    StripSelf(MatchesText(a), rest);
  }

  /** A last test is followed by the closing parenthesis. */
  lemma LastTestReads(a: Array, rest: string)
    ensures ReadTests(MatchesText(a) + (")\n" + rest), a) == Some(([Matches], ")\n" + rest))
  {
    hide ReadTest, MatchesText;
    MatchesReads(a, ")\n" + rest);
    assert (")\n" + rest)[0] == ')' && " || "[0] == ' ';
  }

  lemma BothTestsRead(a: Array, rest: string)
    ensures ReadTests(EqualsText(a) + (" || " + (MatchesText(a) + (")\n" + rest))), a)
         == Some(([Equals, Matches], ")\n" + rest))
  {
    hide ReadTest, MatchesText, EqualsText;
    var tail := MatchesText(a) + (")\n" + rest);
    EqualsReads(a, " || " + tail);
    StripSelf(" || ", tail);
    LastTestReads(a, rest);
    assert [Equals] + [Matches] == [Equals, Matches];
    assert ReadTests(EqualsText(a) + (" || " + tail), a) ==
      var others := ReadTests(tail, a);
      if others.None? then None else Some(([Equals] + others.value.0, others.value.1));
  }

  /** The text of a loop from behind its opening parenthesis on. */
  function Condition(a: Array, rest: string): string {
    if a.Hosts? then EqualsText(a) + (" || " + (MatchesText(a) + (")\n" + rest))) else MatchesText(a) + (")\n" + rest)
  }

  lemma ConditionReads(a: Array, rest: string)
    ensures ReadTests(Condition(a, rest), a) == Some((Tests(a), ")\n" + rest))
  {
    hide ReadTests, MatchesText, EqualsText;
    BothTestsRead(a, rest);
    LastTestReads(a, rest);
  }

  lemma IfLineIsCondition(a: Array, rest: string)
    ensures IfLine(a) + rest == "    if (" + Condition(a, rest)
  {
    var e, m := EqualsText(a), MatchesText(a);
    if a.Hosts? {
      assert IfLine(a) == "    if (" + (e + (" || " + (m + ")\n")));
      hide IfLine, EqualsText, MatchesText;
      Assoc("    if (", e + (" || " + (m + ")\n")), rest);
      Assoc(e, " || " + (m + ")\n"), rest);
      Assoc(" || ", m + ")\n", rest);
      Assoc(m, ")\n", rest);
    } else {
      assert IfLine(a) == "    if (" + (m + ")\n");
      hide IfLine, EqualsText, MatchesText;
      Assoc("    if (", m + ")\n", rest);
      Assoc(m, ")\n", rest);
    }
  }

  lemma LoopIsText(a: Array, rest: string)
    ensures LoopText(a) + rest ==
      ";\n" + (ForText(a) + ("    if (" + Condition(a, "      return \"DIRECT\";\n" + ("  }\n" + rest))))
  {
    assert ForLine(a) == ForText(a);
    var f, i, r, e := ForText(a), IfLine(a), "      return \"DIRECT\";\n", "  }\n";
    assert LoopText(a) == ";\n" + (f + (i + (r + e)));
    IfLineIsCondition(a, r + (e + rest));
    hide IfLine, ForText, ForLine, Condition, LoopText;
    Assoc(";\n", f + (i + (r + e)), rest);
    Assoc(f, i + (r + e), rest);
    Assoc(i, r + e, rest);
    Assoc(r, e, rest);
  }

  lemma LoopReads(a: Array, rest: string)
    ensures ReadLoop(LoopText(a) + rest, a) == Some((Tests(a), rest))
  {
    var r, e := "      return \"DIRECT\";\n", "  }\n";
    LoopIsText(a, rest);
    hide LoopText, ForText, Condition, ReadTests, StripAll;
    StripThree(";\n", ForText(a), "    if (", Condition(a, r + (e + rest)));
    ConditionReads(a, r + (e + rest));
    StripThree(")\n", r, e, rest);
  }

  /** The loop over a list of strings; no loop is written for an empty list. */
  function LoopOver(a: Array, items: seq<string>): Loop {
    if items == [] then Loop([], []) else Loop(AllUnits(items), Tests(a))
  }

  lemma SectionIsText(a: Array, items: seq<string>, rest: string)
    requires items != []
    ensures Section(a, items) + rest == VarText(a) + (ItemList(items) + "]" + (LoopText(a) + rest))
  {
    hide ItemList, LoopText, VarText, OpenText;
    SameOpening(a);
    Regroup(OpenText(a), ItemList(items), "]", LoopText(a), rest);
  }

  lemma SameOpening(a: Array)
    ensures OpenText(a) == VarText(a)
  {
  }

  lemma Regroup(a: string, b: string, c: string, d: string, e: string)
    ensures a + b + c + d + e == a + (b + c + (d + e))
  {
  }

  lemma NotStripped(prefix: string, s: string)
    requires !(prefix <= s)
    ensures Strip(s, prefix) == None
  {
  }

  lemma SectionReads(a: Array, items: seq<string>, rest: string, oldRules: bool)
    requires !(VarText(a) <= rest)
    ensures ReadSection(Section(a, items) + rest, a, oldRules)
         == Some((LoopOver(a, items), rest))
  {
    hide Items, ItemList, LoopText, ReadLoop, OpenText, VarText, AllUnits, Tests, Strip;
    if items == [] {
      assert Section(a, items) + rest == rest;
      NotStripped(VarText(a), rest);
    } else {
      var written := ItemList(items) + "]" + (LoopText(a) + rest);
      SectionIsText(a, items, rest);
      hide Section;
      StripSelf(VarText(a), written);
      ItemsRead(items, LoopText(a) + rest, oldRules);
      LoopReads(a, rest);
    }
  }

  /** Characters that need no escape. */
  ghost predicate Plain(s: string) {
    forall i :: 0 <= i < |s| ==> EscapeChar(s[i]) == [s[i]]
  }

  lemma {:induction false} PlainEscapes(s: string)
    requires Plain(s)
    ensures Escape(s) == s
  {
    if s == "" {
    } else {
      PlainEscapes(s[1..]);
      assert s == [s[0]] + s[1..];
    }
  }

  lemma DirectiveEscapes(config: PacConfig)
    ensures Escape(Directive(config)) ==
      "PROXY " + Escape(config.proxyDirective) + if config.directFallback then "; DIRECT" else ""
  {
    assert Plain("PROXY ") && Plain("; DIRECT");
    PlainEscapes("PROXY ");
    PlainEscapes("; DIRECT");
    hide Escape;
    var tail := if config.directFallback then "; DIRECT" else "";
    assert Escape(tail) == tail by { EmptyEscape(); }
    EscapeConcat("PROXY " + config.proxyDirective, tail);
    EscapeConcat("PROXY ", config.proxyDirective);
  }

  lemma EmptyEscape()
    ensures Escape("") == ""
  {
  }

  /**
   For every configuration, the generated script reads back as a script whose
   loops run over the sorted hosts and suffixes and whose final value is the
   proxy directive: no string can break out of its literal.
   */
  lemma PacReadsBack(config: PacConfig, oldRules: bool)
    ensures ReadPac(PacText(config), oldRules) ==
      Some(Script(
        LoopOver(Hosts, SortedStrings(config.directHosts)),
        LoopOver(Suffixes, SortedStrings(config.directSuffixes)),
        Units(Directive(config))))
  {
    var hosts, suffixes := SortedStrings(config.directHosts), SortedStrings(config.directSuffixes);
    hide Escape, Literal, Units, AllUnits, SortedStrings, ReadSection, Section, LoopOver, VarText, StripAll;
    var content := Escape(Directive(config)) + "\"" + TAIL;
    DirectiveEscapes(config);
    EscapedReads(Directive(config), TAIL, oldRules);
    var r1 := RETURN + content;
    var r2 := Section(Suffixes, suffixes) + r1;
    var r3 := Section(Hosts, hosts) + r2;
    PacShape(config, content, r1, r2, r3);
    HeadReads(r3);
    SectionStarts(suffixes, content);
    SectionReads(Hosts, hosts, r2, oldRules);
    SectionReads(Suffixes, suffixes, r1, oldRules);
    StripSelf(RETURN, content);
  }

  // ----- What the script decides -----

  lemma {:induction false} UnitsConcat(a: string, b: string)
    ensures Units(a + b) == Units(a) + Units(b)
  {
    if a == "" {
      assert a + b == b;
    } else {
      assert (a + b)[1..] == a[1..] + b;
      UnitsConcat(a[1..], b);
      Assoc(Utf16(a[0]), Units(a[1..]), Units(b));
    }
  }

  lemma {:induction false} AllUnitsAt(items: seq<string>)
    ensures |AllUnits(items)| == |items| && forall i :: 0 <= i < |items| ==> AllUnits(items)[i] == Units(items[i])
  {
    hide Units;
    if items == [] {
    } else {
      AllUnitsAt(items[1..]);
    }
  }

  ghost predicate Bypasses(a: Array, item: string, host: seq<nat>, shExpMatch: (seq<nat>, seq<nat>) -> bool) {
    (a.Hosts? && host == Units(item)) || shExpMatch(host, Units("*." + item))
  }

  lemma ItemFires(a: Array, item: string, host: seq<nat>, shExpMatch: (seq<nat>, seq<nat>) -> bool)
    ensures Bypasses(a, item, host, shExpMatch) <==>
      exists j :: 0 <= j < |Tests(a)| && Holds(Tests(a)[j], host, Units(item), shExpMatch)
  {
    hide Units;
    UnitsConcat("*.", item);
    if a.Hosts? {
      assert Tests(a)[0] == Equals && Tests(a)[1] == Matches;
    } else {
      assert Tests(a)[0] == Matches;
    }
  }

  lemma LoopFires(a: Array, items: seq<string>, host: seq<nat>, shExpMatch: (seq<nat>, seq<nat>) -> bool)
    ensures Fires(LoopOver(a, items), host, shExpMatch) <==>
      exists x :: x in items && Bypasses(a, x, host, shExpMatch)
  {
    hide Units, AllUnits, Tests, Bypasses, Holds;
    AllUnitsAt(items);
    forall x ensures Bypasses(a, x, host, shExpMatch) <==>
        exists j :: 0 <= j < |Tests(a)| && Holds(Tests(a)[j], host, Units(x), shExpMatch) {
      ItemFires(a, x, host, shExpMatch);
    }
    var loop := LoopOver(a, items);
    if i, j :| 0 <= i < |loop.items| && 0 <= j < |loop.tests| && Holds(loop.tests[j], host, loop.items[i], shExpMatch) {
      assert items[i] in items && loop.items[i] == Units(items[i]);
      assert Bypasses(a, items[i], host, shExpMatch);
    }
    if x :| x in items && Bypasses(a, x, host, shExpMatch) {
      var i :| 0 <= i < |items| && items[i] == x;
      var j :| 0 <= j < |Tests(a)| && Holds(Tests(a)[j], host, Units(x), shExpMatch);
      assert Holds(loop.tests[j], host, loop.items[i], shExpMatch);
    }
  }

  /**
   What the browser gets from the generated script: "DIRECT" for a plain host
   name, for a direct host or a name below one, and for a name below a direct
   suffix; the proxy directive for every other host.
   */
  lemma PacDecides(
      config: PacConfig, oldRules: bool, host: seq<nat>, isPlain: bool, shExpMatch: (seq<nat>, seq<nat>) -> bool)
    ensures ReadPac(PacText(config), oldRules).Some?
    ensures FindProxy(ReadPac(PacText(config), oldRules).value, host, isPlain, shExpMatch) ==
      if isPlain || (exists h :: h in config.directHosts && (host == Units(h) || shExpMatch(host, Units("*." + h)))) ||
         exists x :: x in config.directSuffixes && shExpMatch(host, Units("*." + x))
      then Units("DIRECT")
      else Units("PROXY " + config.proxyDirective + if config.directFallback then "; DIRECT" else "")
  {
    hide PacText, ReadPac, LoopOver, Units, SortedStrings, Fires;
    PacReadsBack(config, oldRules);
    var hosts, suffixes := SortedStrings(config.directHosts), SortedStrings(config.directSuffixes);
    LoopFires(Hosts, hosts, host, shExpMatch);
    LoopFires(Suffixes, suffixes, host, shExpMatch);
    SameMembers(config.directHosts);
    SameMembers(config.directSuffixes);
    assert forall h :: Bypasses(Hosts, h, host, shExpMatch) <==> host == Units(h) || shExpMatch(host, Units("*." + h));
    assert forall x :: Bypasses(Suffixes, x, host, shExpMatch) <==> shExpMatch(host, Units("*." + x));
  }

  lemma SameMembers(items: seq<string>)
    ensures forall x :: x in SortedStrings(items) <==> x in items
  {
    hide SortedStrings;
    forall x ensures x in SortedStrings(items) <==> x in items {
      assert x in SortedStrings(items) <==> x in multiset(SortedStrings(items));
      assert x in items <==> x in multiset(items);
    }
  }

  lemma HeadReads(rest: string)
    ensures StripAll(HEAD + rest,
      ["function FindProxyForURL(url, host) {\n", "  if (isPlainHostName(host)) return \"DIRECT\";\n"]) == Some(rest)
  {
    var a, b := "function FindProxyForURL(url, host) {\n", "  if (isPlainHostName(host)) return \"DIRECT\";\n";
    Assoc(a, b, rest);
    StripTwo(a, b, rest);
  }

  lemma {:induction false} AllUnitsInjective(a: seq<string>, b: seq<string>)
    requires AllUnits(a) == AllUnits(b)
    ensures a == b
  {
    hide Units;
    if a == [] || b == [] {
    } else {
      assert AllUnits(a)[0] == Units(a[0]) && AllUnits(b)[0] == Units(b[0]);
      UnitsInjective(a[0], b[0]);
      assert AllUnits(a)[1..] == AllUnits(a[1..]) && AllUnits(b)[1..] == AllUnits(b[1..]);
      AllUnitsInjective(a[1..], b[1..]);
      assert a == [a[0]] + a[1..] && b == [b[0]] + b[1..];
    }
  }

  lemma LoopsInjective(a: Array, x: seq<string>, y: seq<string>)
    requires LoopOver(a, x) == LoopOver(a, y)
    ensures x == y
  {
    if x != [] && y != [] {
      AllUnitsInjective(x, y);
    }
  }

  /** Two configurations with the same script have the same hosts, suffixes and directive. */
  lemma ScriptDeterminesConfig(a: PacConfig, b: PacConfig)
    requires PacText(a) == PacText(b)
    ensures multiset(a.directHosts) == multiset(b.directHosts)
    ensures multiset(a.directSuffixes) == multiset(b.directSuffixes)
    ensures Directive(a) == Directive(b)
  {
    hide PacText, ReadPac, LoopOver, Units, Directive;
    PacReadsBack(a, true);
    PacReadsBack(b, true);
    LoopsInjective(Hosts, SortedStrings(a.directHosts), SortedStrings(b.directHosts));
    LoopsInjective(Suffixes, SortedStrings(a.directSuffixes), SortedStrings(b.directSuffixes));
    UnitsInjective(Directive(a), Directive(b));
  }

  lemma PacShape(config: PacConfig, content: string, r1: string, r2: string, r3: string)
    requires content == Escape(Directive(config)) + "\"" + TAIL
    requires r1 == RETURN + content
    requires r2 == Section(Suffixes, SortedStrings(config.directSuffixes)) + r1
    requires r3 == Section(Hosts, SortedStrings(config.directHosts)) + r2
    ensures PacText(config) == HEAD + r3
  {
    DirectiveEscapes(config);
    hide Escape, SortedStrings, Section, Directive;
    var h := Section(Hosts, SortedStrings(config.directHosts));
    var f := Section(Suffixes, SortedStrings(config.directSuffixes));
    var e := Escape(config.proxyDirective);
    var t := if config.directFallback then "; DIRECT\"" else "\"";
    assert content == "PROXY " + e + t + TAIL;
    assert PacText(config) == HEAD + h + f + RETURN + "PROXY " + e + t + TAIL;
    assert HEAD + (h + (f + (RETURN + ("PROXY " + e + t + TAIL)))) == HEAD + h + f + RETURN + "PROXY " + e + t + TAIL;
  }

  /** What follows an array that was left out is never mistaken for it. */
  lemma SectionStarts(suffixes: seq<string>, content: string)
    ensures !(VarText(Suffixes) <= RETURN + content)
    ensures !(VarText(Hosts) <= Section(Suffixes, suffixes) + (RETURN + content))
  {
    hide ItemList, LoopText;
    var r1 := RETURN + content;
    var r2 := Section(Suffixes, suffixes) + r1;
    assert r1[2] == 'r' && VarText(Suffixes)[2] == 'v' && VarText(Hosts)[2] == 'v';
    if suffixes == [] {
      assert r2 == r1;
    } else {
      assert r2[12] == OpenText(Suffixes)[12] == 'S';
      assert VarText(Hosts)[12] == 'H';
    }
  }
}
