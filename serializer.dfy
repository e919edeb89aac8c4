/**
  The generator of src/index.ts: `addLine`, `generatePoliceItem` and
  `generateRobotsTxt` build the robots.txt text by appending lines.

  The text they build is specified through a list of records (a
  `Name: value` line or a blank line) and `Render`, which writes each record
  as one line; `ParseRecords` reads such a text back, so the generated text is
  proved to consist of exactly the records expected, line by line.
*/
module Serializer {
  import opened Wrappers
  import opened JsStrings
  import opened RobotsConfig

  /*** Directive names ***/

  /** `name.replace(/([a-z])([A-Z])/g, '$1-$2')`: the scan goes left to right, puts a hyphen
      inside every lower-case letter followed by an upper-case one, and resumes after that match. */
  function HyphenateCamel(s: string): string
    decreases |s|
  {
    if |s| >= 2 && IsLower(s[0]) && IsUpper(s[1]) then [s[0], '-', s[1]] + HyphenateCamel(s[2..])
    else if |s| == 0 then ""
    else [s[0]] + HyphenateCamel(s[1..])
  }

  /** A hyphen at every boundary from a lower-case to an upper-case letter. */
  function HyphenAtBoundaries(s: string): string
    decreases |s|
  {
    if |s| <= 1 then s
    else [s[0]] + (if IsLower(s[0]) && IsUpper(s[1]) then "-" else "") + HyphenAtBoundaries(s[1..])
  }

  /** The global replace misses no boundary: matches never overlap. */
  lemma {:induction false} HyphenateCamelAtEveryBoundary(s: string)
    ensures HyphenateCamel(s) == HyphenAtBoundaries(s)
    decreases |s|
  {
    if |s| >= 2 && IsLower(s[0]) && IsUpper(s[1]) {
      HyphenateCamelAtEveryBoundary(s[2..]);
      HyphenAtMatch(s[0], s[1], s[2..]);
      assert s == [s[0], s[1]] + s[2..];
    } else if |s| >= 2 {
      HyphenateCamelAtEveryBoundary(s[1..]);
      NoHyphenWithoutMatch(s[0], s[1..]);
      assert s == [s[0]] + s[1..];
    } else if |s| == 1 {
      assert s[1..] == "";
    }
  }

  /** At a match both sides write the two letters with a hyphen between them and go on
      after the upper-case letter, which starts no boundary of its own. */
  lemma HyphenAtMatch(a: char, b: char, rest: string)
    requires IsLower(a) && IsUpper(b)
    requires HyphenateCamel(rest) == HyphenAtBoundaries(rest)
    ensures HyphenateCamel([a, b] + rest) == HyphenAtBoundaries([a, b] + rest)
  {
    var s := [a, b] + rest;
    var tail := [b] + rest;
    assert s[2..] == rest && s[1..] == tail;
    var h := HyphenAtBoundaries(rest);
    assert HyphenateCamel(s) == [a, '-', b] + h;
    assert HyphenAtBoundaries(tail) == [b] + h by {
      if rest == [] {
        assert tail == [b];
      } else {
        assert tail[1..] == rest;
      }
    }
    assert HyphenAtBoundaries(s) == [a] + "-" + ([b] + h);
    assert [a] + "-" + ([b] + h) == [a, '-', b] + h;
  }

  /** Without a match at the front both sides copy the first character. */
  lemma NoHyphenWithoutMatch(c: char, t: string)
    requires |t| >= 1 && !(IsLower(c) && IsUpper(t[0]))
    requires HyphenateCamel(t) == HyphenAtBoundaries(t)
    ensures HyphenateCamel([c] + t) == HyphenAtBoundaries([c] + t)
  {
    var s := [c] + t;
    assert s[0] == c && s[1] == t[0] && s[1..] == t;
    assert HyphenateCamel(s) == [c] + HyphenateCamel(t);
    assert HyphenAtBoundaries(s) == [c] + "" + HyphenAtBoundaries(t);
  }

  /** The scan only inserts: it keeps every character and adds at most one hyphen per two. */
  lemma {:induction false} HyphenateCamelLength(s: string)
    ensures |s| <= |HyphenateCamel(s)| <= |s| + |s| / 2
    decreases |s|
  {
    if |s| >= 2 && IsLower(s[0]) && IsUpper(s[1]) {
      HyphenateCamelLength(s[2..]);
    } else if |s| > 0 {
      HyphenateCamelLength(s[1..]);
    }
  }

  /** `capitaliseFirstLetter`: `s.charAt(0).toUpperCase() + s.slice(1)`. */
  function CapitaliseFirstLetter(s: string): (r: string)
    ensures |r| == |s|
    ensures forall i | 1 <= i < |s| :: r[i] == s[i]
    ensures |s| > 0 ==> r[0] == ToUpperChar(s[0]) && !IsLower(r[0])
  {
    if |s| == 0 then "" else [ToUpperChar(s[0])] + s[1..]
  }

  /** The directive name `addLine` writes for `name`. */
  function DirectiveName(name: string): (r: string)
    ensures |name| <= |r|
    ensures |r| > 0 ==> !IsLower(r[0])
  {
    HyphenateCamelLength(name);
    CapitaliseFirstLetter(ToLower(HyphenateCamel(name)))
  }

  lemma {:induction false} HyphenateCamelWithoutUpper(s: string)
    requires forall i | 1 <= i < |s| :: !IsUpper(s[i])
    ensures HyphenateCamel(s) == s
    decreases |s|
  {
    if |s| > 0 {
      HyphenateCamelWithoutUpper(s[1..]);
      assert s == [s[0]] + s[1..];
    }
  }

  /** A name that already looks like a directive is written unchanged: no lower-case first
      letter, and no upper-case letter after it. */
  lemma DirectiveNameFixed(name: string)
    requires |name| >= 1 && !IsLower(name[0])
    requires forall i | 1 <= i < |name| :: !IsUpper(name[i])
    ensures DirectiveName(name) == name
  {
    HyphenateCamelWithoutUpper(name);
    var lower := ToLower(name);
    assert lower[1..] == name[1..];
    assert name == [name[0]] + name[1..];
  }

  /** The name transform is idempotent: a directive name is a fixed point. */
  lemma DirectiveNameIdempotent(name: string)
    ensures DirectiveName(DirectiveName(name)) == DirectiveName(name)
  {
    var d := DirectiveName(name);
    if |d| >= 1 {
      var lower := ToLower(HyphenateCamel(name));
      assert d[1..] == lower[1..];
      assert forall i | 1 <= i < |d| :: d[i] == lower[i];
      DirectiveNameFixed(d);
    }
  }

  /** The directives the generator writes, one for each name it passes to `addLine`. */
  datatype Directive = UserAgentLine | DisallowLine | AllowLine | CrawlDelayLine | CleanParamLine | SitemapLine | HostLine

  function Name(d: Directive): string
  {
    match d
    case UserAgentLine => "User-agent"
    case DisallowLine => "Disallow"
    case AllowLine => "Allow"
    case CrawlDelayLine => "Crawl-delay"
    case CleanParamLine => "Clean-param"
    case SitemapLine => "Sitemap"
    case HostLine => "Host"
  }

  /** The names the generator passes are written as they are. */
  lemma NameFixed(d: Directive)
    ensures DirectiveName(Name(d)) == Name(d)
  {
    DirectiveNameFixed(Name(d));
  }

  predicate AllLower(s: string)
  {
    forall i | 0 <= i < |s| :: IsLower(s[i])
  }

  lemma {:induction false} HyphenateOneHump(a: string, u: char, b: string)
    requires |a| >= 1 && AllLower(a) && IsUpper(u) && AllLower(b)
    ensures HyphenateCamel(a + [u] + b) == a + ['-', u] + b
    decreases |a|
  {
    if |a| == 1 {
      HumpAtEnd(a[0], u, b);
      assert a + [u] + b == [a[0], u] + b;
      assert a + ['-', u] + b == [a[0], '-', u] + b;
    } else {
      HyphenateOneHump(a[1..], u, b);
      HumpFurtherOn(a, u, b);
    }
  }

  /** The last lower-case letter before the hump makes the match; the rest has no upper case. */
  lemma HumpAtEnd(x: char, u: char, b: string)
    requires IsLower(x) && IsUpper(u) && AllLower(b)
    ensures HyphenateCamel([x, u] + b) == [x, '-', u] + b
  {
    assert HyphenateCamel(b) == b by {
      HyphenateCamelWithoutUpper(b);
    }
    HyphenateMatch(x, u, b);
  }

  /** A lower-case letter followed by another is copied. */
  lemma HumpFurtherOn(a: string, u: char, b: string)
    requires |a| >= 2 && AllLower(a)
    requires HyphenateCamel(a[1..] + [u] + b) == a[1..] + ['-', u] + b
    ensures HyphenateCamel(a + [u] + b) == a + ['-', u] + b
  {
    var t := a[1..] + [u] + b;
    assert t[0] == a[1];
    HyphenateCopy(a[0], t);
    assert a + [u] + b == [a[0]] + t;
    assert a + ['-', u] + b == [a[0]] + (a[1..] + ['-', u] + b);
  }

  /** A lower-case letter followed by an upper-case one is a match. */
  lemma HyphenateMatch(x: char, u: char, rest: string)
    requires IsLower(x) && IsUpper(u)
    ensures HyphenateCamel([x, u] + rest) == [x, '-', u] + HyphenateCamel(rest)
  {
    var s := [x, u] + rest;
    assert s[0] == x && s[1] == u && s[2..] == rest;
  }

  /** Without a match at the front the first character is copied. */
  lemma HyphenateCopy(x: char, t: string)
    requires |t| >= 1 && !(IsLower(x) && IsUpper(t[0]))
    ensures HyphenateCamel([x] + t) == [x] + HyphenateCamel(t)
  {
    var s := [x] + t;
    assert s[0] == x && s[1] == t[0] && s[1..] == t;
  }

  /** A camel-case option name of two words, such as `crawlDelay`, becomes the directive
      `Crawl-delay`: first letter capitalised, a hyphen at the hump, the rest in lower case. */
  lemma CamelCaseName(a: string, u: char, b: string)
    requires |a| >= 1 && AllLower(a) && IsUpper(u) && AllLower(b)
    ensures DirectiveName(a + [u] + b) == [ToUpperChar(a[0])] + a[1..] + ['-', ToLowerChar(u)] + b
  {
    HyphenateOneHump(a, u, b);
    var lower := ToLower(a + ['-', u] + b);
    assert lower == a + ['-', ToLowerChar(u)] + b;
  }

  /*** Records and their text ***/

  /** One line of robots.txt: a `Name: value` record, or the blank line between groups. */
  datatype Record = Field(name: string, value: string) | Blank

  /** The line of a record, without its line break: `Name: value`, or `Name:` for an empty value. */
  function LineText(r: Record): string
  {
    match r
    case Blank => ""
    case Field(name, value) => name + ":" + (if |value| > 0 then " " + value else "")
  }

  function Render(records: seq<Record>): string
    decreases |records|
  {
    if |records| == 0 then "" else LineText(records[0]) + "\n" + Render(records[1..])
  }

  lemma {:induction false} RenderConcat(a: seq<Record>, b: seq<Record>)
    ensures Render(a + b) == Render(a) + Render(b)
    decreases |a|
  {
    if |a| == 0 {
      assert a + b == b;
    } else {
      assert (a + b)[0] == a[0];
      assert (a + b)[1..] == a[1..] + b;
      RenderConcat(a[1..], b);
    }
  }

  /** The value written for `name`: `Allow` and `Disallow` values go through `encodeURI`,
      every other value is written as it is. */
  function RuleContent(name: string, value: string): (r: string)
    ensures name != "Allow" && name != "Disallow" ==> r == value
    ensures name == "Allow" || name == "Disallow" ==> PercentDecode(r) == Some(value)
  {
    if name == "Allow" || name == "Disallow" then PercentDecodeEncodeUri(value); EncodeUri(value) else value
  }

  /** The record `addLine(name, value)` writes for a string `value`. */
  function LineRecord(name: string, value: string): Record
  {
    Field(DirectiveName(name), RuleContent(name, value))
  }

  function LineRecords(name: string, values: seq<string>): (records: seq<Record>)
    ensures |records| == |values|
    ensures forall i | 0 <= i < |values| :: records[i] == LineRecord(name, values[i])
  {
    seq(|values|, i requires 0 <= i < |values| => LineRecord(name, values[i]))
  }

  /** The values `addLine` writes one line each for: the elements of a non-empty array,
      otherwise the single value (an empty array reads as the empty string). */
  function RuleValues(rule: Rule): seq<string>
  {
    match rule
    case One(s) => [s]
    case Many(xs) => if |xs| == 0 then [""] else xs
  }

  function RuleRecords(name: string, rule: Rule): seq<Record>
  {
    LineRecords(name, RuleValues(rule))
  }

  /** The value the generator's directive `d` is written with: `Allow` and `Disallow`
      values are percent-encoded. */
  function Content(d: Directive, value: string): string
  {
    if d.AllowLine? || d.DisallowLine? then EncodeUri(value) else value
  }

  lemma ContentOfName(d: Directive)
    ensures forall value :: RuleContent(Name(d), value) == Content(d, value)
  {
  }

  /** The records of the directive `d`, one per value. */
  function DirectiveLines(d: Directive, values: seq<string>): seq<Record>
  {
    seq(|values|, i requires 0 <= i < |values| => Field(Name(d), Content(d, values[i])))
  }

  function DirectiveRecords(d: Directive, rule: Rule): seq<Record>
  {
    DirectiveLines(d, RuleValues(rule))
  }

  /** For each name the generator passes, `addLine` writes the directive under that very name. */
  lemma GeneratorLines(d: Directive, values: seq<string>)
    ensures LineRecords(Name(d), values) == DirectiveLines(d, values)
  {
    NameFixed(d);
    ContentOfName(d);
  }

  lemma RenderLineRecordsSnoc(name: string, values: seq<string>, i: nat)
    requires i < |values|
    ensures Render(LineRecords(name, values[..i + 1])) ==
      Render(LineRecords(name, values[..i])) + Render(RuleRecords(name, One(values[i])))
  {
    assert LineRecords(name, values[..i + 1]) == LineRecords(name, values[..i]) + RuleRecords(name, One(values[i]));
    RenderConcat(LineRecords(name, values[..i]), RuleRecords(name, One(values[i])));
  }

  /** `addLine(name, rule)`: a non-empty array is written element by element through the
      recursive call; anything else as one line. */
  method AddLine(name: string, rule: Rule) returns (contents: string)
    ensures contents == Render(RuleRecords(name, rule))
    decreases if rule.Many? then 1 else 0
  {
    if rule.Many? && |rule.items| > 0 {
      var items := rule.items;
      contents := "";
      var i := 0;
      while i < |items|
        invariant 0 <= i <= |items|
        invariant contents == Render(LineRecords(name, items[..i]))
      {
        var line := AddLine(name, One(items[i]));
        RenderLineRecordsSnoc(name, items, i);
        contents := contents + line;
        i := i + 1;
      }
      assert items[..i] == items;
      return;
    }
    var value := if rule.One? then rule.s else "";
    var ruleContent := if name == "Allow" || name == "Disallow" then EncodeUri(value) else value;
    contents := DirectiveName(name) + ":" + (if |ruleContent| > 0 then " " + ruleContent else "") + "\n";
    assert RuleRecords(name, rule) == [LineRecord(name, value)];
  }

  /** A non-empty array is written as the concatenation, in order, of one line per element. */
  lemma {:induction false} ArrayIsConcatenationOfLines(name: string, xs: seq<string>, ys: seq<string>)
    requires |xs| > 0 && |ys| > 0
    ensures Render(RuleRecords(name, Many(xs + ys))) ==
      Render(RuleRecords(name, Many(xs))) + Render(RuleRecords(name, Many(ys)))
    ensures |xs| == 1 ==> RuleRecords(name, Many(xs)) == RuleRecords(name, One(xs[0]))
  {
    assert LineRecords(name, xs + ys) == LineRecords(name, xs) + LineRecords(name, ys);
    RenderConcat(LineRecords(name, xs), LineRecords(name, ys));
  }

  /** A single value is written as one line `Name: value`, or `Name:` when the written
      value is empty; an `Allow` or `Disallow` line never breaks, whatever its value. */
  lemma ScalarIsOneLine(name: string, value: string)
    ensures Render(RuleRecords(name, One(value))) ==
      var content := RuleContent(name, value);
      DirectiveName(name) + ":" + (if content == "" then "" else " " + content) + "\n"
    ensures name == "Allow" || name == "Disallow" ==> '\n' !in RuleContent(name, value)
    ensures Render(RuleRecords(name, Many([]))) == DirectiveName(name) + ":\n"
  {
    var d := DirectiveName(name);
    var content := RuleContent(name, value);
    assert RuleRecords(name, One(value)) == [Field(d, content)];
    FieldRender(d, content);
    if name == "Allow" || name == "Disallow" {
      assert '\n' !in content by {
        EncodeUriSingleLine(value);
      }
    }
    assert RuleRecords(name, Many([])) == [Field(d, "")] by {
      assert EncodeUri("") == "";
      assert RuleContent(name, "") == "";
    }
    EmptyFieldLine(d);
  }

  /** The line of one field record. */
  lemma FieldRender(name: string, value: string)
    ensures Render([Field(name, value)]) == name + ":" + (if value == "" then "" else " " + value) + "\n"
  {
    assert [Field(name, value)][1..] == [];
  }

  /** `addLine` called with one of the generator's own names, which the name transform keeps. */
  method AddDirective(d: Directive, rule: Rule) returns (contents: string)
    ensures contents == Render(DirectiveRecords(d, rule))
  {
    contents := AddLine(Name(d), rule);
    GeneratorLines(d, RuleValues(rule));
  }

  /*** Policy groups and the whole file ***/

  /** `item.cleanParam && item.cleanParam.length > 0` */
  predicate CleanParamGiven(param: Option<CleanParam>)
  {
    param.Some? && CleanParamTruthy(param.value) &&
    match param.value
    case ParamString(s) => Utf16Length(s) > 0
    case ParamList(xs) => |xs| > 0
    case ParamOther(_) => false
  }

  /** The records of one entry of the policy: a blank line unless it is the first entry,
      then `User-agent`, `Disallow`, `Allow`, `Crawl-delay`, `Clean-param`. */
  function PolicyRecords(item: PolicyItem, index: nat): seq<Record>
    requires Renderable(item)
  {
    SeparatorRecords(index) + DirectiveRecords(UserAgentLine, item.userAgent.value) + DisallowRecords(item)
    + AllowRecords(item) + CrawlDelayRecords(item) + CleanParamRecords(item)
  }

  function SeparatorRecords(index: nat): seq<Record>
  {
    if index != 0 then [Blank] else []
  }

  /** `typeof item.disallow === 'string' || Array.isArray(item.disallow)`: with the declared
      `string | string[]` type, any present value; an empty string still gives a line. */
  function DisallowRecords(item: PolicyItem): seq<Record>
  {
    if item.disallow.Some? then DirectiveRecords(DisallowLine, item.disallow.value) else []
  }

  /** `if (item.allow)`: only a truthy `allow` gives a line. */
  function AllowRecords(item: PolicyItem): seq<Record>
  {
    if item.allow.Some? && RuleTruthy(item.allow.value) then DirectiveRecords(AllowLine, item.allow.value) else []
  }

  /** `if (item.crawlDelay)`: a delay of 0 gives no line. */
  function CrawlDelayRecords(item: PolicyItem): seq<Record>
    requires Renderable(item)
  {
    if item.crawlDelay.Some? && CrawlDelayTruthy(item.crawlDelay.value)
    then DirectiveRecords(CrawlDelayLine, One(IntToString(item.crawlDelay.value.n))) else []
  }

  function CleanParamRecords(item: PolicyItem): seq<Record>
    requires Renderable(item)
  {
    if CleanParamGiven(item.cleanParam) then DirectiveRecords(CleanParamLine, CleanParamRule(item.cleanParam.value)) else []
  }

  function CleanParamRule(param: CleanParam): Rule
    requires param.ParamString? || (param.ParamList? && AllStrings(param.items))
  {
    if param.ParamString? then One(param.s) else Many(Strings(param.items))
  }

  lemma RenderPolicyRecords(item: PolicyItem, index: nat)
    requires Renderable(item)
    ensures Render(PolicyRecords(item, index)) ==
      Render(SeparatorRecords(index)) + Render(DirectiveRecords(UserAgentLine, item.userAgent.value))
      + Render(DisallowRecords(item)) + Render(AllowRecords(item))
      + Render(CrawlDelayRecords(item)) + Render(CleanParamRecords(item))
  {
    var a := SeparatorRecords(index);
    var b := DirectiveRecords(UserAgentLine, item.userAgent.value);
    var c := DisallowRecords(item);
    var d := AllowRecords(item);
    var e := CrawlDelayRecords(item);
    var f := CleanParamRecords(item);
    RenderConcat(a, b);
    RenderConcat(a + b, c);
    RenderConcat(a + b + c, d);
    RenderConcat(a + b + c + d, e);
    RenderConcat(a + b + c + d + e, f);
  }

  /** `generatePoliceItem(item, index)`. */
  method GeneratePolicyItem(item: PolicyItem, index: nat) returns (contents: string)
    requires Renderable(item)
    ensures contents == Render(PolicyRecords(item, index))
  {
    RenderPolicyRecords(item, index);
    ghost var separator, userAgent := Render(SeparatorRecords(index)), Render(DirectiveRecords(UserAgentLine, item.userAgent.value));
    ghost var disallow, allow := Render(DisallowRecords(item)), Render(AllowRecords(item));
    ghost var crawlDelay, cleanParam := Render(CrawlDelayRecords(item)), Render(CleanParamRecords(item));
    contents := "";
    if index != 0 {
      contents := contents + "\n";
    }
    assert contents == separator;
    var line := AddDirective(UserAgentLine, item.userAgent.value);
    contents := contents + line;
    if item.disallow.Some? {
      line := AddDirective(DisallowLine, item.disallow.value);
      contents := contents + line;
      assert line == disallow;
    }
    assert contents == separator + userAgent + disallow;
    if item.allow.Some? && RuleTruthy(item.allow.value) {
      line := AddDirective(AllowLine, item.allow.value);
      contents := contents + line;
      assert line == allow;
    }
    assert contents == separator + userAgent + disallow + allow;
    if item.crawlDelay.Some? && CrawlDelayTruthy(item.crawlDelay.value) {
      line := AddDirective(CrawlDelayLine, One(IntToString(item.crawlDelay.value.n)));
      contents := contents + line;
      assert line == crawlDelay;
    }
    assert contents == separator + userAgent + disallow + allow + crawlDelay;
    if CleanParamGiven(item.cleanParam) {
      line := AddDirective(CleanParamLine, CleanParamRule(item.cleanParam.value));
      contents := contents + line;
      assert line == cleanParam;
    }
  }

  /** Which optional directives a group has: `Disallow` whenever the property is present,
      even as the empty string; `Allow` only when it is truthy; `Clean-param` only when it is
      a non-empty string or array; `Crawl-delay` only for a non-zero delay, written so that
      it reads back as the same number. */
  lemma OptionalDirectives(item: PolicyItem)
    requires Renderable(item)
    ensures DisallowRecords(item) != [] <==> item.disallow.Some?
    ensures AllowRecords(item) != [] <==> item.allow.Some? && RuleTruthy(item.allow.value)
    ensures CleanParamRecords(item) != [] <==> CleanParamGiven(item.cleanParam)
    ensures CrawlDelayRecords(item) == [] <==> item.crawlDelay.None? || !CrawlDelayTruthy(item.crawlDelay.value)
    ensures item.crawlDelay == Some(Seconds(0)) ==> CrawlDelayRecords(item) == []
    ensures item.crawlDelay.Some? && item.crawlDelay.value.Seconds? && item.crawlDelay.value.n != 0 ==>
      |CrawlDelayRecords(item)| == 1 &&
      ParseInt(CrawlDelayRecords(item)[0].value) == item.crawlDelay.value.n
  {
    if item.crawlDelay.Some? && item.crawlDelay.value.Seconds? {
      IntToStringRoundTrip(item.crawlDelay.value.n);
    }
  }

  /** An empty `Disallow` is still written, as `Disallow:` with nothing after the colon. */
  lemma EmptyDisallowLine()
    ensures DirectiveRecords(DisallowLine, One("")) == [Field("Disallow", "")]
    ensures Render([Field("Disallow", "")]) == "Disallow:\n"
  {
    EmptyFieldLine("Disallow");
  }

  lemma FieldLine(name: string, value: string)
    requires value != ""
    ensures Render([Field(name, value)]) == name + ": " + value + "\n"
  {
    assert [Field(name, value)][1..] == [];
  }

  lemma EmptyFieldLine(name: string)
    ensures Render([Field(name, "")]) == name + ":\n"
  {
    assert [Field(name, "")][1..] == [];
  }

  /** A space in a `Disallow` path is written percent-encoded, as `%20`, and the
      characters `encodeURI` keeps around it are written as they are. */
  lemma EncodedDisallowLine(p: string, q: string)
    requires forall c <- p :: UriUnescaped(c)
    requires forall c <- q :: UriUnescaped(c)
    ensures DirectiveRecords(DisallowLine, One(p + " " + q)) == [Field("Disallow", p + "%20" + q)]
  {
    EncodedSpace(p, q);
  }

  lemma EncodedSpace(p: string, q: string)
    requires forall c <- p :: UriUnescaped(c)
    requires forall c <- q :: UriUnescaped(c)
    ensures EncodeUri(p + " " + q) == p + "%20" + q
  {
    EncodeUriConcat(p + " ", q);
    EncodeUriConcat(p, " ");
    EncodeUriKeepsUnescaped(p);
    EncodeUriKeepsUnescaped(q);
    SpaceEscape();
  }

  lemma SpaceEscape()
    ensures EncodeUri(" ") == "%20"
  {
    assert !UriUnescaped(' ');
    assert Utf8Bytes(' ' as int) == [32];
    assert PercentEncode([32]) == ['%', HexDigit(2), HexDigit(0)] + PercentEncode([]);
    assert " "[1..] == "";
  }

  /** The groups of the first `|policy|` entries, each tagged with its index. */
  function PolicyGroups(policy: seq<PolicyItem>): seq<Record>
    requires forall i | 0 <= i < |policy| :: Renderable(policy[i])
    decreases |policy|
  {
    if |policy| == 0 then []
    else PolicyGroups(policy[..|policy| - 1]) + PolicyRecords(policy[|policy| - 1], |policy| - 1)
  }

  function HostRecords(host: string): seq<Record>
  {
    if host != "" then DirectiveLines(HostLine, [host]) else []
  }

  /** The records of the whole file: the groups in order, one `Sitemap` line per URL in
      order, then the `Host` line when there is a host. */
  function RobotsRecords(policy: seq<PolicyItem>, sitemaps: seq<string>, host: string): seq<Record>
    requires forall i | 0 <= i < |policy| :: Renderable(policy[i])
  {
    PolicyGroups(policy) + DirectiveLines(SitemapLine, sitemaps) + HostRecords(host)
  }

  lemma PolicyGroupsSnoc(policy: seq<PolicyItem>, i: nat)
    requires forall k | 0 <= k < |policy| :: Renderable(policy[k])
    requires i < |policy|
    ensures Render(PolicyGroups(policy[..i + 1])) == Render(PolicyGroups(policy[..i])) + Render(PolicyRecords(policy[i], i))
  {
    assert policy[..i + 1][..i] == policy[..i];
    RenderConcat(PolicyGroups(policy[..i]), PolicyRecords(policy[i], i));
  }

  lemma DirectiveLinesConcat(d: Directive, xs: seq<string>, ys: seq<string>)
    ensures DirectiveLines(d, xs + ys) == DirectiveLines(d, xs) + DirectiveLines(d, ys)
  {
    var zs := xs + ys;
    assert forall k | 0 <= k < |zs| :: zs[k] == if k < |xs| then xs[k] else ys[k - |xs|];
  }

  lemma RenderAfterDirectiveLinesSnoc(before: seq<Record>, d: Directive, values: seq<string>, i: nat)
    requires i < |values|
    ensures Render(before + DirectiveLines(d, values[..i + 1])) ==
      Render(before + DirectiveLines(d, values[..i])) + Render(DirectiveLines(d, [values[i]]))
  {
    assert values[..i + 1] == values[..i] + [values[i]];
    DirectiveLinesConcat(d, values[..i], [values[i]]);
    assert before + DirectiveLines(d, values[..i + 1]) ==
      before + DirectiveLines(d, values[..i]) + DirectiveLines(d, [values[i]]);
    RenderConcat(before + DirectiveLines(d, values[..i]), DirectiveLines(d, [values[i]]));
  }

  lemma RenderRobotsRecords(policy: seq<PolicyItem>, sitemaps: seq<string>, host: string)
    requires forall i | 0 <= i < |policy| :: Renderable(policy[i])
    ensures Render(RobotsRecords(policy, sitemaps, host)) ==
      Render(PolicyGroups(policy) + DirectiveLines(SitemapLine, sitemaps)) + Render(HostRecords(host))
  {
    RenderConcat(PolicyGroups(policy) + DirectiveLines(SitemapLine, sitemaps), HostRecords(host));
  }

  /** `generateRobotsTxt(policy, sitemap, host)`. */
  method GenerateRobotsTxt(policy: seq<PolicyItem>, sitemaps: seq<string>, host: string) returns (contents: string)
    requires forall i | 0 <= i < |policy| :: Renderable(policy[i])
    ensures contents == Render(RobotsRecords(policy, sitemaps, host))
  {
    contents := "";
    var i := 0;
    while i < |policy|
      invariant 0 <= i <= |policy|
      invariant contents == Render(PolicyGroups(policy[..i]))
    {
      var group := GeneratePolicyItem(policy[i], i);
      PolicyGroupsSnoc(policy, i);
      contents := contents + group;
      i := i + 1;
    }
    assert policy[..i] == policy;
    assert DirectiveLines(SitemapLine, sitemaps[..0]) == [];
    assert PolicyGroups(policy) + [] == PolicyGroups(policy);
    var j := 0;
    while j < |sitemaps|
      invariant 0 <= j <= |sitemaps|
      invariant contents == Render(PolicyGroups(policy) + DirectiveLines(SitemapLine, sitemaps[..j]))
    {
      var line := AddDirective(SitemapLine, One(sitemaps[j]));
      RenderAfterDirectiveLinesSnoc(PolicyGroups(policy), SitemapLine, sitemaps, j);
      contents := contents + line;
      j := j + 1;
    }
    assert sitemaps[..j] == sitemaps;
    if host != "" {
      var line := AddDirective(HostLine, One(host));
      contents := contents + line;
    }
    RenderRobotsRecords(policy, sitemaps, host);
  }
}
