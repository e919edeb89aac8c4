/**
  A reader for the text the generator writes, and what reading it back shows
  about that text: it is exactly the expected records, line by line; the
  `Sitemap` lines carry the sitemap URLs in order; there is one `Host` line
  exactly when a host is given; and one blank line separates consecutive
  policy groups.
*/
module RobotsText {
  import opened Wrappers
  import opened JsStrings
  import opened RobotsConfig
  import opened Serializer

  /*** Reading records back ***/

  function IndexOf(s: string, c: char): (k: Option<nat>)
    ensures k.Some? ==> k.value < |s| && s[k.value] == c && c !in s[..k.value]
    ensures k.None? ==> c !in s
    decreases |s|
  {
    if |s| == 0 then None
    else if s[0] == c then Some(0)
    else match IndexOf(s[1..], c)
      case None => None
      case Some(k) =>
        assert s[..k + 1] == [s[0]] + s[1..][..k];
        Some(k + 1)
  }

  /** One line: the empty line is the blank record; otherwise the name runs up to the
      first colon, and one space after the colon is dropped from the value. */
  function ParseLine(line: string): Option<Record>
  {
    if line == "" then Some(Blank)
    else match IndexOf(line, ':')
      case None => None
      case Some(k) =>
        var rest := line[k + 1..];
        Some(Field(line[..k], if |rest| > 0 && rest[0] == ' ' then rest[1..] else rest))
  }

  function ParseLines(lines: seq<string>): Option<seq<Record>>
    decreases |lines|
  {
    if |lines| == 0 then Some([])
    else match ParseLine(lines[0])
      case None => None
      case Some(r) =>
        match ParseLines(lines[1..])
        case None => None
        case Some(rs) => Some([r] + rs)
  }

  /** Reads a text whose every line ends in a line break. */
  function ParseRecords(text: string): Option<seq<Record>>
  {
    var lines := Split(text, '\n');
    if lines[|lines| - 1] != "" then None else ParseLines(lines[..|lines| - 1])
  }

  predicate SingleLine(s: string)
  {
    '\n' !in s
  }

  /** A record that reads back as itself: its name has no colon and neither part breaks the line. */
  predicate WellFormed(r: Record)
  {
    r.Field? ==> ':' !in r.name && SingleLine(r.name) && SingleLine(r.value)
  }

  /** One record named `name` per value, in order. */
  function Fields(name: string, values: seq<string>): seq<Record>
  {
    seq(|values|, i requires 0 <= i < |values| => Field(name, values[i]))
  }

  function LineTexts(rs: seq<Record>): (lines: seq<string>)
    ensures |lines| == |rs|
    ensures forall i | 0 <= i < |rs| :: lines[i] == LineText(rs[i])
  {
    seq(|rs|, i requires 0 <= i < |rs| => LineText(rs[i]))
  }

  lemma ParseLineText(r: Record)
    requires WellFormed(r)
    ensures ParseLine(LineText(r)) == Some(r)
  {
    if r.Field? {
      var suffix := if |r.value| > 0 then " " + r.value else "";
      var line := LineText(r);
      assert line == r.name + [':'] + suffix;
      assert line[|r.name|] == ':';
      assert line[..|r.name|] == r.name;
      assert IndexOf(line, ':') == Some(|r.name|);
      assert line[|r.name| + 1..] == suffix;
    }
  }

  lemma {:induction false} RenderIsJoin(rs: seq<Record>)
    ensures Render(rs) == Join(LineTexts(rs) + [""], '\n')
    decreases |rs|
  {
    if |rs| > 0 {
      RenderIsJoin(rs[1..]);
      assert (LineTexts(rs) + [""])[1..] == LineTexts(rs[1..]) + [""];
    }
  }

  lemma {:induction false} ParseLinesTexts(rs: seq<Record>)
    requires forall r <- rs :: WellFormed(r)
    ensures ParseLines(LineTexts(rs)) == Some(rs)
    decreases |rs|
  {
    if |rs| > 0 {
      ParseLineText(rs[0]);
      assert LineTexts(rs)[1..] == LineTexts(rs[1..]);
      ParseLinesTexts(rs[1..]);
      assert rs == [rs[0]] + rs[1..];
    }
  }

  lemma LineTextSingleLine(r: Record)
    requires WellFormed(r)
    ensures SingleLine(LineText(r))
  {
  }

  /** Rendering and reading back are inverse on well-formed records. */
  lemma ParseRender(rs: seq<Record>)
    requires forall r <- rs :: WellFormed(r)
    ensures ParseRecords(Render(rs)) == Some(rs)
  {
    var lines := LineTexts(rs) + [""];
    forall p <- lines
      ensures '\n' !in p
    {
      if p != "" {
        var i :| 0 <= i < |rs| && p == LineText(rs[i]);
        LineTextSingleLine(rs[i]);
      }
    }
    RenderIsJoin(rs);
    SplitJoin(lines, '\n');
    assert lines[..|lines| - 1] == LineTexts(rs);
    ParseLinesTexts(rs);
  }

  /*** The records the generator writes are well formed ***/

  /** No directive name has a colon or a line break. */
  lemma NameIsSingleLine(d: Directive)
    ensures ':' !in Name(d) && SingleLine(Name(d))
  {
  }

  lemma FieldsWellFormed(name: string, values: seq<string>)
    requires ':' !in name && SingleLine(name)
    requires forall v <- values :: SingleLine(v)
    ensures forall r <- Fields(name, values) :: WellFormed(r)
  {
    forall i | 0 <= i < |values|
      ensures WellFormed(Fields(name, values)[i])
    {
      assert values[i] in values;
    }
  }

  /** The lines of a directive read back as written: `Allow` and `Disallow` values are
      percent-encoded, and the other values must contain no line break. */
  lemma DirectiveLinesWellFormed(d: Directive, values: seq<string>)
    requires d.AllowLine? || d.DisallowLine? || forall v <- values :: SingleLine(v)
    ensures forall r <- DirectiveLines(d, values) :: WellFormed(r)
  {
    var contents := seq(|values|, i requires 0 <= i < |values| => Content(d, values[i]));
    assert DirectiveLines(d, values) == Fields(Name(d), contents);
    forall v <- contents
      ensures SingleLine(v)
    {
      var i :| 0 <= i < |values| && v == Content(d, values[i]);
      if d.AllowLine? || d.DisallowLine? {
        EncodeUriSingleLine(values[i]);
      } else {
        assert values[i] in values;
      }
    }
    NameIsSingleLine(d);
    FieldsWellFormed(Name(d), contents);
  }

  /** A policy entry whose user agents and clean-param values stay on one line. */
  predicate GroupSingleLine(item: PolicyItem)
    requires Renderable(item)
  {
    && (forall v <- RuleValues(item.userAgent.value) :: SingleLine(v))
    && (CleanParamGiven(item.cleanParam) ==> forall v <- RuleValues(CleanParamRule(item.cleanParam.value)) :: SingleLine(v))
  }

  lemma DecimalSingleLine(n: int)
    ensures SingleLine(IntToString(n))
  {
    var d := NatToDecimal(if n < 0 then -n else n);
    assert forall c <- d :: IsDigit(c);
  }

  lemma PolicyRecordsWellFormed(item: PolicyItem, index: nat)
    requires Renderable(item) && GroupSingleLine(item)
    ensures forall r <- PolicyRecords(item, index) :: WellFormed(r)
  {
    var a, b := SeparatorRecords(index), DirectiveRecords(UserAgentLine, item.userAgent.value);
    var c, d := DisallowRecords(item), AllowRecords(item);
    var e, f := CrawlDelayRecords(item), CleanParamRecords(item);
    assert forall r <- b :: WellFormed(r) by {
      DirectiveLinesWellFormed(UserAgentLine, RuleValues(item.userAgent.value));
    }
    assert forall r <- c :: WellFormed(r) by {
      if item.disallow.Some? {
        DirectiveLinesWellFormed(DisallowLine, RuleValues(item.disallow.value));
      }
    }
    assert forall r <- d :: WellFormed(r) by {
      if item.allow.Some? {
        DirectiveLinesWellFormed(AllowLine, RuleValues(item.allow.value));
      }
    }
    assert forall r <- e :: WellFormed(r) by {
      if item.crawlDelay.Some? && CrawlDelayTruthy(item.crawlDelay.value) {
        DecimalSingleLine(item.crawlDelay.value.n);
        DirectiveLinesWellFormed(CrawlDelayLine, [IntToString(item.crawlDelay.value.n)]);
      }
    }
    assert forall r <- f :: WellFormed(r) by {
      if CleanParamGiven(item.cleanParam) {
        DirectiveLinesWellFormed(CleanParamLine, RuleValues(CleanParamRule(item.cleanParam.value)));
      }
    }
    assert PolicyRecords(item, index) == a + b + c + d + e + f;
  }

  lemma {:induction false} PolicyGroupsWellFormed(policy: seq<PolicyItem>)
    requires forall i | 0 <= i < |policy| :: Renderable(policy[i]) && GroupSingleLine(policy[i])
    ensures forall r <- PolicyGroups(policy) :: WellFormed(r)
    decreases |policy|
  {
    if |policy| > 0 {
      PolicyGroupsWellFormed(policy[..|policy| - 1]);
      PolicyRecordsWellFormed(policy[|policy| - 1], |policy| - 1);
    }
  }

  /*** Counting lines ***/

  /** The values of the records named `name`, in order. */
  function FieldValues(rs: seq<Record>, name: string): seq<string>
    decreases |rs|
  {
    if |rs| == 0 then []
    else (if rs[0].Field? && rs[0].name == name then [rs[0].value] else []) + FieldValues(rs[1..], name)
  }

  function Blanks(rs: seq<Record>): nat
    decreases |rs|
  {
    if |rs| == 0 then 0 else (if rs[0].Blank? then 1 else 0) + Blanks(rs[1..])
  }

  lemma {:induction false} CountsConcat(a: seq<Record>, b: seq<Record>, name: string)
    ensures FieldValues(a + b, name) == FieldValues(a, name) + FieldValues(b, name)
    ensures Blanks(a + b) == Blanks(a) + Blanks(b)
    decreases |a|
  {
    if |a| == 0 {
      assert a + b == b;
    } else {
      assert (a + b)[1..] == a[1..] + b;
      CountsConcat(a[1..], b, name);
    }
  }

  /** Records of one name carry their values in order, under that name and no other. */
  lemma {:induction false} FieldsCounts(name: string, values: seq<string>, other: string)
    ensures FieldValues(Fields(name, values), name) == values
    ensures other != name ==> FieldValues(Fields(name, values), other) == []
    ensures Blanks(Fields(name, values)) == 0
    decreases |values|
  {
    if |values| > 0 {
      var first := Field(name, values[0]);
      var rest := Fields(name, values[1..]);
      assert Fields(name, values) == [first] + rest;
      FieldsCounts(name, values[1..], other);
      CountsConcat([first], rest, name);
      CountsConcat([first], rest, other);
      assert FieldValues([first], name) == [values[0]];
      assert values == [values[0]] + values[1..];
    }
  }

  /** The lines of directive `d` carry its values in order, under its name and no other. */
  lemma DirectiveLinesCounts(d: Directive, values: seq<string>, other: string)
    ensures FieldValues(DirectiveLines(d, values), Name(d)) == seq(|values|, i requires 0 <= i < |values| => Content(d, values[i]))
    ensures other != Name(d) ==> FieldValues(DirectiveLines(d, values), other) == []
    ensures Blanks(DirectiveLines(d, values)) == 0
  {
    var contents := seq(|values|, i requires 0 <= i < |values| => Content(d, values[i]));
    assert DirectiveLines(d, values) == Fields(Name(d), contents);
    FieldsCounts(Name(d), contents, other);
  }

  lemma DirectiveRecordsElsewhere(d: Directive, rule: Rule, other: string)
    requires other != Name(d)
    ensures FieldValues(DirectiveRecords(d, rule), other) == []
    ensures Blanks(DirectiveRecords(d, rule)) == 0
  {
    DirectiveLinesCounts(d, RuleValues(rule), other);
  }

  lemma DisallowRecordsCounts(item: PolicyItem, other: string)
    requires other == "Sitemap" || other == "Host"
    ensures FieldValues(DisallowRecords(item), other) == [] && Blanks(DisallowRecords(item)) == 0
  {
    if item.disallow.Some? {
      DirectiveRecordsElsewhere(DisallowLine, item.disallow.value, other);
    }
  }

  lemma AllowRecordsCounts(item: PolicyItem, other: string)
    requires other == "Sitemap" || other == "Host"
    ensures FieldValues(AllowRecords(item), other) == [] && Blanks(AllowRecords(item)) == 0
  {
    if item.allow.Some? {
      DirectiveRecordsElsewhere(AllowLine, item.allow.value, other);
    }
  }

  lemma CrawlDelayRecordsCounts(item: PolicyItem, other: string)
    requires Renderable(item)
    requires other == "Sitemap" || other == "Host"
    ensures FieldValues(CrawlDelayRecords(item), other) == [] && Blanks(CrawlDelayRecords(item)) == 0
  {
    if item.crawlDelay.Some? && CrawlDelayTruthy(item.crawlDelay.value) {
      DirectiveRecordsElsewhere(CrawlDelayLine, One(IntToString(item.crawlDelay.value.n)), other);
    }
  }

  lemma CleanParamRecordsCounts(item: PolicyItem, other: string)
    requires Renderable(item)
    requires other == "Sitemap" || other == "Host"
    ensures FieldValues(CleanParamRecords(item), other) == [] && Blanks(CleanParamRecords(item)) == 0
  {
    if CleanParamGiven(item.cleanParam) {
      DirectiveRecordsElsewhere(CleanParamLine, CleanParamRule(item.cleanParam.value), other);
    }
  }

  /** A group has no `Sitemap` or `Host` line, and a blank line exactly when it is not the
      first, as its first line. */
  lemma PolicyRecordsCounts(item: PolicyItem, index: nat, other: string)
    requires Renderable(item)
    requires other == "Sitemap" || other == "Host"
    ensures FieldValues(PolicyRecords(item, index), other) == []
    ensures Blanks(PolicyRecords(item, index)) == if index == 0 then 0 else 1
    ensures PolicyRecords(item, index)[0].Blank? <==> index != 0
  {
    var a := SeparatorRecords(index);
    var b := DirectiveRecords(UserAgentLine, item.userAgent.value);
    var c := DisallowRecords(item);
    var d := AllowRecords(item);
    var e := CrawlDelayRecords(item);
    var f := CleanParamRecords(item);
    DirectiveRecordsElsewhere(UserAgentLine, item.userAgent.value, other);
    DisallowRecordsCounts(item, other);
    AllowRecordsCounts(item, other);
    CrawlDelayRecordsCounts(item, other);
    CleanParamRecordsCounts(item, other);
    CountsConcat(a, b, other);
    CountsConcat(a + b, c, other);
    CountsConcat(a + b + c, d, other);
    CountsConcat(a + b + c + d, e, other);
    CountsConcat(a + b + c + d + e, f, other);
    assert |b| >= 1 && b[0].Field?;
    assert index == 0 ==> PolicyRecords(item, index)[0] == b[0];
  }

  lemma {:induction false} PolicyGroupsCounts(policy: seq<PolicyItem>, other: string)
    requires forall i | 0 <= i < |policy| :: Renderable(policy[i])
    requires other == "Sitemap" || other == "Host"
    ensures FieldValues(PolicyGroups(policy), other) == []
    ensures Blanks(PolicyGroups(policy)) == if |policy| == 0 then 0 else |policy| - 1
    decreases |policy|
  {
    if |policy| > 0 {
      var n := |policy| - 1;
      PolicyGroupsCounts(policy[..n], other);
      PolicyRecordsCounts(policy[n], n, other);
      CountsConcat(PolicyGroups(policy[..n]), PolicyRecords(policy[n], n), other);
    }
  }

  lemma SitemapRecordsCounts(sitemaps: seq<string>)
    ensures FieldValues(DirectiveLines(SitemapLine, sitemaps), "Sitemap") == sitemaps
    ensures FieldValues(DirectiveLines(SitemapLine, sitemaps), "Host") == []
    ensures Blanks(DirectiveLines(SitemapLine, sitemaps)) == 0
  {
    DirectiveLinesCounts(SitemapLine, sitemaps, "Host");
    assert seq(|sitemaps|, i requires 0 <= i < |sitemaps| => Content(SitemapLine, sitemaps[i])) == sitemaps;
  }

  lemma HostRecordsCounts(host: string)
    ensures FieldValues(HostRecords(host), "Host") == if host == "" then [] else [host]
    ensures FieldValues(HostRecords(host), "Sitemap") == []
    ensures Blanks(HostRecords(host)) == 0
  {
    if host != "" {
      DirectiveLinesCounts(HostLine, [host], "Sitemap");
      assert seq(1, i requires 0 <= i < 1 => Content(HostLine, [host][i])) == [host];
    }
  }

  /** The shape of the whole file: the `Sitemap` lines are the sitemap URLs in order, there
      is a `Host` line exactly when the host is not empty, and one blank line separates each
      pair of consecutive groups. */
  lemma RobotsRecordsCounts(policy: seq<PolicyItem>, sitemaps: seq<string>, host: string)
    requires forall i | 0 <= i < |policy| :: Renderable(policy[i])
    ensures FieldValues(RobotsRecords(policy, sitemaps, host), "Sitemap") == sitemaps
    ensures FieldValues(RobotsRecords(policy, sitemaps, host), "Host") == if host == "" then [] else [host]
    ensures Blanks(RobotsRecords(policy, sitemaps, host)) == if |policy| == 0 then 0 else |policy| - 1
  {
    var g := PolicyGroups(policy);
    var s := DirectiveLines(SitemapLine, sitemaps);
    var h := HostRecords(host);
    PolicyGroupsCounts(policy, "Sitemap");
    PolicyGroupsCounts(policy, "Host");
    SitemapRecordsCounts(sitemaps);
    HostRecordsCounts(host);
    CountsConcat(g, s, "Sitemap");
    CountsConcat(g + s, h, "Sitemap");
    CountsConcat(g, s, "Host");
    CountsConcat(g + s, h, "Host");
  }

  /** The generated text reads back as exactly the records of the file, provided the user
      agents, clean-param values, sitemap URLs and host contain no line break. */
  lemma RobotsTextReadsBack(policy: seq<PolicyItem>, sitemaps: seq<string>, host: string)
    requires forall i | 0 <= i < |policy| :: Renderable(policy[i]) && GroupSingleLine(policy[i])
    requires forall u <- sitemaps :: SingleLine(u)
    requires SingleLine(host)
    ensures ParseRecords(Render(RobotsRecords(policy, sitemaps, host))) == Some(RobotsRecords(policy, sitemaps, host))
  {
    PolicyGroupsWellFormed(policy);
    DirectiveLinesWellFormed(SitemapLine, sitemaps);
    assert forall r <- HostRecords(host) :: WellFormed(r) by {
      DirectiveLinesWellFormed(HostLine, [host]);
    }
    ParseRender(RobotsRecords(policy, sitemaps, host));
  }

  /** The generated file read back, when the user agents, clean-param values, sitemap URLs
      and host contain no line break: the records come back, and with them one `Sitemap` value
      per URL in order, a `Host` value exactly for a non-empty host, and one blank line fewer
      than groups. */
  lemma RobotsTextShape(policy: seq<PolicyItem>, sitemaps: seq<string>, host: string)
    requires forall i | 0 <= i < |policy| :: Renderable(policy[i]) && GroupSingleLine(policy[i])
    requires forall u <- sitemaps :: SingleLine(u)
    requires SingleLine(host)
    ensures var parsed := ParseRecords(Render(RobotsRecords(policy, sitemaps, host)));
      && parsed.Some?
      && FieldValues(parsed.value, "Sitemap") == sitemaps
      && FieldValues(parsed.value, "Host") == (if host == "" then [] else [host])
      && Blanks(parsed.value) == if |policy| == 0 then 0 else |policy| - 1
  {
    RobotsTextReadsBack(policy, sitemaps, host);
    RobotsRecordsCounts(policy, sitemaps, host);
  }
}
