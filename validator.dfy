/**
  The validator of src/index.ts: the checks `getRobotsTxtContent` applies to
  the `host`, `sitemap` and `policy` options before anything is generated,
  and `getSitemap`, which turns an accepted `sitemap` option into URLs.
  A check answers `Pass` or `Fail` with the tag of the diagnostic the source
  logs (for an invalid URL in a `sitemap` array, which the source does not
  log, the tag of the single-URL case); the source itself only returns `false`.
*/
module Validator {
  import opened Wrappers
  import opened JsStrings
  import opened RobotsConfig

  /*** The first failure in a list of checks ***/

  /** The verdict of a `for...of` loop that returns at the first element failing `check`. */
  function FirstFailure<T>(xs: seq<T>, check: T -> Outcome<Reason>): Outcome<Reason>
    decreases |xs|
  {
    if |xs| == 0 then Pass
    else if check(xs[0]).Fail? then check(xs[0])
    else FirstFailure(xs[1..], check)
  }

  /** All-or-nothing: the list passes exactly when every element passes. */
  lemma {:induction false} FirstFailurePassesIffAll<T>(xs: seq<T>, check: T -> Outcome<Reason>)
    ensures FirstFailure(xs, check).Pass? <==> forall i | 0 <= i < |xs| :: check(xs[i]).Pass?
    decreases |xs|
  {
    if |xs| > 0 {
      FirstFailurePassesIffAll(xs[1..], check);
      assert forall i | 1 <= i < |xs| :: xs[i] == xs[1..][i - 1];
    }
  }

  /** The verdict is that of the first failing element, whichever it is. */
  lemma {:induction false} FirstFailureAt<T>(xs: seq<T>, check: T -> Outcome<Reason>, k: nat)
    requires k < |xs| && check(xs[k]).Fail?
    requires forall j | 0 <= j < k :: check(xs[j]).Pass?
    ensures FirstFailure(xs, check) == check(xs[k])
    decreases k
  {
    if k > 0 {
      assert check(xs[0]).Pass?;
      assert forall j | 0 <= j < k - 1 :: xs[1..][j] == xs[j + 1];
      FirstFailureAt(xs[1..], check, k - 1);
    }
  }

  /*** `isValidUrl` ***/

  /** `isValidUrl`: a non-empty string accepted by the WHATWG URL parser, which is
      the parameter `urlParses` here. */
  function IsValidUrl(v: Value, urlParses: string -> bool): (ok: bool)
    ensures ok ==> v.Str? && v.s != ""
    ensures v.Str? && v.s != "" ==> (ok <==> urlParses(v.s))
  {
    v.Str? && v.s != "" && urlParses(v.s)
  }

  /*** `sitemap` ***/

  /** The verdict of `isValidSitemap` on the `sitemap` option. */
  function SitemapCheck(sitemap: Sitemap, urlParses: string -> bool): Outcome<Reason>
  {
    match sitemap
    case SitemapOther => Fail(SitemapWrongType)
    case Flag(_) => Pass
    case SitemapUrl(u) => if u == "" || IsValidUrl(Str(u), urlParses) then Pass else Fail(SitemapUrlInvalid)
    case SitemapList(items) =>
      if forall i | 0 <= i < |items| :: IsValidUrl(items[i], urlParses) then Pass else Fail(SitemapUrlInvalid)
  }

  /** `isValidSitemap`: the type test, the falsy shortcut, then a URL test per element. */
  method IsValidSitemap(sitemap: Sitemap, urlParses: string -> bool) returns (result: Outcome<Reason>)
    ensures result == SitemapCheck(sitemap, urlParses)
  {
    if sitemap.SitemapOther? {
      return Fail(SitemapWrongType);
    }
    if !SitemapTruthy(sitemap) {
      return Pass;
    }
    match sitemap {
      case SitemapUrl(u) =>
        if !IsValidUrl(Str(u), urlParses) {
          return Fail(SitemapUrlInvalid);
        }
      case SitemapList(items) =>
        var i := 0;
        while i < |items|
          invariant 0 <= i <= |items|
          invariant forall j | 0 <= j < i :: IsValidUrl(items[j], urlParses)
        {
          if !IsValidUrl(items[i], urlParses) {
            return Fail(SitemapUrlInvalid);
          }
          i := i + 1;
        }
      case Flag(_) =>
    }
    return Pass;
  }

  /** An accepted `sitemap` option is a boolean, a string (empty, or a URL the parser
      accepts) or an array every element of which is a non-empty string the parser accepts. */
  lemma SitemapAccepted(sitemap: Sitemap, urlParses: string -> bool)
    ensures SitemapCheck(sitemap, urlParses).Pass? <==>
      match sitemap
      case SitemapOther => false
      case Flag(_) => true
      case SitemapUrl(u) => u == "" || urlParses(u)
      case SitemapList(items) =>
        forall i | 0 <= i < |items| :: items[i].Str? && items[i].s != "" && urlParses(items[i].s)
  {
  }

  /** The sitemap URL derived from the site URL: `sitemap.xml` after the site URL, with a
      slash between them added only when the site URL does not already end in one. */
  function DerivedSitemapUrl(siteUrl: string): (url: string)
    ensures StartsWith(url, siteUrl)
    ensures EndsWith(url, "/sitemap.xml")
    ensures |url| == |siteUrl| + |"sitemap.xml"| <==> EndsWith(siteUrl, "/")
    ensures !EndsWith(siteUrl, "/") ==> |url| == |siteUrl| + |"/sitemap.xml"|
  {
    var url := siteUrl + (if EndsWith(siteUrl, "/") then "" else "/") + "sitemap.xml";
    assert url[..|siteUrl|] == siteUrl;
    assert EndsWith(siteUrl, "/") ==> url[|url| - 12..] == siteUrl[|siteUrl| - 1..] + "sitemap.xml";
    url
  }

  /** `getSitemap`: the sitemap URLs an accepted `sitemap` option stands for. */
  function GetSitemap(sitemap: Sitemap, siteUrl: string): (urls: seq<string>)
    requires !sitemap.SitemapOther?
    requires sitemap.SitemapList? ==> AllStrings(sitemap.items)
    ensures !SitemapTruthy(sitemap) ==> urls == []
    ensures sitemap.SitemapUrl? && sitemap.url != "" ==> urls == [sitemap.url]
    ensures sitemap.SitemapList? ==>
      |urls| == |sitemap.items| && forall i | 0 <= i < |urls| :: sitemap.items[i] == Str(urls[i])
    ensures sitemap == Flag(true) ==> urls == [DerivedSitemapUrl(siteUrl)]
  {
    if !SitemapTruthy(sitemap) then []
    else if sitemap.SitemapUrl? then [sitemap.url]
    else if sitemap.SitemapList? then Strings(sitemap.items)
    else [DerivedSitemapUrl(siteUrl)]
  }

  /** An accepted option is one `getSitemap` is defined on; an accepted array comes back
      unchanged, in order, each element a non-empty string. */
  lemma SitemapAcceptedIsNormalised(sitemap: Sitemap, urlParses: string -> bool, siteUrl: string)
    requires SitemapCheck(sitemap, urlParses).Pass?
    ensures !sitemap.SitemapOther?
    ensures sitemap.SitemapList? ==> AllStrings(sitemap.items)
    ensures sitemap.SitemapList? ==>
      var urls := GetSitemap(sitemap, siteUrl);
      forall i | 0 <= i < |urls| :: urls[i] != "" && Str(urls[i]) == sitemap.items[i]
  {
    if sitemap.SitemapList? {
      assert forall i | 0 <= i < |sitemap.items| :: IsValidUrl(sitemap.items[i], urlParses);
    }
  }

  /*** `host` ***/

  predicate HostChar(c: char) { IsAlnum(c) || c == '-' || c == '.' }

  /** `s` splits after its first `n` characters into pattern characters and an optional dot. */
  predicate HostPatternSplit(s: string, n: nat)
    requires n <= |s|
  {
    (forall i | 0 <= i < n :: HostChar(s[i])) && (s[n..] == "" || s[n..] == ".")
  }

  /** The anchored pattern `^[a-zA-Z0-9-.]{1,253}\.?$` of `isValidHostname`. */
  predicate MatchesHostPattern(s: string)
  {
    exists n: nat | 1 <= n <= 253 && n <= |s| :: HostPatternSplit(s, n)
  }

  /** The label pattern `^([a-zA-Z0-9-]+)$`. */
  predicate MatchesLabelPattern(part: string)
  {
    |part| >= 1 && forall c <- part :: IsAlnum(c) || c == '-'
  }

  /** The test `isValidHostname` applies to each `.`-separated label. */
  predicate LabelAccepted(part: string)
  {
    MatchesLabelPattern(part) && Utf16Length(part) < 64 && !StartsWith(part, "-") && !EndsWith(part, "-")
  }

  function StripTrailingDot(s: string): string
  {
    if EndsWith(s, ".") then s[..|s| - 1] else s
  }

  /** A DNS label: 1 to 63 letters, digits and hyphens, with no hyphen at either end. */
  predicate DnsLabel(part: string)
  {
    && 1 <= |part| <= 63
    && (forall c <- part :: IsAlnum(c) || c == '-')
    && part[0] != '-'
    && part[|part| - 1] != '-'
  }

  /** The hostname grammar: letters, digits, `-` and `.` only; after one trailing dot is
      dropped, at most 253 characters, every `.`-separated label a DNS label. */
  predicate HostnameGrammar(s: string)
  {
    && (forall c <- s :: HostChar(c))
    && |StripTrailingDot(s)| <= 253
    && forall part <- Split(StripTrailingDot(s), '.') :: DnsLabel(part)
  }

  /** What the pattern of line 164 admits: pattern characters only, at least one, and at
      most 253 once a trailing dot is dropped. */
  lemma HostPatternIff(s: string)
    ensures MatchesHostPattern(s) <==>
      |s| >= 1 && (forall c <- s :: HostChar(c)) && |StripTrailingDot(s)| <= 253
  {
    if |s| >= 1 && (forall c <- s :: HostChar(c)) && |StripTrailingDot(s)| <= 253 {
      HostCharsMatchPattern(s);
    }
    if MatchesHostPattern(s) {
      PatternHasHostChars(s);
    }
  }

  /** Up to 253 host characters match on their own; a 254th can only be the optional dot. */
  lemma HostCharsMatchPattern(s: string)
    requires |s| >= 1 && (forall c <- s :: HostChar(c)) && |StripTrailingDot(s)| <= 253
    ensures MatchesHostPattern(s)
  {
    if |s| <= 253 {
      assert s[|s|..] == "";
      assert HostPatternSplit(s, |s|);
    } else {
      assert EndsWith(s, ".") && |s| == 254;
      assert s[253..] == [s[253]] == ".";
      assert HostPatternSplit(s, 253);
    }
  }

  /** A match has host characters only, and at most 253 once the optional dot is dropped. */
  lemma PatternHasHostChars(s: string)
    requires MatchesHostPattern(s)
    ensures |s| >= 1 && (forall c <- s :: HostChar(c)) && |StripTrailingDot(s)| <= 253
  {
    var n: nat :| 1 <= n <= 253 && n <= |s| && HostPatternSplit(s, n);
    assert s == s[..n] + s[n..];
    forall c | c in s ensures HostChar(c) {
      var i :| 0 <= i < |s| && s[i] == c;
      if i >= n {
        assert s[n..][i - n] == '.';
      }
    }
    if s[n..] == "." {
      assert EndsWith(s, ".") && s[..|s| - 1] == s[..n];
    }
  }

  lemma LabelAcceptedIsDnsLabel(part: string)
    ensures LabelAccepted(part) <==> DnsLabel(part)
  {
    if MatchesLabelPattern(part) {
      assert Utf16Length(part) == |part|;
      assert StartsWith(part, "-") <==> part[0] == '-';
      assert EndsWith(part, "-") <==> part[|part| - 1] == '-';
    }
    if DnsLabel(part) {
      assert Utf16Length(part) == |part|;
    }
  }

  /** `isValidHostname`: the pattern test, then the trailing dot is dropped, then the
      length test, then every part. */
  method IsValidHostname(value: Value) returns (ok: bool)
    ensures ok <==> value.Str? && HostnameGrammar(value.s)
  {
    if !value.Str? {
      return false;
    }
    var host := value.s;
    HostPatternIff(host);
    if !MatchesHostPattern(host) {
      if |host| == 0 {
        assert Split(StripTrailingDot(host), '.') == [""];
        assert !DnsLabel("");
      }
      return false;
    }
    if EndsWith(host, ".") {
      host := host[..|host| - 1];
    }
    assert host == StripTrailingDot(value.s);
    assert Utf16Length(host) == |host|;
    if Utf16Length(host) > 253 {
      return false;
    }
    forall part <- Split(host, '.') {
      LabelAcceptedIsDnsLabel(part);
    }
    ok := forall part <- Split(host, '.') :: LabelAccepted(part);
  }

  lemma {:induction false} JoinChars(parts: seq<string>, sep: char, c: char)
    requires c in Join(parts, sep)
    ensures c == sep || exists p <- parts :: c in p
    decreases |parts|
  {
    if |parts| > 1 {
      var rest := Join(parts[1..], sep);
      if c !in parts[0] && c != sep {
        assert c in rest;
        JoinChars(parts[1..], sep, c);
        var p :| p in parts[1..] && c in p;
        assert p in parts;
      }
    }
  }

  lemma {:induction false} JoinLastChar(parts: seq<string>, sep: char)
    requires |parts| >= 1 && |parts[|parts| - 1]| >= 1
    ensures var j := Join(parts, sep); |j| >= 1 && j[|j| - 1] == parts[|parts| - 1][|parts[|parts| - 1]| - 1]
    decreases |parts|
  {
    if |parts| > 1 {
      assert parts[1..][|parts| - 2] == parts[|parts| - 1];
      JoinLastChar(parts[1..], sep);
    }
  }

  /** `s` is the dot-join of the DNS labels `labels`, at most 253 characters long,
      possibly followed by one dot. */
  predicate JoinOfLabels(s: string, labels: seq<string>)
  {
    && |labels| >= 1
    && (forall part <- labels :: DnsLabel(part))
    && |Join(labels, '.')| <= 253
    && (s == Join(labels, '.') || s == Join(labels, '.') + ".")
  }

  /** A host name is accepted by the grammar exactly when it is a dot-join of DNS labels,
      at most 253 characters long, possibly followed by one dot. */
  lemma HostnameIsJoinOfLabels(s: string)
    ensures HostnameGrammar(s) <==> exists labels: seq<string> :: JoinOfLabels(s, labels)
  {
    if HostnameGrammar(s) {
      GrammarGivesLabels(s);
    }
    if exists labels: seq<string> :: JoinOfLabels(s, labels) {
      var labels: seq<string> :| JoinOfLabels(s, labels);
      LabelsGiveGrammar(s, labels);
    }
  }

  /** The parts of an accepted host name are the labels it joins. */
  lemma GrammarGivesLabels(s: string)
    requires HostnameGrammar(s)
    ensures JoinOfLabels(s, Split(StripTrailingDot(s), '.'))
  {
    var t := StripTrailingDot(s);
    JoinSplit(t, '.');
    assert EndsWith(s, ".") ==> s == t + ".";
  }

  /** A dot-join of DNS labels has those labels as its parts, and only host characters. */
  lemma LabelsGiveGrammar(s: string, labels: seq<string>)
    requires JoinOfLabels(s, labels)
    ensures HostnameGrammar(s)
  {
    var t := StripTrailingDot(s);
    var j := Join(labels, '.');
    var last := labels[|labels| - 1];
    assert DnsLabel(last);
    JoinLastChar(labels, '.');
    assert last[|last| - 1] in last;
    assert j[|j| - 1] != '.';
    if s == j {
      assert t == j;
    } else {
      assert s[..|s| - 1] == j;
      assert t == j;
    }
    forall part <- labels ensures '.' !in part {
      assert DnsLabel(part);
    }
    SplitJoin(labels, '.');
    forall c | c in s ensures HostChar(c) {
      if c in j {
        JoinChars(labels, '.', c);
      } else {
        assert s == j + ".";
        assert c == s[|s| - 1];
      }
    }
  }

  lemma {:induction false} DoubleSeparatorGivesEmptyPart(s: string, sep: char, i: nat)
    requires i + 1 < |s| && s[i] == sep && s[i + 1] == sep
    ensures "" in Split(s, sep)[1..]
    decreases i
  {
    if i == 0 {
      assert s[1..][0] == sep;
      assert Split(s[1..], sep) == [""] + Split(s[2..], sep) by {
        assert s[1..][1..] == s[2..];
      }
    } else {
      assert s[1..][i - 1] == sep && s[1..][i] == sep;
      DoubleSeparatorGivesEmptyPart(s[1..], sep, i - 1);
    }
  }

  lemma {:induction false} TrailingSeparatorGivesEmptyPart(s: string, sep: char)
    requires |s| >= 1 && s[|s| - 1] == sep
    ensures "" in Split(s, sep)[1..]
    decreases |s|
  {
    if |s| == 1 {
      assert s[1..] == "";
    } else {
      assert s[1..][|s| - 2] == sep;
      TrailingSeparatorGivesEmptyPart(s[1..], sep);
    }
  }

  /** Two consecutive dots make an empty part, so such a host is rejected. */
  lemma ConsecutiveDotsRejected(s: string, i: nat)
    requires i + 1 < |s| && s[i] == '.' && s[i + 1] == '.'
    ensures !HostnameGrammar(s)
  {
    var t := StripTrailingDot(s);
    if i + 1 < |t| {
      assert t[i] == '.' && t[i + 1] == '.';
      DoubleSeparatorGivesEmptyPart(t, '.', i);
    } else {
      assert t == s[..|s| - 1] && t[|t| - 1] == '.';
      TrailingSeparatorGivesEmptyPart(t, '.');
    }
    assert !DnsLabel("");
  }

  /** A leading dot makes an empty first part, so such a host is rejected. */
  lemma LeadingDotRejected(s: string)
    requires |s| >= 1 && s[0] == '.'
    ensures !HostnameGrammar(s)
  {
    var t := StripTrailingDot(s);
    if |t| == 0 {
      assert Split(t, '.') == [""];
    } else {
      assert t[0] == '.';
      assert Split(t, '.')[0] == "";
    }
    assert !DnsLabel("");
  }

  /** Two DNS labels joined by a dot form a hostname, whether or not a trailing dot follows. */
  lemma TwoLabelHost(a: string, b: string, t: string)
    requires DnsLabel(a) && DnsLabel(b) && |a| + |b| + 1 <= 253
    requires t == "" || t == "."
    ensures HostnameGrammar(a + "." + b + t)
  {
    var labels := [a, b];
    assert labels[1..] == [b];
    assert Join(labels, '.') == a + "." + b;
    LabelsGiveGrammar(a + "." + b + t, labels);
  }

  lemma HostExampleAccepted()
    ensures HostnameGrammar("example.com")
  {
    var a, b := "example", "com";
    assert DnsLabel(a) && DnsLabel(b);
    TwoLabelHost(a, b, "");
    assert a + "." + b + "" == "example.com";
  }

  lemma HostExampleRejected()
    ensures !HostnameGrammar("bad_host!")
  {
    var s := "bad_host!";
    assert s[3] in s && !HostChar(s[3]);
  }

  /*** `cleanParam` and `policy` ***/

  /** `isValidCleanParamItem`. */
  function CleanParamItemCheck(item: Value): (r: Outcome<Reason>)
    ensures r.Pass? <==> item.Str? && Utf16Length(item.s) <= 500
    ensures r.Fail? ==> (r.error == CleanParamNotString <==> !item.Str?)
    ensures r.Fail? ==> r.error == CleanParamNotString || r.error == CleanParamTooLong
  {
    match item
    case NonString(_) => Fail(CleanParamNotString)
    case Str(s) => if Utf16Length(s) > 500 then Fail(CleanParamTooLong) else Pass
  }

  /** The length bound is inclusive: 500 characters pass, 501 do not. */
  lemma CleanParamLengthBoundary(s: string)
    requires forall c <- s :: c as int < 0x10000
    ensures CleanParamItemCheck(Str(s)).Pass? <==> |s| <= 500
    ensures |s| > 500 ==> CleanParamItemCheck(Str(s)) == Fail(CleanParamTooLong)
  {
    assert Utf16Length(s) == |s|;
  }

  /** The test of the `cleanParam` property of a policy entry. */
  function CleanParamCheck(param: Option<CleanParam>): Outcome<Reason>
  {
    if param.None? || !CleanParamTruthy(param.value) then Pass
    else
      match param.value
      case ParamList(items) => FirstFailure(items, CleanParamItemCheck)
      case ParamString(s) => CleanParamItemCheck(Str(s))
      case ParamOther(_) => Fail(CleanParamWrongType)
  }

  /** `!item.userAgent || item.userAgent.length === 0` */
  predicate UserAgentMissingTest(userAgent: Option<Rule>)
  {
    || userAgent.None?
    || !RuleTruthy(userAgent.value)
    || (match userAgent.value
        case One(s) => Utf16Length(s)
        case Many(xs) => |xs|) == 0
  }

  /** JavaScript's `Number.isFinite`: false for every value that is not a number. */
  predicate NumberIsFinite(d: CrawlDelay) { d.Seconds? }

  /** `item.crawlDelay && typeof item.crawlDelay !== 'number' && !Number.isFinite(item.crawlDelay)` */
  predicate CrawlDelayRejectedTest(crawlDelay: Option<CrawlDelay>)
  {
    crawlDelay.Some? && CrawlDelayTruthy(crawlDelay.value) && !crawlDelay.value.Seconds? && !NumberIsFinite(crawlDelay.value)
  }

  /** The tests applied to one entry of the `policy` array, in the source's order. */
  function PolicyItemCheck(item: PolicyItem): Outcome<Reason>
  {
    if UserAgentMissingTest(item.userAgent) then Fail(UserAgentMissing)
    else if CrawlDelayRejectedTest(item.crawlDelay) then Fail(CrawlDelayNotNumber)
    else CleanParamCheck(item.cleanParam)
  }

  /** The verdict of `isValidPolicy`. */
  function PolicyCheck(policy: PolicyOption): Outcome<Reason>
  {
    match policy
    case FalsyPolicy => Fail(PolicyUndefined)
    case NonArrayPolicy => Fail(PolicyNotArray)
    case PolicyArray(items) => if |items| == 0 then Fail(PolicyEmpty) else FirstFailure(items, PolicyItemCheck)
  }

  /** `isValidPolicy`: the shape tests, then a loop over the entries that returns at the
      first failing test, with an inner loop over a `cleanParam` array. */
  method IsValidPolicy(policy: PolicyOption) returns (result: Outcome<Reason>)
    ensures result == PolicyCheck(policy)
  {
    if policy.FalsyPolicy? {
      return Fail(PolicyUndefined);
    }
    if policy.NonArrayPolicy? {
      return Fail(PolicyNotArray);
    }
    var items := policy.items;
    if |items| == 0 {
      return Fail(PolicyEmpty);
    }
    var i := 0;
    while i < |items|
      invariant 0 <= i <= |items|
      invariant FirstFailure(items, PolicyItemCheck) == FirstFailure(items[i..], PolicyItemCheck)
    {
      var item := items[i];
      assert items[i..][0] == item && items[i..][1..] == items[i + 1..];
      if UserAgentMissingTest(item.userAgent) {
        return Fail(UserAgentMissing);
      }
      if CrawlDelayRejectedTest(item.crawlDelay) {
        return Fail(CrawlDelayNotNumber);
      }
      if item.cleanParam.Some? && CleanParamTruthy(item.cleanParam.value) {
        match item.cleanParam.value {
          case ParamList(sub) =>
            var j := 0;
            while j < |sub|
              invariant 0 <= j <= |sub|
              invariant FirstFailure(sub, CleanParamItemCheck) == FirstFailure(sub[j..], CleanParamItemCheck)
            {
              assert sub[j..][0] == sub[j] && sub[j..][1..] == sub[j + 1..];
              var verdict := CleanParamItemCheck(sub[j]);
              if verdict.Fail? {
                return verdict;
              }
              j := j + 1;
            }
          case ParamString(s) =>
            var verdict := CleanParamItemCheck(Str(s));
            if verdict.Fail? {
              return verdict;
            }
          case ParamOther(_) =>
            return Fail(CleanParamWrongType);
        }
      }
      i := i + 1;
    }
    return Pass;
  }

  /** The `cleanParam` property passes exactly when it is falsy, a string of at most 500
      UTF-16 units, or an array whose every element is such a string. */
  lemma CleanParamAccepted(param: Option<CleanParam>)
    ensures CleanParamCheck(param).Pass? <==>
      || param.None?
      || !CleanParamTruthy(param.value)
      || (param.value.ParamString? && Utf16Length(param.value.s) <= 500)
      || (param.value.ParamList? &&
          forall i | 0 <= i < |param.value.items| ::
            param.value.items[i].Str? && Utf16Length(param.value.items[i].s) <= 500)
  {
    if param.Some? && param.value.ParamList? {
      FirstFailurePassesIffAll(param.value.items, CleanParamItemCheck);
    }
  }

  /** A policy entry passes exactly when it has a non-empty `userAgent`, its `crawlDelay`
      is not a truthy non-number, and its `cleanParam` passes. */
  lemma PolicyItemAccepted(item: PolicyItem)
    ensures PolicyItemCheck(item).Pass? <==>
      && item.userAgent.Some?
      && (match item.userAgent.value
          case One(s) => s != ""
          case Many(xs) => xs != [])
      && item.crawlDelay != Some(NotNumber(true))
      && CleanParamCheck(item.cleanParam).Pass?
  {
    if item.userAgent.Some? && item.userAgent.value.One? && item.userAgent.value.s != "" {
      assert Utf16Length(item.userAgent.value.s) >= 1;
    }
  }

  /** All or nothing: the policy passes exactly when it is a non-empty array every entry
      of which passes; otherwise the reason is that of the first failing entry. */
  lemma PolicyAllOrNothing(policy: PolicyOption)
    ensures PolicyCheck(policy).Pass? <==>
      policy.PolicyArray? && |policy.items| > 0 &&
      forall i | 0 <= i < |policy.items| :: PolicyItemCheck(policy.items[i]).Pass?
    ensures policy.PolicyArray? && |policy.items| > 0 ==>
      forall k | 0 <= k < |policy.items| ::
        PolicyItemCheck(policy.items[k]).Fail? &&
        (forall j | 0 <= j < k :: PolicyItemCheck(policy.items[j]).Pass?) ==>
        PolicyCheck(policy) == PolicyItemCheck(policy.items[k])
  {
    if policy.PolicyArray? {
      FirstFailurePassesIffAll(policy.items, PolicyItemCheck);
      forall k | 0 <= k < |policy.items| &&
        PolicyItemCheck(policy.items[k]).Fail? &&
        (forall j | 0 <= j < k :: PolicyItemCheck(policy.items[j]).Pass?)
        ensures FirstFailure(policy.items, PolicyItemCheck) == PolicyItemCheck(policy.items[k])
      {
        FirstFailureAt(policy.items, PolicyItemCheck, k);
      }
    }
  }

  /** An accepted policy is one the generator can render. */
  lemma AcceptedPolicyIsRenderable(policy: PolicyOption)
    requires PolicyCheck(policy).Pass?
    ensures policy.PolicyArray?
    ensures forall i | 0 <= i < |policy.items| :: Renderable(policy.items[i])
  {
    PolicyAllOrNothing(policy);
    forall i | 0 <= i < |policy.items| ensures Renderable(policy.items[i]) {
      var item := policy.items[i];
      assert PolicyItemCheck(item).Pass?;
      CleanParamAccepted(item.cleanParam);
    }
  }
}
