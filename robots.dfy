/**
  `getRobotsTxtContent` in src/index.ts: the options are defaulted, checked in
  a fixed order (site, host, sitemap, policy), the sitemap URLs derived, and
  the text generated. The first failing check decides the outcome; the
  generated text is returned only when all of them pass.
*/
module Robots {
  import opened Wrappers
  import opened JsStrings
  import opened RobotsConfig
  import opened Validator
  import opened Serializer
  import opened RobotsText

  /** The options after the parameter defaults: an absent property takes its default. */
  function HostOption(options: RobotsTxtOptions): Value
  {
    if options.host.Some? then options.host.value else DefaultHost
  }

  function SitemapOption(options: RobotsTxtOptions): Sitemap
  {
    if options.sitemap.Some? then options.sitemap.value else DefaultSitemap
  }

  function PolicyOptionOf(options: RobotsTxtOptions): PolicyOption
  {
    if options.policy.Some? then options.policy.value else DefaultPolicy
  }

  /** `host && !isValidHostname(host)`: a falsy host is not checked. */
  function HostCheck(host: Value): (r: Outcome<Reason>)
    ensures r == Pass || r == Fail(HostInvalid)
    ensures host.Str? ==> (r.Pass? <==> host.s == "" || HostnameGrammar(host.s))
    ensures host.NonString? ==> (r.Pass? <==> !host.truthy)
  {
    if ValueTruthy(host) && !(host.Str? && HostnameGrammar(host.s)) then Fail(HostInvalid) else Pass
  }

  /** The host `generateRobotsTxt` receives, as the text its `if (host)` tests: a falsy
      value writes no `Host` line, as the empty string does. */
  function HostText(host: Value): string
  {
    if host.Str? then host.s else ""
  }

  /** What `getRobotsTxtContent(site, options)` returns: the robots.txt text, or the reason
      of the first check that fails (`undefined` in the source). */
  function RobotsTxtContent(site: Option<string>, options: RobotsTxtOptions, urlParses: string -> bool): Result<string, Reason>
  {
    var host := HostOption(options);
    var sitemap := SitemapOption(options);
    var policy := PolicyOptionOf(options);
    if site.None? || site.value == "" then Err(SiteMissing)
    else if HostCheck(host).Fail? then Err(HostCheck(host).error)
    else if SitemapCheck(sitemap, urlParses).Fail? then Err(SitemapCheck(sitemap, urlParses).error)
    else if PolicyCheck(policy).Fail? then Err(PolicyCheck(policy).error)
    else
      SitemapAcceptedIsNormalised(sitemap, urlParses, site.value);
      AcceptedPolicyIsRenderable(policy);
      Ok(Render(RobotsRecords(policy.items, GetSitemap(sitemap, site.value), HostText(host))))
  }

  /** `getRobotsTxtContent`. */
  method GetRobotsTxtContent(site: Option<string>, options: RobotsTxtOptions, urlParses: string -> bool)
    returns (result: Result<string, Reason>)
    ensures result == RobotsTxtContent(site, options, urlParses)
  {
    var host := HostOption(options);
    var sitemap := SitemapOption(options);
    var policy := PolicyOptionOf(options);
    if site.None? || site.value == "" {
      return Err(SiteMissing);
    }
    if ValueTruthy(host) {
      var ok := IsValidHostname(host);
      if !ok {
        return Err(HostInvalid);
      }
    }
    var sitemapOutcome := IsValidSitemap(sitemap, urlParses);
    if sitemapOutcome.Fail? {
      return Err(sitemapOutcome.error);
    }
    SitemapAcceptedIsNormalised(sitemap, urlParses, site.value);
    var siteMap := GetSitemap(sitemap, site.value);
    var policyOutcome := IsValidPolicy(policy);
    if policyOutcome.Fail? {
      return Err(policyOutcome.error);
    }
    AcceptedPolicyIsRenderable(policy);
    var contents := GenerateRobotsTxt(policy.items, siteMap, HostText(host));
    return Ok(contents);
  }

  /** The checks run in order and the first failure decides: a missing site is reported
      whatever the options, a bad host before any sitemap problem, a sitemap problem before
      any policy problem; text is produced exactly when every check passes. */
  lemma ChecksInOrder(site: Option<string>, options: RobotsTxtOptions, urlParses: string -> bool)
    ensures site.None? || site == Some("") ==> RobotsTxtContent(site, options, urlParses) == Err(SiteMissing)
    ensures site.Some? && site.value != "" && HostCheck(HostOption(options)).Fail? ==>
      RobotsTxtContent(site, options, urlParses) == Err(HostInvalid)
    ensures (site.Some? && site.value != "" && HostCheck(HostOption(options)).Pass? &&
             SitemapCheck(SitemapOption(options), urlParses).Fail?) ==>
      RobotsTxtContent(site, options, urlParses) == Err(SitemapCheck(SitemapOption(options), urlParses).error)
    ensures RobotsTxtContent(site, options, urlParses).Ok? <==>
      && site.Some? && site.value != ""
      && (ValueTruthy(HostOption(options)) ==> HostOption(options).Str? && HostnameGrammar(HostOption(options).s))
      && SitemapCheck(SitemapOption(options), urlParses).Pass?
      && PolicyCheck(PolicyOptionOf(options)).Pass?
  {
  }

  /** The text of an accepted call, as the records it renders. */
  lemma AcceptedContent(site: Option<string>, options: RobotsTxtOptions, urlParses: string -> bool)
    requires RobotsTxtContent(site, options, urlParses).Ok?
    ensures site.Some? && SitemapCheck(SitemapOption(options), urlParses).Pass? && PolicyCheck(PolicyOptionOf(options)).Pass?
    ensures !SitemapOption(options).SitemapOther?
    ensures SitemapOption(options).SitemapList? ==> AllStrings(SitemapOption(options).items)
    ensures PolicyOptionOf(options).PolicyArray?
    ensures forall i | 0 <= i < |PolicyOptionOf(options).items| :: Renderable(PolicyOptionOf(options).items[i])
    ensures HostCheck(HostOption(options)).Pass?
    ensures RobotsTxtContent(site, options, urlParses).value ==
      Render(RobotsRecords(PolicyOptionOf(options).items, GetSitemap(SitemapOption(options), site.value), HostText(HostOption(options))))
  {
    SitemapAcceptedIsNormalised(SitemapOption(options), urlParses, site.value);
    AcceptedPolicyIsRenderable(PolicyOptionOf(options));
  }

  lemma DefaultPolicyGroups()
    ensures PolicyGroups([DefaultPolicyItem]) == [Field("User-agent", "*"), Field("Allow", "/")]
  {
    var policy := [DefaultPolicyItem];
    var item := DefaultPolicyItem;
    assert PolicyGroups(policy) == PolicyRecords(item, 0) by {
      assert policy[..0] == [];
      assert PolicyGroups(policy[..0]) == [];
    }
    assert DirectiveRecords(UserAgentLine, One("*")) == [Field("User-agent", "*")];
    assert DirectiveRecords(AllowLine, One("/")) == [Field("Allow", "/")] by {
      EncodeUriKeepsUnescaped("/");
    }
    FirstGroupWithAllow(item);
  }

  /** The first group of an entry with only a user agent and a truthy `allow`. */
  lemma FirstGroupWithAllow(item: PolicyItem)
    requires item.userAgent.Some? && item.allow.Some? && RuleTruthy(item.allow.value)
    requires item.disallow.None? && item.crawlDelay.None? && item.cleanParam.None?
    ensures PolicyRecords(item, 0) ==
      DirectiveRecords(UserAgentLine, item.userAgent.value) + DirectiveRecords(AllowLine, item.allow.value)
  {
    assert SeparatorRecords(0) == [] && DisallowRecords(item) == [];
    assert CrawlDelayRecords(item) == [] && CleanParamRecords(item) == [];
  }


  lemma DefaultAccepted(site: string, urlParses: string -> bool)
    requires site != ""
    ensures RobotsTxtContent(Some(site), RobotsTxtOptions(None, None, None), urlParses).Ok?
    ensures GetSitemap(DefaultSitemap, site) == [DerivedSitemapUrl(site)]
  {
    assert PolicyCheck(DefaultPolicy).Pass? by {
      assert Utf16Length("*") >= 1;
      assert PolicyItemCheck(DefaultPolicyItem) == Pass;
      FirstFailurePassesIffAll([DefaultPolicyItem], PolicyItemCheck);
    }
  }

  lemma DefaultRobotsRecords(url: string)
    ensures RobotsRecords([DefaultPolicyItem], [url], "") ==
      [Field("User-agent", "*"), Field("Allow", "/"), Field("Sitemap", url)]
  {
    DefaultPolicyGroups();
    assert DirectiveLines(SitemapLine, [url]) == [Field("Sitemap", url)];
  }

  lemma DefaultRecords(site: string, urlParses: string -> bool)
    requires site != ""
    ensures RobotsTxtContent(Some(site), RobotsTxtOptions(None, None, None), urlParses) ==
      Ok(Render([Field("User-agent", "*"), Field("Allow", "/"), Field("Sitemap", DerivedSitemapUrl(site))]))
  {
    DefaultAccepted(site, urlParses);
    AcceptedContent(Some(site), RobotsTxtOptions(None, None, None), urlParses);
    DefaultRobotsRecords(DerivedSitemapUrl(site));
  }

  lemma DefaultText(url: string)
    requires url != ""
    ensures Render([Field("User-agent", "*"), Field("Allow", "/"), Field("Sitemap", url)]) ==
      "User-agent: *\nAllow: /\nSitemap: " + url + "\n"
  {
    var records := [Field("User-agent", "*"), Field("Allow", "/"), Field("Sitemap", url)];
    RenderConcat([records[0]], records[1..]);
    RenderConcat([records[1]], records[2..]);
    assert records[2..] == [records[2]];
    FieldLine("User-agent", "*");
    FieldLine("Allow", "/");
    FieldLine("Sitemap", url);
    DefaultLines(url);
  }

  lemma DefaultLines(url: string)
    ensures ("User-agent" + ": " + "*" + "\n") + ("Allow" + ": " + "/" + "\n") + ("Sitemap" + ": " + url + "\n") ==
      "User-agent: *\nAllow: /\nSitemap: " + url + "\n"
  {
    assert "User-agent" + ": " + "*" + "\n" == "User-agent: *\n";
    assert "Allow" + ": " + "/" + "\n" == "Allow: /\n";
  }

  /** With no options at all, every crawler may fetch everything and the sitemap is the
      site's `sitemap.xml`, with exactly one slash before it. */
  lemma DefaultOutput(site: string, urlParses: string -> bool)
    requires site != ""
    ensures RobotsTxtContent(Some(site), RobotsTxtOptions(None, None, None), urlParses) ==
      Ok("User-agent: *\nAllow: /\nSitemap: " + site + (if EndsWith(site, "/") then "" else "/") + "sitemap.xml\n")
  {
    var url := DerivedSitemapUrl(site);
    DefaultRecords(site, urlParses);
    DefaultText(url);
    var slash := if EndsWith(site, "/") then "" else "/";
    assert url == site + slash + "sitemap.xml";
    SitemapLineEnd("User-agent: *\nAllow: /\nSitemap: ", site, slash);
  }

  lemma SitemapLineEnd(prefix: string, site: string, slash: string)
    ensures prefix + (site + slash + "sitemap.xml") + "\n" == prefix + site + slash + "sitemap.xml\n"
  {
    assert "sitemap.xml" + "\n" == "sitemap.xml\n";
  }


  /** What the generated text consists of, read back line by line: one group per policy entry
      with a blank line between consecutive groups, one `Sitemap` line per sitemap URL in order,
      and a `Host` line exactly when a host is given; with `sitemap: false` there is no
      `Sitemap` line. User agents, clean-param values and sitemap URLs are assumed to
      contain no line break. */
  lemma OutputShape(site: Option<string>, options: RobotsTxtOptions, urlParses: string -> bool)
    requires RobotsTxtContent(site, options, urlParses).Ok?
    requires PolicyOptionOf(options).PolicyArray?
    requires forall i | 0 <= i < |PolicyOptionOf(options).items| ::
      Renderable(PolicyOptionOf(options).items[i]) && GroupSingleLine(PolicyOptionOf(options).items[i])
    requires SitemapOption(options).SitemapUrl? ==> SingleLine(SitemapOption(options).url)
    requires SitemapOption(options).SitemapList? ==>
      forall v <- SitemapOption(options).items :: v.Str? && SingleLine(v.s)
    requires SitemapOption(options).Flag? ==> SingleLine(site.value)
    ensures var rs := ParseRecords(RobotsTxtContent(site, options, urlParses).value);
      && rs.Some?
      && Blanks(rs.value) == |PolicyOptionOf(options).items| - 1
      && FieldValues(rs.value, "Sitemap") == GetSitemap(SitemapOption(options), site.value)
      && FieldValues(rs.value, "Host") == (if ValueTruthy(HostOption(options)) then [HostOption(options).s] else [])
      && (SitemapOption(options) == Flag(false) ==> FieldValues(rs.value, "Sitemap") == [])
  {
    var host := HostOption(options);
    var sitemap := SitemapOption(options);
    var policy := PolicyOptionOf(options);
    var text := RobotsTxtContent(site, options, urlParses).value;
    assert site.Some? && SitemapCheck(sitemap, urlParses).Pass? by {
      AcceptedContent(site, options, urlParses);
    }
    SitemapUrlsSingleLine(sitemap, urlParses, site.value);
    var urls := GetSitemap(sitemap, site.value);
    var hostText := HostText(host);
    assert HostCheck(host).Pass? by {
      AcceptedContent(site, options, urlParses);
    }
    HostTextSingleLine(host);
    assert text == Render(RobotsRecords(policy.items, urls, hostText)) by {
      AcceptedContent(site, options, urlParses);
    }
    RobotsTextShape(policy.items, urls, hostText);
  }

  /** An accepted host is written on one line, and as a `Host` line exactly when it is truthy. */
  lemma HostTextSingleLine(host: Value)
    requires HostCheck(host).Pass?
    ensures SingleLine(HostText(host))
    ensures (if HostText(host) == "" then [] else [HostText(host)]) ==
      (if ValueTruthy(host) then [host.s] else [])
  {
    if ValueTruthy(host) {
      assert forall c <- host.s :: HostChar(c);
    }
  }

  lemma SitemapUrlsSingleLine(sitemap: Sitemap, urlParses: string -> bool, site: string)
    requires SitemapCheck(sitemap, urlParses).Pass?
    requires sitemap.SitemapUrl? ==> SingleLine(sitemap.url)
    requires sitemap.SitemapList? ==> forall v <- sitemap.items :: v.Str? && SingleLine(v.s)
    requires sitemap.Flag? ==> SingleLine(site)
    ensures !sitemap.SitemapOther? && (sitemap.SitemapList? ==> AllStrings(sitemap.items))
    ensures forall u <- GetSitemap(sitemap, site) :: SingleLine(u)
  {
    SitemapAcceptedIsNormalised(sitemap, urlParses, site);
    var urls := GetSitemap(sitemap, site);
    forall u <- urls
      ensures SingleLine(u)
    {
      if sitemap.SitemapList? {
        var i :| 0 <= i < |urls| && u == urls[i];
        assert sitemap.items[i] in sitemap.items;
      } else if sitemap.Flag? {
        var url := DerivedSitemapUrl(site);
        assert url == site + (if EndsWith(site, "/") then "" else "/") + "sitemap.xml";
      }
    }
  }
}
