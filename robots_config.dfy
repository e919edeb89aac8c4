/**
  The options of the robots.txt generator (`PolicyItem`, `RobotsTxtOptions`
  in src/index.ts) as values. Where the declared TypeScript type is a union,
  the datatype has one variant per member; where the validator inspects a
  value at run time for a type outside its declaration, a variant records
  that such a value is present, with its truthiness where the verdict depends
  on it (a non-string `host`, a non-number `crawlDelay`, a `cleanParam` that is
  neither a string nor an array). `Value`, shared by `host`, the `sitemap` array
  and the `cleanParam` array, carries the truthiness for `host`; a non-string
  element of either array is rejected whatever its truthiness.
*/
module RobotsConfig {
  import opened Wrappers
  import opened JsStrings

  /** A value of unknown type: a string, or anything else with its truthiness (which
      only the `host` check reads). */
  datatype Value = Str(s: string) | NonString(truthy: bool)

  /** A `string | string[]` option: `userAgent`, `allow`, `disallow`. */
  datatype Rule = One(s: string) | Many(items: seq<string>)

  /** The `cleanParam` option: a string, an array (whose elements are checked), or another value. */
  datatype CleanParam = ParamString(s: string) | ParamList(items: seq<Value>) | ParamOther(truthy: bool)

  /** The `crawlDelay` option: an integral number of seconds, or a value that is not a number. */
  datatype CrawlDelay = Seconds(n: int) | NotNumber(truthy: bool)

  /** The `sitemap` option: `boolean | string | string[]`, or a value of another type. */
  datatype Sitemap = Flag(on: bool) | SitemapUrl(url: string) | SitemapList(items: seq<Value>) | SitemapOther

  /** One entry of the `policy` array; `None` is an absent (undefined) property. */
  datatype PolicyItem = PolicyItem(
    userAgent: Option<Rule>,
    allow: Option<Rule>,
    disallow: Option<Rule>,
    cleanParam: Option<CleanParam>,
    crawlDelay: Option<CrawlDelay>)

  /** The `policy` option: an array, a falsy value such as `null`, or a truthy non-array. */
  datatype PolicyOption = PolicyArray(items: seq<PolicyItem>) | FalsyPolicy | NonArrayPolicy

  /** `RobotsTxtOptions`; `None` is an absent property, which the default replaces. */
  datatype RobotsTxtOptions = RobotsTxtOptions(
    host: Option<Value>,
    sitemap: Option<Sitemap>,
    policy: Option<PolicyOption>)

  /** Why no robots.txt is produced: one tag per diagnostic of the validator;
      `SitemapUrlInvalid` also marks the array branch of `isValidSitemap`, which fails silently. */
  datatype Reason =
    | SiteMissing
    | HostInvalid
    | SitemapWrongType
    | SitemapUrlInvalid
    | PolicyUndefined
    | PolicyNotArray
    | PolicyEmpty
    | UserAgentMissing
    | CrawlDelayNotNumber
    | CleanParamNotString
    | CleanParamTooLong
    | CleanParamWrongType

  /*** JavaScript truthiness of the option values ***/

  predicate ValueTruthy(v: Value)
  {
    match v
    case Str(s) => s != ""
    case NonString(t) => t
  }

  predicate RuleTruthy(r: Rule)
  {
    match r
    case One(s) => s != ""
    case Many(_) => true
  }

  predicate CleanParamTruthy(p: CleanParam)
  {
    match p
    case ParamString(s) => s != ""
    case ParamList(_) => true
    case ParamOther(t) => t
  }

  predicate CrawlDelayTruthy(d: CrawlDelay)
  {
    match d
    case Seconds(n) => n != 0
    case NotNumber(t) => t
  }

  predicate SitemapTruthy(m: Sitemap)
  {
    match m
    case Flag(b) => b
    case SitemapUrl(u) => u != ""
    case SitemapList(_) => true
    case SitemapOther => true
  }

  /** The default of the options' `host`, `sitemap` and `policy` properties. */
  const DefaultHost: Value := Str("")
  const DefaultSitemap: Sitemap := Flag(true)
  const DefaultPolicyItem: PolicyItem := PolicyItem(Some(One("*")), Some(One("/")), None, None, None)
  const DefaultPolicy: PolicyOption := PolicyArray([DefaultPolicyItem])

  /*** What the generator relies on, which the TypeScript types declare ***/

  /** Every element of a list is a string. */
  predicate AllStrings(items: seq<Value>)
  {
    forall i | 0 <= i < |items| :: items[i].Str?
  }

  function Strings(items: seq<Value>): (r: seq<string>)
    requires AllStrings(items)
    ensures |r| == |items|
    ensures forall i | 0 <= i < |items| :: items[i] == Str(r[i])
  {
    seq(|items|, i requires 0 <= i < |items| => items[i].s)
  }

  /** A policy entry the generator can render: it has a `userAgent`, a truthy
      `crawlDelay` is a number, and a truthy `cleanParam` is a string or an array of strings. */
  predicate Renderable(item: PolicyItem)
  {
    && item.userAgent.Some?
    && !(item.crawlDelay.Some? && item.crawlDelay.value.NotNumber? && item.crawlDelay.value.truthy)
    && (item.cleanParam.Some? && CleanParamTruthy(item.cleanParam.value) ==>
          match item.cleanParam.value
          case ParamString(_) => true
          case ParamList(xs) => AllStrings(xs)
          case ParamOther(_) => false)
  }
}
