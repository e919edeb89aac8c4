# astro-robots-txt: the robots.txt generator, modelled in Dafny

The integration turns the Astro `site` URL and a set of options (`host`,
`sitemap`, `policy`) into the text of a `robots.txt` file, or into no output
when an option is invalid. This project models the two parts of `src/index.ts`
that do the work:

- the **validator**: `getRobotsTxtContent` applies the defaults, then checks in a
  fixed order that the site URL is present, that a non-empty host follows the
  hostname grammar, that the `sitemap` option has the right type and valid
  URLs, and that the `policy` list is a non-empty array whose entries have a
  `userAgent`, a `crawlDelay` that is a number whenever it is truthy, and
  `cleanParam` strings of at most 500 characters; `getSitemap` turns an accepted `sitemap` option into a list of URLs;
- the **generator**: `addLine`, `generatePoliceItem` and `generateRobotsTxt`
  build the text line by line: one group per policy entry, with a blank line
  between groups, then the `Sitemap` lines, then a `Host` line.

Modules, one per file:

| file | module | what it holds |
|---|---|---|
| `wrappers.dfy` | `Wrappers` | `Option`, `Result`, `Outcome` |
| `js_strings.dfy` | `JsStrings` | the JavaScript string operations the core relies on: ASCII case mapping, `split`/`join`, integer `toString`, UTF-16 `length`, `encodeURI` (section 19.2.6.3 of ECMA-262, with the Encode operation of section 19.2.6.5) with a percent-decoder as its reference inverse |
| `robots_config.dfy` | `RobotsConfig` | the options as datatypes, their JavaScript truthiness, the defaults, and one `Reason` tag per diagnostic the validator logs, `SitemapUrlInvalid` also standing for the array branch of `isValidSitemap`, which fails without logging |
| `validator.dfy` | `Validator` | `isValidUrl`, `isValidSitemap`, `getSitemap`, `isValidHostname`, `isValidCleanParamItem`, `isValidPolicy` |
| `serializer.dfy` | `Serializer` | the directive-name transform, `capitaliseFirstLetter`, `addLine`, `generatePoliceItem`, `generateRobotsTxt`, specified by a list of records (`Field(name, value)` or `Blank`) and `Render`, which writes each record as one line |
| `robots_text.dfy` | `RobotsText` | a reader for the generated text (`ParseRecords`), the round trip through it, and the line counts of the whole file |
| `robots.dfy` | `Robots` | `getRobotsTxtContent` and its end-to-end properties |

The imperative functions of the source (`addLine`, `generatePoliceItem`,
`generateRobotsTxt`, `isValidSitemap`, `isValidPolicy`, `isValidHostname`,
`getRobotsTxtContent`) are methods, with loops where the source loops
(`GeneratePolicyItem` and `IsValidHostname` are straight-line, as their source
is); each is proved equal to a specification function, and the properties are
proved about those functions.

Where the options are typed as a union, the datatypes have one variant per
member; where the validator tests at run time for a type outside the
declaration, a variant records that such a value is present: with its
truthiness for a non-string `host`, a non-number `crawlDelay` and a
`cleanParam` that is neither a string nor an array, whose verdict depends on
it; and without it for a `sitemap` that is none of boolean, string and array
and for a truthy non-array `policy`, which the source rejects either way. A
non-string element of a `sitemap` array (the `typeof` test of `isValidUrl`,
line 106) or of a `cleanParam` array (`isValidCleanParamItem`, line 184) is
also rejected whatever its truthiness; it is a `Value`, which carries a
truthiness flag only because the type is shared with `host`. A property left out of the options (`None`) takes the
source's default; an absent optional property of a policy entry is `None`.
`Disallow` is written when `typeof item.disallow === 'string' ||
Array.isArray(item.disallow)` (line 66); the model reads that as
`disallow.Some?`, which relies on the declared `string | string[]` type: a
present value of another type is among the cases listed under "Left out".

The WHATWG URL parser that `isValidUrl` calls (`new URL(s)`) is the parameter
`urlParses: string -> bool` of every member that depends on it.

## Model

| member | source | states |
|---|---|---|
| `Robots.GetRobotsTxtContent` | src/index.ts:267-294 | returns exactly `RobotsTxtContent`: the defaults of line 269 for absent options, `Err` with the reason of the first failing check, otherwise `Ok` of the generated text for the defaulted policy, the derived sitemap URLs and the host |
| `Robots.ChecksInOrder` | src/index.ts:271-289 | a missing or empty site gives `SiteMissing` whatever the options; a truthy host outside the hostname grammar gives `HostInvalid` before any sitemap check; a sitemap failure is reported before any policy failure; text is produced if and only if the site is present, a truthy host is a valid hostname string, and the sitemap and policy checks pass |
| `Robots.HostCheck` | src/index.ts:276-279 | `host && !isValidHostname(host)`: the only failure is `HostInvalid`; a string host passes exactly when it is empty or in the hostname grammar, a non-string host exactly when it is falsy |
| `Robots.DefaultOutput` | src/index.ts:269-291 | with a site and no options the output is `User-agent: *`, `Allow: /` and `Sitemap: <site>/sitemap.xml`, with the slash added only when the site does not already end in one |
| `Robots.OutputShape` | src/index.ts:87-103 | the text of an accepted call reads back line by line; it has one blank line fewer than policy entries, its `Sitemap` values are exactly `getSitemap`'s URLs in order (none for `sitemap: false`), and its `Host` values are `[host]` when the host is truthy and `[]` otherwise |
| `Robots.AcceptedContent` | src/index.ts:281-291 | an accepted call passed every check, its policy is renderable, and its text is the rendering of the records of the defaulted options |
| `Robots.DefaultAccepted` | src/index.ts:256-265 | the defaults pass every check and the default `sitemap: true` gives the one derived URL |
| `Robots.DefaultPolicyGroups` | src/index.ts:57-85 | the default policy entry gives the two records `User-agent: *` and `Allow: /` |
| `Robots.SitemapUrlsSingleLine` | src/index.ts:146-157 | the URLs `getSitemap` returns for an accepted option contain no line break when the given URLs and the site contain none |
| `Validator.FirstFailurePassesIffAll` | src/index.ts:136-140 | a loop that returns at the first failing element passes exactly when every element passes |
| `Validator.FirstFailureAt` | src/index.ts:210-238 | the verdict of such a loop is that of the first failing element |
| `Validator.IsValidUrl` | src/index.ts:105-119 | a non-string or an empty string is refused without consulting the URL parser; a non-empty string is accepted exactly when the parser accepts it |
| `Validator.IsValidSitemap` | src/index.ts:121-144 | returns `SitemapCheck`: a wrong type fails, a falsy value passes, a string must be a valid URL, every element of an array must be |
| `Validator.SitemapAccepted` | src/index.ts:105-144 | an accepted `sitemap` is a boolean, the empty string or a string the URL parser accepts, or an array of non-empty strings the URL parser accepts |
| `Validator.DerivedSitemapUrl` | src/index.ts:156 | the derived URL starts with the site URL, ends in `/sitemap.xml`, is exactly as long as the site followed by `/sitemap.xml` when the site does not end in `/`, and is exactly `site + "sitemap.xml"` long when, and only when, the site already ends in `/` |
| `Validator.GetSitemap` | src/index.ts:146-157 | a falsy option gives `[]`, a non-empty string `[s]`, an array the same strings in the same order, `true` the derived URL |
| `Validator.SitemapAcceptedIsNormalised` | src/index.ts:121-157 | an accepted option is one `getSitemap` handles, and for an array the URLs it returns are exactly the array's strings, in order, none of them empty |
| `Validator.IsValidHostname` | src/index.ts:159-181 | returns true if and only if the value is a string in the hostname grammar: letters, digits, `-` and `.` only, at most 253 characters once one trailing dot is dropped, and every `.`-separated label 1 to 63 characters of letters, digits and `-` with no `-` at either end |
| `Validator.HostPatternIff` | src/index.ts:164-167 | the anchored pattern admits exactly the non-empty strings of host characters whose length without one trailing dot is at most 253 |
| `Validator.LabelAcceptedIsDnsLabel` | src/index.ts:180 | the label test of the source holds exactly for DNS labels |
| `Validator.HostnameIsJoinOfLabels` | src/index.ts:159-181 | a host is accepted if and only if it is a dot-joined list of DNS labels, with an optional trailing dot and at most 253 characters without it |
| `Validator.ConsecutiveDotsRejected` | src/index.ts:178-180 | a host with two consecutive dots is rejected |
| `Validator.LeadingDotRejected` | src/index.ts:178-180 | a host starting with a dot is rejected |
| `Validator.TwoLabelHost` | src/index.ts:159-181 | two DNS labels joined by a dot, with or without a trailing dot, are accepted when the join has at most 253 characters |
| `Validator.HostExampleAccepted` | src/index.ts:159-181 | `example.com` is accepted |
| `Validator.HostExampleRejected` | src/index.ts:164-167 | `bad_host!` is rejected |
| `Validator.CleanParamItemCheck` | src/index.ts:183-193 | a non-string fails with `CleanParamNotString`, a string of more than 500 UTF-16 units fails with `CleanParamTooLong`, anything else passes |
| `Validator.CleanParamLengthBoundary` | src/index.ts:183-193 | a string of characters from the Basic Multilingual Plane passes if and only if it has at most 500 of them; 501 or more fail with `CleanParamTooLong` |
| `Validator.CleanParamAccepted` | src/index.ts:221-237 | an absent or falsy `cleanParam` passes; otherwise it passes exactly when it is a string of at most 500 UTF-16 units or an array of such strings, so one bad element rejects the whole |
| `Validator.IsValidPolicy` | src/index.ts:195-240 | returns `PolicyCheck`: falsy, non-array and empty policies fail with their own reasons, then the entries are examined in order (user agent, crawl delay, clean params) and the first failure is the verdict |
| `Validator.PolicyItemAccepted` | src/index.ts:210-237 | an entry passes exactly when it has a `userAgent` that is a non-empty string or a non-empty array, its `crawlDelay` is not a truthy non-number, and its `cleanParam` passes |
| `Validator.PolicyAllOrNothing` | src/index.ts:195-240 | a policy is accepted if and only if it is a non-empty array every entry of which passes, and a rejected array reports the reason of its first failing entry |
| `Validator.AcceptedPolicyIsRenderable` | src/index.ts:242-248 | every entry of an accepted policy has what the generator reads: a user agent, a `crawlDelay` that is a number whenever it is truthy (a falsy value of any type passes), string clean params |
| `Serializer.HyphenateCamelAtEveryBoundary` | src/index.ts:52 | the global replace puts a hyphen at every lower-to-upper boundary: matches never overlap |
| `Serializer.HyphenateCamel` | src/index.ts:52 | `name.replace(/([a-z])([A-Z])/g, '$1-$2')`: a left-to-right scan that writes a hyphen inside each lower-then-upper pair and resumes after the pair; its contract is stated by `HyphenateCamelAtEveryBoundary` and `HyphenateCamelLength` |
| `Serializer.HyphenateCamelLength` | src/index.ts:52 | the replace only inserts: the result is at least as long as the name and has at most one added hyphen per two characters |
| `Serializer.CapitaliseFirstLetter` | src/index.ts:39 | the result has the length of its argument, the same characters after the first, and a first character that is the upper-case form of the argument's, so never a lower-case letter |
| `Serializer.DirectiveName` | src/index.ts:52 | the name `addLine` writes is at least as long as the name passed and never starts with a lower-case letter |
| `Serializer.DirectiveNameFixed` | src/index.ts:39-52 | a name with no lower-case first letter and no upper-case letter after it is written unchanged |
| `Serializer.DirectiveNameIdempotent` | src/index.ts:39-52 | the name transform is idempotent |
| `Serializer.NameFixed` | src/index.ts:64-99 | each name the generator passes (`User-agent`, `Disallow`, `Allow`, `Crawl-delay`, `Clean-param`, `Sitemap`, `Host`) comes out of the name transform unchanged |
| `Serializer.CamelCaseName` | src/index.ts:39-52 | a two-word camel-case name such as `crawlDelay` becomes `Crawl-delay`: capitalised, hyphen at the hump, the rest lower case |
| `Serializer.AddLine` | src/index.ts:41-55 | returns the rendering of one record per value: each element of a non-empty array through the recursive call, otherwise the single value, under the transformed name |
| `Serializer.ArrayIsConcatenationOfLines` | src/index.ts:42-48 | the text of a non-empty array is the concatenation, in order, of the texts of its parts, and a one-element array writes what its element writes |
| `Serializer.RuleContent` | src/index.ts:50 | a value under a name other than `Allow` and `Disallow` is written as it is; under those two it is written so that percent-decoding gives it back |
| `Serializer.GeneratorLines` | src/index.ts:41-55 | for each of the generator's names, `addLine` writes one record per value under that very name, with the value percent-encoded exactly for `Allow` and `Disallow` |
| `Serializer.AddDirective` | src/index.ts:41-55 | `addLine` called with one of the generator's names returns the rendering of the directive's records |
| `Serializer.ScalarIsOneLine` | src/index.ts:50-54 | a single value gives one line `Name: value`, or `Name:` when the written value is empty; `Allow` and `Disallow` values go through `encodeURI` and never contain a line break, other values are written verbatim; an empty array gives `Name:` |
| `Serializer.GeneratePolicyItem` | src/index.ts:57-85 | returns the rendering of the group's records: a blank line unless the index is 0, then `User-agent`, `Disallow`, `Allow`, `Crawl-delay`, `Clean-param` in that order |
| `Serializer.OptionalDirectives` | src/index.ts:66-82 | `Disallow` lines exactly when the property is present, even as `''`; `Allow` lines exactly when it is truthy; `Clean-param` lines exactly when it is a non-empty string or array; a `Crawl-delay` line exactly when the delay is truthy, none for 0, and its value reads back as the delay |
| `Serializer.EmptyDisallowLine` | src/index.ts:50-54 | an empty `Disallow` gives the record `Disallow` with an empty value, written `Disallow:` |
| `Serializer.EncodedDisallowLine` | src/index.ts:50 | a space in a `Disallow` path is written `%20`, and the characters around it that `encodeURI` keeps are written as they are (so `/a b` is written `/a%20b`) |
| `Serializer.GenerateRobotsTxt` | src/index.ts:87-103 | returns the rendering of the groups in policy order, one `Sitemap` record per URL in order, and a `Host` record exactly when the host is not empty |
| `RobotsText.ParseRender` | src/index.ts:52-54 | reading the text of well-formed records gives back exactly those records |
| `RobotsText.RobotsTextReadsBack` | src/index.ts:87-103 | the generated text reads back as exactly the records of the file when user agents, clean params, sitemap URLs and host contain no line break |
| `RobotsText.DirectiveLinesWellFormed` | src/index.ts:50-54 | every record the generator writes for a directive is one a line reads back as; `Allow` and `Disallow` values need no condition because of `encodeURI` |
| `RobotsText.DirectiveLinesCounts` | src/index.ts:41-55 | the lines of one directive carry its written values in order under its name, none under any other name, and no blank line |
| `RobotsText.PolicyRecordsCounts` | src/index.ts:57-85 | a group has no `Sitemap` or `Host` line, starts with a blank line exactly when its index is not 0, and has no other blank line |
| `RobotsText.PolicyGroupsCounts` | src/index.ts:90-92 | the groups of a policy have no `Sitemap` or `Host` line and one blank line fewer than entries |
| `RobotsText.RobotsTextShape` | src/index.ts:87-103 | when the user agents, clean-param values, sitemap URLs and host contain no line break, the generated text reads back, and the records read have the sitemap URLs as `Sitemap` values in order, `[host]` or `[]` as `Host` values, and one blank line fewer than groups |
| `RobotsText.RobotsRecordsCounts` | src/index.ts:87-103 | the `Sitemap` values of the file are the sitemap URLs in order, its `Host` values are `[host]` for a non-empty host and `[]` otherwise, and it has one blank line fewer than policy entries |
| `JsStrings.ToUpperChar` | src/index.ts:39 | `toUpperCase` of one character: the result is never a lower-case letter; a lower-case letter becomes the upper-case letter that `toLowerCase` maps back to it, anything else is kept |
| `JsStrings.ToLower` | src/index.ts:52 | `toLowerCase`: the same length, no upper-case letter left, each upper-case letter replaced by the lower-case letter that `toUpperCase` maps back to it, every other character kept |
| `JsStrings.Split` | src/index.ts:178-179 | `split('.')` gives at least one part; `SplitPartsHaveNoSeparator`, `JoinSplit` and `SplitJoin` make it the inverse of `join` |
| `JsStrings.SplitPartsHaveNoSeparator` | src/index.ts:178-179 | no part of a split contains the separator |
| `JsStrings.JoinSplit` | src/index.ts:178-179 | joining the parts of a split with the separator gives back the string |
| `JsStrings.SplitJoin` | src/index.ts:178-179 | splitting a join of separator-free parts gives back the parts |
| `JsStrings.IntToString` | src/index.ts:50 | the text of an integral crawl delay: at least one character, a leading `-` exactly for a negative delay, decimal digits everywhere else |
| `JsStrings.IntToStringRoundTrip` | src/index.ts:50 | the decimal text of a crawl delay reads back as the same integer |
| `JsStrings.NatToDecimalCanonical` | src/index.ts:50 | the decimal text of a delay has no leading zero: it starts with `0` exactly for zero |
| `JsStrings.Utf16Length` | src/index.ts:174-176 | `length` counts UTF-16 code units: at least the number of characters and at most twice it, and equal to it if and only if every character is in the Basic Multilingual Plane |
| `JsStrings.EncodeUriIsSafe` | src/index.ts:50 | `encodeURI` output consists of unescaped URI characters and `%` only |
| `JsStrings.EncodeUriSingleLine` | src/index.ts:50 | `encodeURI` output contains no line break |
| `JsStrings.EncodeUri` | src/index.ts:50 | `encodeURI` keeps or escapes each character in turn: the output is at least as long as the input and at most twelve times as long (four UTF-8 octets of three characters each) |
| `JsStrings.PercentDecodeEncodeUri` | src/index.ts:50 | percent-decoding the output of `encodeURI` gives back the input |

## Left out

- The `Logger` class (src/index.ts:5-37) and every `logger.warn` call: console output. A failure is an `Err` carrying a `Reason` tag, one per message; `SitemapUrlInvalid` also marks the array branch of `isValidSitemap` (src/index.ts:136-140), which returns `false` without a message.
- `createPlugin` and the Astro hooks (src/index.ts:296-332): build-tool lifecycle and the file write.
- The WHATWG URL parser behind `new URL(s)` (src/index.ts:112-118): it is the parameter `urlParses`; only the string and non-empty tests of `isValidUrl` are modelled.
- Floating-point `crawlDelay`: the delay is an integer, written with integer `toString`; fractional, `NaN` and infinite delays are not modelled, and neither are integers of magnitude 10^21 or more, which JavaScript's `toString` writes in exponent form (`1e+21`). The condition at line 216 is modelled as written: it rejects only truthy values that are not numbers, so `Number.isFinite` never decides anything.
- Case mapping outside ASCII: `toLowerCase` and `toUpperCase` are modelled on ASCII letters only; directive names are the generator's fixed ASCII names.
- Values of the wrong type where the source does not test the type: a non-string `userAgent`, `allow` or `disallow`, non-string elements of those arrays, and policy entries that are not objects. Their types are the declared ones.
- Lone UTF-16 surrogates: strings are sequences of Unicode scalar values, so `encodeURI`'s `URIError` on a lone surrogate cannot arise.
- `Robots.OutputShape`: assumes that user agents, clean-param values and sitemap URLs contain no line break; the source writes such values verbatim, and a line break in them would split a line.
- `RobotsText.RobotsTextReadsBack`: assumes the same of user agents, clean-param values, sitemap URLs and the host.
- `RobotsText.RobotsTextShape`: assumes the same of user agents, clean-param values, sitemap URLs and the host; a `userAgent` such as `"a\nb"`, which the validator accepts, writes text that does not read back.
- `Validator.CleanParamLengthBoundary`: states the 500 bound in characters only for characters of the Basic Multilingual Plane; `Validator.CleanParamCheck` itself counts UTF-16 units, as `length` does.

The diagnostic at src/index.ts:217 says a `crawlDelay` "must be an integer or
a float", but the condition at line 216 rejects only truthy values that are not
numbers, so any number, and any falsy value of any type, passes; the model
follows the condition. The derived sitemap URL adds a slash only when the site
does not end in one (line 156), so a site ending in several slashes keeps them
all.
