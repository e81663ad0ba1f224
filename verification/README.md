# Device detector classification, in Dafny

A model of the classification engine of `laravel-device-detector`, found in
`src/DeviceDetector.php`. Given one HTTP request, `detect` produces a record. The record has:

- the browser and its version;
- the operating system;
- the device type (mobile, tablet or desktop), with brand and model for handheld devices;
- whether the client is a known crawler and whether its address is a Tor exit node;
- the client address.

The result is memoised on the detector object until a new request is given.

Every classification step is a first-match-wins scan of an ordered table of regular expressions:

- robots (`detectRobot`);
- browsers, first against the `Sec-CH-UA` header, then against the user agent (`detectBrowser`);
- platforms (`detectPlatform`);
- mobile and tablet keywords (`isMobileDevice`, `isTabletDevice`);
- device brands, each with model-extracting expressions (`detectMobileDevice`, `extractIphoneModel`).

The model keeps the tables entry for entry, in their declared order, with the source's constants.

## How the model is organised

| module | file | what it holds |
|---|---|---|
| `Text` | `text.dfy` | `strtolower`, `strtoupper`, `ucfirst`, `str_replace`, `trim`, PHP's `empty`, substring search |
| `Maybe` | `maybe.dfy` | `Option`, for PHP's `null` |
| `Rules` | `rules.dfy` | first-match-wins over per-entry verdicts |
| `Patterns` | `patterns.dfy` | boolean `preg_match`: an executable backtracking search (`Matches`), its declarative meaning (`Occurs`) and their equivalence |
| `Captures` | `captures.dfy` | `preg_match` with one capture group, and `preg_match_all`. It has an executable search (`Find`, `ScanAll`), a declarative description of the match PCRE reports (`LeftmostGreedy`), and proofs that the two agree |
| `Tor` | `tor.dfy` | parsing of the exit-address listing, and `detectTor` |
| `Robots` | `robots.dfy` | `detectRobot` |
| `Browsers` | `browsers.dfy` | `detectBrowser`, `extractVersion` |
| `Platforms` | `platforms.dfy` | `detectPlatform` |
| `Devices` | `devices.dfy` | `detectDevice`, `isMobileDevice`, `isTabletDevice`, `detectMobileDevice`, `extractIphoneModel` |
| `Detector` | `detector.dfy` | the record, and `detect` with its memo |

**Case.** Every expression the detectors apply to the user agent carries the `/i` flag,
except `/Brave/`. The user agent is lower-cased once, by `getUserAgent`. So the model stores
every `/i` expression in lower case and compares it exactly against the lower-cased text,
which agrees with case-insensitive matching there. `/Brave/` is kept case-sensitive.
`Browsers.CaseSensitiveBraveIsDead` proves that it can never match a lower-cased user agent.
The Tor expression `/ExitAddress\s+([0-9\.]+)/` is case-sensitive and reads the raw response
body, and the model keeps it that way.

**The `Sec-CH-UA` needle keeps the flags.** The header phase looks for
`strtolower(str_replace('/', '', $pattern))` inside the lower-cased header. Removing the
slashes from `/brave/i` leaves `bravei`, not `brave`. So every flagged expression is looked up
with a trailing `i` (`Browsers.FlaggedNeedle`). The flag-less `/Brave/` is the one whose needle
is the plain browser name (`Browsers.BraveNeedle`). That is why a header naming Brave is still
recognised (`Browsers.BraveHeaderWins`). Escapes also survive: `/edg\//i` is looked up as `edg\i`.

**Regular expressions.** Boolean expressions have the shape `A1 .* A2 .* … An`: each `Ai` is an
alternation of literals built from characters, `\s` and `[\s-]`, and `.` stops at a line feed.
Capturing expressions have the shape `(w1|w2|…) SEP ([class]+)`, where the separator is empty,
`\s*`, `\s+` or `[\s-]`. The iPhone expression's group `([0-9]+[,\.]?[0-9]*)` holds an optional `[,\.]` and `[0-9]*`
inside the group, after `[0-9]+`; the model handles them as a tail of the group (`Devices.DecimalTailEnd`). These shapes cover every
expression of the core.

**Where the code and its tests disagree, the model follows the code.** The list also covers two other consequences of the code's ordering and caching.

- `tests/Feature/DeviceDetectorTest.php:33` expects `Windows 10` for a Firefox user agent
  containing `windows nt 10.0; win64; x64; rv`. The code's first platform entry, `Windows 11`,
  matches that text, so the code answers `Windows 11` (`Platforms.Win64FirefoxIsWindows11`).
- `tests/Feature/DeviceDetectorTest.php:72` expects an iPad user agent containing `Mobile/`
  not to be mobile. The mobile expression contains `mobile`, so the code reports it as both
  mobile and tablet, with type `tablet` (`Devices.MobileIpadIsBoth`).
- A failed refresh of the Tor list does not keep the previous list. The cached closure
  returns `[]` after an exception or an unsuccessful response, and `Cache::remember` stores
  that value. Such a fetch therefore yields the empty list (`Tor.ExitNodes`), and no address
  is Tor until the cache expires (`Tor.IsTorDegrades`).
- The `iPadOS` platform entry (`/macintosh.*ipad/i`) can never be reported. Whatever it matches
  contains `ipad`, so the earlier `iOS (iPad)` entry has already matched
  (`Platforms.IPadOSUnreachable`).

## Model

| member | source | states |
|---|---|---|
| Text.Lower | src/DeviceDetector.php:443-446 | `strtolower` keeps the length, lower-cases each ASCII letter, keeps every other character, and leaves no upper-case letter |
| Text.LowerIdempotent | src/DeviceDetector.php:443-446 | lower-casing twice is lower-casing once, and already lower-case text is unchanged (why `/i` expressions can be stored lower-case) |
| Text.Upper | src/DeviceDetector.php:330 | `strtoupper` maps each character to its upper-case ASCII counterpart, keeping the length |
| Text.UcFirst | src/DeviceDetector.php:341 | `ucfirst` upper-cases the first character only and keeps the rest |
| Text.Without | src/DeviceDetector.php:180 | `str_replace('/', '', …)` removes every occurrence of the character and keeps all the others |
| Text.WithoutAppend | src/DeviceDetector.php:180 | removing a character distributes over concatenation |
| Text.Replace | src/DeviceDetector.php:435 | `str_replace(',', '.', …)` keeps the length and substitutes exactly the commas |
| Text.TrimIsTrimOf | src/DeviceDetector.php:236 | `trim($s, '"')`, as `Text.Trim`, removes the longest run of quotes at each end and nothing else |
| Text.TrimIdempotent | src/DeviceDetector.php:236 | trimming an already trimmed text changes nothing |
| Text.TrimQuotesUnquotes | src/DeviceDetector.php:236 | `Text.TrimQuotes`: a header sent as `"x"` is reported as `x` |
| Text.IsPhpEmpty | src/DeviceDetector.php:235 | PHP's `empty` holds for a string exactly when it has at most one character and that character is `0`, so a client-hint header `0` counts as absent (`Browsers.ZeroHeaderIsSilent`, `Platforms.ZeroHeaderIsAbsent`) |
| Rules.FirstTrue | src/DeviceDetector.php:143-147 | the table scan returns the first entry that applies, and nothing exactly when no entry applies |
| Patterns.MatchesIffOccurs | src/DeviceDetector.php:144 | in the absence of PCRE resource errors, the backtracking `preg_match` (`Patterns.Matches`) succeeds exactly when the parts of the expression occur in order, separated by line-feed-free gaps |
| Patterns.MatchesAnyOf | src/DeviceDetector.php:301 | an alternation of words matches exactly when one of the words is a substring |
| Patterns.NothingOccursInEmpty | src/DeviceDetector.php:144 | an expression whose first alternatives are non-empty matches nothing in the empty text |
| Captures.LeftmostGreedyUnique | src/DeviceDetector.php:222 | the description of PCRE's match (leftmost start, first working alternative, greedy separator and group) determines at most one capture |
| Captures.GroupAtMeaning | src/DeviceDetector.php:329 | after an alternative, the group found is the greedy one, and none is found exactly when no group can start there |
| Captures.TryAtMeaning | src/DeviceDetector.php:340 | at one index, alternatives are tried in order and the first that works is the one reported |
| Captures.FindMeaning | src/DeviceDetector.php:222 | the search `Captures.Find` reports the leftmost greedy match, and reports nothing exactly when the expression matches nowhere |
| Captures.FindSomeIffMatch | src/DeviceDetector.php:222 | `preg_match` captures exactly when the expression matches at some index |
| Captures.ScanAllRuns | src/DeviceDetector.php:97 | every group `preg_match_all` collects is a non-empty run of the group's class |
| Captures.ScanAllStep | src/DeviceDetector.php:97 | `preg_match_all` (`Captures.ScanAll`) collects the group of the match `preg_match` would report and resumes its search at the end of that group |
| Captures.ScanAllChain | src/DeviceDetector.php:97 | along a chain of reported matches, each searched for from the end of the previous group and with no match after the last, `preg_match_all` collects exactly their groups, in order |
| Captures.ScanAllIsChain | src/DeviceDetector.php:97 | for every text, the groups `preg_match_all` collects are those of such a chain |
| Captures.ScanAllIffChain | src/DeviceDetector.php:97 | for every text, `preg_match_all` collects a list of groups exactly when that list is the groups of a chain of reported matches |
| Tor.ParseExitList | src/DeviceDetector.php:97-98 | every parsed exit address is a non-empty run of digits and dots |
| Tor.ExitNodes | src/DeviceDetector.php:93-104 | a successful response yields its parsed addresses, while an unsuccessful response or an exception yields the empty list |
| Tor.ParseExitListIffChain | src/DeviceDetector.php:97-98 | for every response body, the parsed list is exactly the addresses of the chain of `ExitAddress\s+([0-9\.]+)` matches the search meets, in order |
| Tor.HeadMatch | src/DeviceDetector.php:97 | where `ExitAddress <ip>` is spelled out and the address is followed by a character outside `[0-9.]` or by the end of the body, the match reported from there captures exactly `<ip>` |
| Tor.ListingChain | src/DeviceDetector.php:97 | after text holding no `ExitAddress`, the lines of a listing give the chain of matches `preg_match_all` meets, one per announcing line, with its address as the group |
| Tor.ParseListing | src/DeviceDetector.php:97-98 | parsing a listing recovers exactly the addresses its `ExitAddress` lines announce, in order. The listing may mix in other lines, and text may follow an address on its line, as long as neither spells `ExitAddress` |
| Tor.ParseRecords | src/DeviceDetector.php:91-98 | parsing the published exit list (records of `ExitNode`, `Published` and `LastStatus` lines followed by `ExitAddress <ip> <time>` lines) recovers every address of every record, in order |
| Tor.IsTor | src/DeviceDetector.php:75-83 | an address is Tor exactly when detection is on and some entry of the exit list equals it |
| Tor.IsTorOnListing | src/DeviceDetector.php:75-83 | with detection on and a successful fetch of the published exit list, an address is Tor exactly when one of its records lists it |
| Tor.IsTorDegrades | src/DeviceDetector.php:75-83 | with detection off, or after a failed or unsuccessful fetch, no address is Tor |
| Robots.DetectRobot | src/DeviceDetector.php:110-150 | with detection off the verdict is no robot. With it on, a robot is reported exactly when some keyword is a substring, named after the first such keyword in table order (`Robots.FirstRobot`). A name is given exactly for robots |
| Robots.DetectRobotNamesFirst | src/DeviceDetector.php:143-147 | the first matching keyword names the robot |
| Robots.GooglebotWins | src/DeviceDetector.php:117 | a user agent containing `googlebot` is Googlebot, whatever else it contains |
| Robots.EmptyIsNoRobot | src/DeviceDetector.php:149 | the empty user agent is not a robot |
| Browsers.HintNeedle | src/DeviceDetector.php:180 | the header needle has no slash and is lower-case |
| Browsers.HintNeedleKeepsFlags | src/DeviceDetector.php:180 | the needle is the lower-cased body without slashes, followed by the lower-cased flags |
| Browsers.FlaggedNeedle | src/DeviceDetector.php:180 | the needle of a `/…/i` expression ends with the letter `i` |
| Browsers.BraveNeedle | src/DeviceDetector.php:160 | the needle of `/Brave/` is `brave` |
| Browsers.CaseSensitiveBraveIsDead | src/DeviceDetector.php:160 | `/Brave/` never matches a lower-cased user agent |
| Browsers.HintPick | src/DeviceDetector.php:177-188 | the header phase picks the first browser one of whose needles occurs in the header, and picks none exactly when the header is empty or names none |
| Browsers.UaPick | src/DeviceDetector.php:191-200 | the user-agent phase picks the first browser one of whose expressions matches, and picks none exactly when none matches |
| Browsers.ExtractVersion | src/DeviceDetector.php:208-227 | a browser without a version expression has version `""`. Otherwise the version is the group of the leftmost match of its `token([0-9\.]+)`, made of digits and dots, and is `""` exactly when the token never precedes a digit or dot |
| Browsers.DetectBrowser | src/DeviceDetector.php:155-203 | the header's pick wins. Without one, the user agent's pick wins. Otherwise the answer is `Unknown` with no version. The version is always the one extracted for the reported name |
| Browsers.ZeroHeaderIsSilent | src/DeviceDetector.php:177 | a `Sec-CH-UA` header `0` is empty to PHP, so the browser is whatever it would be without the header |
| Browsers.BraveHeaderWins | src/DeviceDetector.php:160-186 | a header containing `brave` makes the browser Brave, with Chrome's version from the user agent |
| Browsers.HeaderPhaseIgnoresUserAgent | src/DeviceDetector.php:177-188 | once the header names a browser, the user agent does not affect the name |
| Browsers.UnknownIffNothingFound | src/DeviceDetector.php:202 | the browser is `Unknown` exactly when neither the header nor the user agent names one, and its version is then `""` |
| Browsers.BraveVersionIsChromeVersion | src/DeviceDetector.php:212-218 | Brave's version is read from the `chrome/` token, as Chrome's is |
| Browsers.EdgeShadowsChrome | src/DeviceDetector.php:162-168 | an Edge user agent, which also names Chrome and Safari, is reported as Edge when the header is silent |
| Browsers.EmptyIsUnknown | src/DeviceDetector.php:202 | an empty user agent without a header is `Unknown` with no version |
| Platforms.PlatformPick | src/DeviceDetector.php:259-263 | the first platform whose expression matches is picked, and none exactly when none matches |
| Platforms.DetectPlatform | src/DeviceDetector.php:232-266 | a non-empty header is reported with its surrounding quotes trimmed. Otherwise the first matching platform is reported, and `Unknown OS` when none matches |
| Platforms.ZeroHeaderIsAbsent | src/DeviceDetector.php:235 | a `Sec-CH-UA-Platform` header `0` is empty to PHP, so the platform is whatever it would be without the header |
| Platforms.QuotedHeaderWins | src/DeviceDetector.php:234-237 | a header `"x"` is reported as `x`, whatever the user agent |
| Platforms.Windows11ImpliesWindows10 | src/DeviceDetector.php:240-241 | whatever the Windows 11 expression matches, the Windows 10 expression matches too |
| Platforms.Windows11First | src/DeviceDetector.php:240 | a user agent the Windows 11 expression matches is reported as Windows 11 |
| Platforms.Win64FirefoxIsWindows11 | src/DeviceDetector.php:240 | a user agent containing `windows nt 10.0; win64; x64; rv` is reported as Windows 11 |
| Platforms.MatchingEntryBoundsPick | src/DeviceDetector.php:259-263 | when entry `j` matches, the reported platform is entry `j` or an earlier one |
| Platforms.AndroidBeforeLinux | src/DeviceDetector.php:250-253 | an Android user agent is never reported as Linux or Ubuntu |
| Platforms.IPadOnMacImpliesIpad | src/DeviceDetector.php:248-249 | whatever `/macintosh.*ipad/i` matches, `/ipad/i` matches too |
| Platforms.IPadOSUnreachable | src/DeviceDetector.php:248-249 | without a header, the platform is never `iPadOS` |
| Platforms.EmptyIsUnknownOS | src/DeviceDetector.php:265 | an empty user agent without a header is `Unknown OS` |
| Devices.IsMobileDevice | src/DeviceDetector.php:299-302 | mobile exactly when one of the mobile keywords is a substring |
| Devices.IsTabletDevice | src/DeviceDetector.php:307-310 | tablet exactly when one of the tablet keywords is a substring |
| Devices.DecimalTailEnd | src/DeviceDetector.php:434 | the optional `[,\.]` and the digits after it end where the digits stop |
| Devices.ExtractIphoneModel | src/DeviceDetector.php:432-438 | no model exactly when `iphone\s*[0-9]` occurs nowhere. Otherwise the model is `iPhone ` followed by the leftmost match's number, with its comma replaced by a dot |
| Devices.IphoneModelNumber | src/DeviceDetector.php:434-435 | `iphone d,e` yields the model `iPhone d.e` |
| Devices.ApplyExtractor | src/DeviceDetector.php:329-333 | a model expression yields nothing exactly when it matches nowhere. Otherwise it yields the prefix followed by the shaped group of the leftmost greedy match |
| Devices.FirstModel | src/DeviceDetector.php:328-335 | a brand's model expressions are tried in order, and the first that yields a model decides |
| Devices.BrandModel | src/DeviceDetector.php:318-325 | a brand reports its first expression's model, or its fallback (`iPhone`, `iPad`, `Pixel` or none) |
| Devices.MobileDevice | src/DeviceDetector.php:315-427 | the first brand whose trigger matches is reported, with its model. Without one, neither brand nor model is reported |
| Devices.IphoneIdentity | src/DeviceDetector.php:318-321 | an `iphone` user agent is Apple, with its extracted model or `iPhone` |
| Devices.IpadIdentity | src/DeviceDetector.php:323-325 | an `ipad` user agent without `iphone` is Apple `iPad` |
| Devices.SamsungModelNumber | src/DeviceDetector.php:328-331 | a Samsung user agent with an `sm-` number is Samsung, with the model `SM-` followed by the upper-cased number of the leftmost match |
| Devices.DetectDevice | src/DeviceDetector.php:271-294 | the type is `tablet`, `mobile` or `desktop`, with tablet taking precedence. Desktop exactly when neither mobile nor tablet. A desktop has no brand or model. Otherwise brand and model are those of `detectMobileDevice` |
| Devices.MobileIpadIsBoth | src/DeviceDetector.php:273-287 | an iPad user agent containing `mobile` is mobile and tablet, of type `tablet`, by Apple |
| Devices.EmptyIsDesktop | src/DeviceDetector.php:287 | an empty user agent is a desktop |
| Detector.New | src/DeviceDetector.php:15-18 | a new detector holds the request and no stored record |
| Detector.Classify | src/DeviceDetector.php:34-66 | the record is well formed (device flags and type agree, a desktop has no brand or model, a robot has a name exactly when it is a robot, a browser without version expression has no version). It carries the request's address, Tor exactly when detection is on and the address is listed, and the browser, platform, robot and device verdicts of the lower-cased user agent |
| Detector.Detect | src/DeviceDetector.php:23-70 | a given request replaces the current one and is classified afresh. Without one, a stored record is returned as is, and otherwise the current request is classified. The returned record is always the stored one |
| Detector.DetectPreservesConsistency | src/DeviceDetector.php:23-70 | `detect` keeps the stored record well formed and for the current request's address, and always returns a well-formed record |
| Detector.DetectIsMemoised | src/DeviceDetector.php:30-32 | after a detection, calling `detect` without a request returns the same record and leaves the detector unchanged, even if the configuration or the exit list changed |
| Detector.FreshRequestForgetsState | src/DeviceDetector.php:25-28 | with a request given, the outcome does not depend on what the detector held before |
| Detector.EmptyUserAgent | src/DeviceDetector.php:34-66 | an empty user agent without client hints is an unknown browser on `Unknown OS`, a desktop, and not a robot |

## Left out

- The HTTP fetch of the exit list and its timeout. The fetch is an input (`Tor.Fetch`): a response, successful or not, with its body, or an exception.
- `Cache::remember` and its duration. The exit list the cache hands out is a parameter of `detect`, so expiry and concurrent refreshes are not modelled.
- Logging of the fetch failure (`\Log::warning`). It has no effect on the result.
- `getIp`, which takes `X-Real-IP` or the framework's client address. The address is a field of `Detector.Request`.
- The configuration reads (`config(...)`). The two switches are a `Detector.Config` parameter. `Detector.DefaultConfig` gives their defaults.
- The public getters after `detect` (`getBrowser` and the others). Each only returns one field of `detect`'s record.
- The constructor's fallback to the framework's current request, the service provider, the facade, the controller and the routes. These are framework glue.
- Tor.IsTor: `in_array` uses PHP's loose `==`, which compares two numeric strings by value. The model uses exact string membership. The two differ only for address tokens that are numeric strings, such as `1.50` and `1.5`, which the listing does not contain.
- Tor.ParseListing: the line-by-line statement covers listings in which `ExitAddress` appears only at the start of announcing lines. Other bodies are covered by `Tor.ParseExitListIffChain`, which describes the parse of every body through the chain of matches, not line by line.
- Text.Lower: characters are Dafny characters, not bytes. A multi-byte UTF-8 sequence is one character here, and PCRE without `/u` would see several bytes. Only ASCII letters change case, in both.
- Patterns.MatchesIffOccurs: the regular-expression engine covers only the shapes the core uses (see above). It is not a general PCRE model. PCRE's backtrack limit (`pcre.backtrack_limit`) and JIT stack limit are not modelled either: when PHP hits one, `preg_match` returns `false`, which the code treats as no match. This only matters for adversarial user agents of several kilobytes, such as the Windows 11 expression's three `.*` gaps backtracking over many repeated `; win64; x64` pairs.

