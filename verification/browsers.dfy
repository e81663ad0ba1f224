/**
 * `detectBrowser` and `extractVersion`. The browser table lists, in order, each browser
 * name with one or more regular expressions. A non-empty `Sec-CH-UA` header is tried
 * first, by plain substring search for a needle derived from each expression's source
 * text; then the user agent, by regular-expression match; otherwise the browser is
 * `Unknown`. Either way the version comes from a per-browser version expression.
 *
 * The needle is `strtolower(str_replace('/', '', $pattern))` of the expression's PHP
 * source, so it keeps the flag letters: `/brave/i` gives the needle `bravei`. Only the
 * flag-less `/Brave/` gives a needle that is a browser's plain name.
 */
module Browsers {
  import opened Text
  import opened Maybe
  import opened Rules
  import opened Patterns
  import opened Captures

  /**
   * One expression of the table, written `/body/flags` in PHP. `pattern` is what it
   * matches: under the `i` flag the lower-cased body, matched against a lower-cased
   * user agent; without it, the body as written.
   */
  datatype Regex = Regex(body: string, flags: string, pattern: Pattern)

  datatype Browser = Browser(name: string, regexes: seq<Regex>)

  datatype BrowserInfo = BrowserInfo(name: string, version: string)

  /** The PHP source text of an expression. */
  function Source(x: Regex): string {
    "/" + x.body + "/" + x.flags
  }

  /** The browser table, in declaration order. */
  const Browsers: seq<Browser> := [
    Browser("Brave", [Regex("brave", "i", AnyOf(["brave"])), Regex("Brave", "", AnyOf(["Brave"]))]),
    Browser("Kahf", [Regex("kahf", "i", AnyOf(["kahf"]))]),
    Browser("Microsoft Edge", [Regex("edg\\/", "i", AnyOf(["edg/"])), Regex("edge\\/", "i", AnyOf(["edge/"]))]),
    Browser("Opera GX", [Regex("oprgx", "i", AnyOf(["oprgx"]))]),
    Browser("Opera", [Regex("opr\\/", "i", AnyOf(["opr/"])), Regex("opera", "i", AnyOf(["opera"]))]),
    Browser("Vivaldi", [Regex("vivaldi", "i", AnyOf(["vivaldi"]))]),
    Browser("Samsung Internet", [Regex("samsungbrowser", "i", AnyOf(["samsungbrowser"]))]),
    Browser("UC Browser", [Regex("ucbrowser", "i", AnyOf(["ucbrowser"]))]),
    Browser("Google Chrome", [Regex("chrome", "i", AnyOf(["chrome"]))]),
    Browser("Safari", [Regex("safari", "i", AnyOf(["safari"]))]),
    Browser("Firefox", [Regex("firefox", "i", AnyOf(["firefox"]))]),
    Browser("Internet Explorer", [Regex("msie|trident", "i", AnyOf(["msie", "trident"]))]),
    Browser("Tor Browser", [Regex("tor", "i", AnyOf(["tor"]))]),
    Browser("Chromium", [Regex("chromium", "i", AnyOf(["chromium"]))])
  ]

  // ---------------------------------------------------------------- the Sec-CH-UA phase

  /** `strtolower(str_replace('/', '', $pattern))`. */
  function HintNeedle(x: Regex): (w: string)
    ensures '/' !in w && IsLowered(w)
  {
    Lower(Without(Source(x), '/'))
  }

  /** The needle is the body without its slashes, followed by the flags, all lower-cased. */
  lemma HintNeedleKeepsFlags(x: Regex)
    requires '/' !in x.flags
    ensures HintNeedle(x) == Lower(Without(x.body, '/')) + Lower(x.flags)
  {
    var b, f := x.body, x.flags;
    assert Source(x) == "/" + (b + ("/" + f));
    WithoutSkip('/', b + ("/" + f));
    WithoutAppend(b, "/" + f, '/');
    WithoutSkip('/', f);
    WithoutAbsent(f, '/');
    LowerAppend(Without(b, '/'), f);
  }

  /** Some needle of browser `b` occurs in the lower-cased header. */
  predicate HintHit(hint: string, b: Browser) {
    exists j :: 0 <= j < |b.regexes| && Contains(hint, HintNeedle(b.regexes[j]))
  }

  /** The per-browser verdicts of the header phase, in table order. */
  function HintHits(hint: string): (hits: seq<bool>)
    ensures |hits| == |Browsers|
    ensures forall j :: 0 <= j < |Browsers| ==> hits[j] == HintHit(hint, Browsers[j])
  {
    seq(|Browsers|, j requires 0 <= j < |Browsers| => HintHit(hint, Browsers[j]))
  }

  /** Entry `k` is the first browser with a needle in the lower-cased, non-empty header. */
  ghost predicate HintPicks(secChUa: string, k: int) {
    && !IsPhpEmpty(Lower(secChUa))
    && 0 <= k < |Browsers|
    && HintHit(Lower(secChUa), Browsers[k])
    && forall j :: 0 <= j < k ==> !HintHit(Lower(secChUa), Browsers[j])
  }

  /** The header phase decides nothing: the header is empty or holds no needle. */
  ghost predicate HintSilent(secChUa: string) {
    IsPhpEmpty(Lower(secChUa)) || forall k :: 0 <= k < |Browsers| ==> !HintHit(Lower(secChUa), Browsers[k])
  }

  // ---------------------------------------------------------------- the user-agent phase

  /** Some expression of browser `b` occurs in `ua`, in the sense of `Occurs`. */
  ghost predicate UaOccurs(ua: string, b: Browser) {
    exists j :: 0 <= j < |b.regexes| && Occurs(b.regexes[j].pattern, ua)
  }

  /** Entry `k` is the first browser one of whose expressions occurs in `ua`. */
  ghost predicate UaPicks(ua: string, k: int) {
    && 0 <= k < |Browsers|
    && UaOccurs(ua, Browsers[k])
    && forall j :: 0 <= j < k ==> !UaOccurs(ua, Browsers[j])
  }

  /** `preg_match` of every expression of `b`, tried in order until one matches. */
  function UaHit(ua: string, b: Browser): (hit: bool)
    ensures hit <==> UaOccurs(ua, b)
  {
    var hit := exists j :: 0 <= j < |b.regexes| && Matches(b.regexes[j].pattern, ua);
    assert hit <==> UaOccurs(ua, b) by {
      forall j | 0 <= j < |b.regexes| ensures Matches(b.regexes[j].pattern, ua) <==> Occurs(b.regexes[j].pattern, ua) {
        MatchesIffOccurs(b.regexes[j].pattern, ua);
      }
    }
    hit
  }

  /** The first browser matching the user agent, if any. */
  function UaPick(ua: string): (k: Option<nat>)
    ensures k.Some? ==> UaPicks(ua, k.value)
    ensures k.None? <==> forall j :: 0 <= j < |Browsers| ==> !UaOccurs(ua, Browsers[j])
  {
    var hits := seq(|Browsers|, j requires 0 <= j < |Browsers| => UaHit(ua, Browsers[j]));
    assert forall j :: 0 <= j < |Browsers| ==> (hits[j] <==> UaOccurs(ua, Browsers[j]));
    FirstTrue(hits)
  }

  // ---------------------------------------------------------------- versions

  /** The version expressions `/token([0-9\.]+)/i`, by browser name; Brave reads Chrome's token. */
  const VersionTokens: map<string, string> := map[
    "Kahf" := "kahf/",
    "Google Chrome" := "chrome/",
    "Firefox" := "firefox/",
    "Safari" := "version/",
    "Microsoft Edge" := "edg/",
    "Opera" := "opr/",
    "Samsung Internet" := "samsungbrowser/",
    "Brave" := "chrome/",
    "Vivaldi" := "vivaldi/"
  ]

  function VersionRule(token: string): CaptureRule {
    CaptureRule([token], Adjacent, DigitsOrDots)
  }

  /** `extractVersion($userAgent, $browser)`: the first version token's digits and dots, or `""`. */
  function ExtractVersion(ua: string, browser: string): (v: string)
    ensures browser !in VersionTokens ==> v == ""
    ensures browser in VersionTokens ==>
      var rule := VersionRule(VersionTokens[browser]);
      (v == "" <==> forall j :: 0 <= j <= |ua| ==> !MatchesAt(rule, ua, j))
    ensures v != "" ==> exists c :: LeftmostGreedy(VersionRule(VersionTokens[browser]), ua, 0, c) && v == ua[c.from..c.to]
    ensures forall x :: 0 <= x < |v| ==> IsDigit(v[x]) || v[x] == '.'
  {
    if browser !in VersionTokens then ""
    else
      var rule := VersionRule(VersionTokens[browser]);
      FindMeaning(rule, ua, 0);
      match Find(rule, ua, 0)
      case None => ""
      case Some(c) =>
        assert forall x :: c.from <= x < c.to ==> InClass(ua[x], DigitsOrDots);
        assert MatchesAt(rule, ua, c.start);
        ua[c.from..c.to]
  }

  // ---------------------------------------------------------------- detectBrowser

  /** The first browser whose needle is in the header, when the header is not empty. */
  function HintPick(secChUa: string): (k: Option<nat>)
    ensures k.Some? ==> HintPicks(secChUa, k.value)
    ensures k.None? <==> HintSilent(secChUa)
  {
    var hint := Lower(secChUa);
    if IsPhpEmpty(hint) then None
    else FirstTrue(HintHits(hint))
  }

  /** `detectBrowser($userAgent)` with the request's `Sec-CH-UA` header (`""` when absent). */
  function DetectBrowser(ua: string, secChUa: string): (r: BrowserInfo)
    ensures r.version == ExtractVersion(ua, r.name)
    ensures forall k :: HintPicks(secChUa, k) ==> r.name == Browsers[k].name
    ensures HintSilent(secChUa) ==> forall k :: UaPicks(ua, k) ==> r.name == Browsers[k].name
    ensures HintSilent(secChUa) && (forall k :: 0 <= k < |Browsers| ==> !UaOccurs(ua, Browsers[k])) ==>
      r == BrowserInfo("Unknown", "")
  {
    match HintPick(secChUa)
    case Some(k) =>
      BrowserInfo(Browsers[k].name, ExtractVersion(ua, Browsers[k].name))
    case None =>
      match UaPick(ua)
      case Some(k) => BrowserInfo(Browsers[k].name, ExtractVersion(ua, Browsers[k].name))
      case None => BrowserInfo("Unknown", "")
  }

  // ---------------------------------------------------------------- properties

  /** A word with a capital letter never occurs in a lower-cased text. */
  lemma CapitalNeverOccurs(w: string, s: string, x: nat)
    requires x < |w| && IsAsciiUpper(w[x])
    ensures !Contains(Lower(s), w)
  {
    var t := Lower(s);
    forall i | 0 <= i <= |t| - |w| ensures !StartsAt(t, i, w) {
      assert !IsAsciiUpper(t[i + x]);
      assert t[i..i + |w|][x] == t[i + x];
    }
  }

  /** The case-sensitive `/Brave/` can never match: the user agent is lower-cased before matching. */
  lemma CaseSensitiveBraveIsDead(s: string)
    ensures !Occurs(Browsers[0].regexes[1].pattern, Lower(s))
  {
    CapitalNeverOccurs("Brave", s, 0);
    OccursWord("Brave", Lower(s));
  }

  /** The needle of a `/body/i` expression ends with the flag letter `i`. */
  lemma FlaggedNeedle(x: Regex)
    requires x.flags == "i"
    ensures HintNeedle(x) == Lower(Without(x.body, '/')) + "i"
  {
    HintNeedleKeepsFlags(x);
    assert Lower("i") == "i";
  }

  /** The flag-less `/Brave/` is the one expression whose needle is a plain browser name. */
  lemma BraveNeedle()
    ensures HintNeedle(Browsers[0].regexes[1]) == "brave"
  {
    var x := Browsers[0].regexes[1];
    assert x.body == "Brave" && x.flags == "";
    HintNeedleKeepsFlags(x);
    LowerBrave();
    assert Lower("") == "";
  }

  lemma LowerBrave()
    ensures Lower(Without("Brave", '/')) == "brave"
  {
    BraveHasNoSlash();
    LowerBraveWord();
  }

  lemma BraveHasNoSlash()
    ensures Without("Brave", '/') == "Brave"
  {
    WithoutAbsent("Brave", '/');
  }

  lemma LowerBraveWord()
    ensures Lower("Brave") == "brave"
  {
    var l := Lower("Brave");
    assert l[0] == 'b' && l[1] == 'r' && l[2] == 'a' && l[3] == 'v' && l[4] == 'e';
  }

  /** A `Sec-CH-UA` header `0` is empty to PHP, so the user agent decides as if there were no header. */
  lemma ZeroHeaderIsSilent(ua: string)
    ensures DetectBrowser(ua, "0") == DetectBrowser(ua, "")
  {
    assert Lower("0") == "0" && Lower("") == "";
    assert HintPick("0") == None && HintPick("") == None;
  }

  /** A `Sec-CH-UA` header naming Brave decides the browser, whatever the user agent says. */
  lemma BraveHeaderWins(ua: string, secChUa: string)
    requires Contains(Lower(secChUa), "brave")
    ensures DetectBrowser(ua, secChUa) == BrowserInfo("Brave", ExtractVersion(ua, "Google Chrome"))
  {
    BraveNeedle();
    var hint := Lower(secChUa);
    assert HintHit(hint, Browsers[0]);
    assert |hint| >= 5;
    assert HintPicks(secChUa, 0);
    var r := DetectBrowser(ua, secChUa);
    assert r.name == "Brave";
    BraveVersionIsChromeVersion(ua);
  }

  /** A browser named by the header phase does not depend on the user agent. */
  lemma HeaderPhaseIgnoresUserAgent(ua: string, ua': string, secChUa: string)
    requires !HintSilent(secChUa)
    ensures DetectBrowser(ua, secChUa).name == DetectBrowser(ua', secChUa).name
  {
    var k := HintPick(secChUa);
    assert HintPicks(secChUa, k.value);
  }

  /** `Unknown` is reported exactly when neither phase finds a browser, and then with no version. */
  lemma UnknownIffNothingFound(ua: string, secChUa: string)
    ensures DetectBrowser(ua, secChUa).name == "Unknown" <==>
      HintSilent(secChUa) && forall k :: 0 <= k < |Browsers| ==> !UaOccurs(ua, Browsers[k])
    ensures DetectBrowser(ua, secChUa).name == "Unknown" ==> DetectBrowser(ua, secChUa).version == ""
  {
    assert forall k :: 0 <= k < |Browsers| ==> Browsers[k].name != "Unknown";
    var h := HintPick(secChUa);
    if h.Some? {
      assert HintPicks(secChUa, h.value);
    } else {
      var u := UaPick(ua);
      if u.Some? {
        assert UaPicks(ua, u.value);
      }
    }
  }

  /** Brave's version is read from the `chrome/` token, as Chrome's is. */
  lemma BraveVersionIsChromeVersion(ua: string)
    ensures ExtractVersion(ua, "Brave") == ExtractVersion(ua, "Google Chrome")
  {
    assert VersionTokens["Brave"] == VersionTokens["Google Chrome"];
  }

  /** An Edge user agent also names Chrome and Safari; Edge comes earlier in the table, so it wins. */
  lemma EdgeShadowsChrome(ua: string, secChUa: string)
    requires HintSilent(secChUa)
    requires Contains(Lower(ua), "edg/") && !Contains(Lower(ua), "brave") && !Contains(Lower(ua), "kahf")
    ensures DetectBrowser(Lower(ua), secChUa).name == "Microsoft Edge"
  {
    var s := Lower(ua);
    CaseSensitiveBraveIsDead(ua);
    OccursWord("brave", s);
    OccursWord("kahf", s);
    OccursWord("edg/", s);
    assert !UaOccurs(s, Browsers[0]);
    assert !UaOccurs(s, Browsers[1]);
    assert Browsers[2].regexes[0].pattern == AnyOf(["edg/"]);
    assert UaOccurs(s, Browsers[2]);
    assert UaPicks(s, 2);
  }

  /** Without a user agent and without a header, the browser is `Unknown`. */
  lemma EmptyIsUnknown()
    ensures DetectBrowser("", "") == BrowserInfo("Unknown", "")
  {
    forall k, j | 0 <= k < |Browsers| && 0 <= j < |Browsers[k].regexes|
      ensures !Occurs(Browsers[k].regexes[j].pattern, "")
    {
      NothingOccursInEmpty(Browsers[k].regexes[j].pattern);
    }
    assert Lower("") == "";
    UnknownIffNothingFound("", "");
  }
}
