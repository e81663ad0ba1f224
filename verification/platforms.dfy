/**
 * `detectPlatform`: a non-empty `Sec-CH-UA-Platform` header is reported as sent, with
 * its surrounding quotes trimmed; otherwise the first entry of an ordered table whose
 * expression matches the lower-cased user agent names the platform, and `Unknown OS`
 * is the default.
 */
module Platforms {
  import opened Text
  import opened Maybe
  import opened Rules
  import opened Patterns

  datatype Platform = Platform(name: string, pattern: Pattern)

  /** `/windows nt 10\.0.*; win64.*; x64.*; (rv|edge|edg)/i` */
  const Windows11: Pattern :=
    Pattern([[Lit("windows nt 10.0")], [Lit("; win64")], [Lit("; x64")], [Lit("; rv"), Lit("; edge"), Lit("; edg")]])

  /** `/macintosh.*ipad/i` */
  const IPadOnMac: Pattern := Pattern([[Lit("macintosh")], [Lit("ipad")]])

  /** The platform table, in declaration order. */
  const Platforms: seq<Platform> := [
    Platform("Windows 11", Windows11),
    Platform("Windows 10", AnyOf(["windows nt 10"])),
    Platform("Windows 8.1", AnyOf(["windows nt 6.3"])),
    Platform("Windows 8", AnyOf(["windows nt 6.2"])),
    Platform("Windows 7", AnyOf(["windows nt 6.1"])),
    Platform("Windows Vista", AnyOf(["windows nt 6.0"])),
    Platform("Windows XP", AnyOf(["windows nt 5.1"])),
    Platform("iOS (iPhone)", AnyOf(["iphone"])),
    Platform("iOS (iPad)", AnyOf(["ipad"])),
    Platform("iPadOS", IPadOnMac),
    Platform("Android", AnyOf(["android"])),
    Platform("macOS", AnyOf(["macintosh", "mac os x"])),
    Platform("Ubuntu", AnyOf(["ubuntu"])),
    Platform("Linux", AnyOf(["linux"])),
    Platform("Chrome OS", AnyOf(["cros"])),
    Platform("BlackBerry", AnyOf(["blackberry"])),
    Platform("Windows Phone", AnyOf(["windows phone"]))
  ]

  /** Entry `k` is the first platform whose expression occurs in `ua`. */
  ghost predicate PlatformPicks(ua: string, k: int) {
    && 0 <= k < |Platforms|
    && Occurs(Platforms[k].pattern, ua)
    && forall j :: 0 <= j < k ==> !Occurs(Platforms[j].pattern, ua)
  }

  /** The first platform whose expression matches `ua`, if any. */
  function PlatformPick(ua: string): (k: Option<nat>)
    ensures k.Some? ==> PlatformPicks(ua, k.value)
    ensures k.None? <==> forall j :: 0 <= j < |Platforms| ==> !Occurs(Platforms[j].pattern, ua)
  {
    var hits := seq(|Platforms|, j requires 0 <= j < |Platforms| => Matches(Platforms[j].pattern, ua));
    assert forall j :: 0 <= j < |Platforms| ==> (hits[j] <==> Occurs(Platforms[j].pattern, ua)) by {
      forall j | 0 <= j < |Platforms| ensures hits[j] <==> Occurs(Platforms[j].pattern, ua) {
        MatchesIffOccurs(Platforms[j].pattern, ua);
      }
    }
    FirstTrue(hits)
  }

  /** `detectPlatform($userAgent)` with the request's `Sec-CH-UA-Platform` header (`""` when absent). */
  function DetectPlatform(ua: string, secChUaPlatform: string): (r: string)
    ensures !IsPhpEmpty(secChUaPlatform) ==> IsTrimOf(secChUaPlatform, r, IsQuote)
    ensures IsPhpEmpty(secChUaPlatform) ==> forall k :: PlatformPicks(ua, k) ==> r == Platforms[k].name
    ensures IsPhpEmpty(secChUaPlatform) && (forall k :: 0 <= k < |Platforms| ==> !Occurs(Platforms[k].pattern, ua)) ==>
      r == "Unknown OS"
  {
    if !IsPhpEmpty(secChUaPlatform) then
      TrimIsTrimOf(secChUaPlatform, IsQuote);
      TrimQuotes(secChUaPlatform)
    else
      match PlatformPick(ua)
      case Some(k) => Platforms[k].name
      case None => "Unknown OS"
  }

  // ---------------------------------------------------------------- properties

  /** A platform header `0` is empty to PHP, so the user agent decides as if there were no header. */
  lemma ZeroHeaderIsAbsent(ua: string)
    ensures DetectPlatform(ua, "0") == DetectPlatform(ua, "")
  {
    assert IsPhpEmpty("0") && IsPhpEmpty("");
  }

  /** A quoted header value is reported without its quotes, whatever the user agent says. */
  lemma QuotedHeaderWins(ua: string, x: string)
    requires |x| > 0 ==> x[0] != '"' && x[|x| - 1] != '"'
    ensures DetectPlatform(ua, "\"" + x + "\"") == x
  {
    TrimQuotesUnquotes(x);
  }

  /** The literal of a one-part, one-literal pattern occurs wherever the pattern does. */
  lemma FirstLiteralOccurs(p: Pattern, w: string, s: string)
    requires |p.parts| > 0 && p.parts[0] == [Lit(w)]
    ensures Occurs(p, s) ==> Contains(s, w)
  {
    if Occurs(p, s) {
      var i: nat, a :| Step(p.parts, s, i, a);
      OccursAtLit(w, s, i);
    }
  }

  /** Whenever the Windows 11 expression matches, so does the Windows 10 one: only the table order tells them apart. */
  lemma Windows11ImpliesWindows10(ua: string)
    ensures Occurs(Windows11, ua) ==> Occurs(Platforms[1].pattern, ua)
  {
    FirstLiteralOccurs(Windows11, "windows nt 10.0", ua);
    OccursWord("windows nt 10", ua);
    if Contains(ua, "windows nt 10.0") {
      var i :| 0 <= i <= |ua| - 15 && StartsAt(ua, i, "windows nt 10.0");
      assert ua[i..i + 13] == ua[i..i + 15][..13];
      assert StartsAt(ua, i, "windows nt 10");
    }
  }

  /** Without a header, a user agent the Windows 11 expression matches is Windows 11. */
  lemma Windows11First(ua: string)
    requires Occurs(Windows11, ua)
    ensures DetectPlatform(ua, "") == "Windows 11"
  {
    assert PlatformPicks(ua, 0);
  }

  /** The parts of the Windows 11 expression occur back to back in `windows nt 10.0; win64; x64; rv`. */
  lemma Windows11OnAdjacentParts(ua: string, i: nat)
    requires StartsAt(ua, i, "windows nt 10.0; win64; x64; rv")
    ensures Occurs(Windows11, ua)
  {
    var t := "windows nt 10.0; win64; x64; rv";
    assert forall k :: 0 <= k < |t| ==> ua[i + k] == t[k];
    assert t[..15] == "windows nt 10.0" && t[15..22] == "; win64" && t[22..27] == "; x64" && t[27..] == "; rv";
    assert ua[i..i + 15] == t[..15];
    assert ua[i + 15..i + 22] == t[15..22];
    assert ua[i + 22..i + 27] == t[22..27];
    assert ua[i + 27..i + 31] == t[27..];
    OccursAtLit("windows nt 10.0", ua, i);
    OccursAtLit("; win64", ua, i + 15);
    OccursAtLit("; x64", ua, i + 22);
    OccursAtLit("; rv", ua, i + 27);
    var p := Windows11.parts;
    assert p[1..][1..] == p[2..] && p[2..][1..] == p[3..] && |p[3..][1..]| == 0;
    assert Step(p[3..], ua, i + 27, 0);
    assert SameLine(ua, i + 27, i + 27);
    assert Step(p[2..], ua, i + 22, 0);
    assert SameLine(ua, i + 22, i + 22);
    assert Step(p[1..], ua, i + 15, 0);
    assert SameLine(ua, i + 15, i + 15);
    assert Step(p, ua, i, 0);
  }

  /**
   * A Windows 10 Firefox user agent (`windows nt 10.0; win64; x64; rv:...`) is reported as
   * Windows 11: that exact sequence is what the Windows 11 expression looks for.
   */
  lemma Win64FirefoxIsWindows11(ua: string)
    requires Contains(ua, "windows nt 10.0; win64; x64; rv")
    ensures DetectPlatform(ua, "") == "Windows 11"
  {
    var i :| 0 <= i <= |ua| - 31 && StartsAt(ua, i, "windows nt 10.0; win64; x64; rv");
    Windows11OnAdjacentParts(ua, i);
    Windows11First(ua);
  }

  /** Without a header, an entry that matches bounds the answer: some entry no later than it wins. */
  lemma MatchingEntryBoundsPick(ua: string, j: int)
    requires 0 <= j < |Platforms| && Occurs(Platforms[j].pattern, ua)
    ensures exists k :: 0 <= k <= j && PlatformPicks(ua, k) && DetectPlatform(ua, "") == Platforms[k].name
  {
    var k := PlatformPick(ua).value;
    assert PlatformPicks(ua, k);
  }

  /** The Android entry precedes the Linux entries: an Android user agent is never reported as Linux (or Ubuntu). */
  lemma AndroidBeforeLinux(ua: string)
    requires Contains(ua, "android")
    ensures DetectPlatform(ua, "") != "Linux" && DetectPlatform(ua, "") != "Ubuntu"
  {
    OccursWord("android", ua);
    MatchingEntryBoundsPick(ua, 10);
  }

  /** `/macintosh.*ipad/i` can only match where `/ipad/i` does. */
  lemma IPadOnMacImpliesIpad(ua: string)
    ensures Occurs(IPadOnMac, ua) ==> Occurs(Platforms[8].pattern, ua)
  {
    OccursWord("ipad", ua);
    if Occurs(IPadOnMac, ua) {
      var i: nat, a :| Step(IPadOnMac.parts, ua, i, a);
      var rest := IPadOnMac.parts[1..];
      assert Chain(rest, ua, i + |IPadOnMac.parts[0][a]|);
      var j: nat, b :| SameLine(ua, i + |IPadOnMac.parts[0][a]|, j) && Step(rest, ua, j, b);
      OccursAtLit("ipad", ua, j);
    }
  }

  /** Entry 9 is the only one named `iPadOS`. */
  lemma OnlyIPadOSEntry(k: int)
    requires 0 <= k < |Platforms| && Platforms[k].name == "iPadOS"
    ensures k == 9
  {
  }

  /** The `iPadOS` entry is dead: whatever it matches, `iOS (iPad)` matched first. */
  lemma IPadOSUnreachable(ua: string)
    ensures DetectPlatform(ua, "") != "iPadOS"
  {
    IPadOnMacImpliesIpad(ua);
    var k := PlatformPick(ua);
    if k.Some? {
      assert PlatformPicks(ua, k.value);
      assert k.value != 9;
      if Platforms[k.value].name == "iPadOS" {
        OnlyIPadOSEntry(k.value);
      }
    }
  }

  /** No platform expression occurs in the empty text. */
  lemma NoPlatformInEmpty()
    ensures forall k :: 0 <= k < |Platforms| ==> !Occurs(Platforms[k].pattern, "")
  {
    forall k | 0 <= k < |Platforms| ensures !Occurs(Platforms[k].pattern, "") {
      NothingOccursInEmpty(Platforms[k].pattern);
    }
  }

  /** Without a user agent and without a header, the platform is `Unknown OS`. */
  lemma EmptyIsUnknownOS()
    ensures DetectPlatform("", "") == "Unknown OS"
  {
    NoPlatformInEmpty();
  }
}
