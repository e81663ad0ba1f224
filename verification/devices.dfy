/**
 * `detectDevice` and what it relies on: the mobile and tablet keyword tests, and the
 * brand/model cascade of `detectMobileDevice`. The cascade is an ordered table of
 * brands; the first brand whose trigger matches the user agent is reported, with the
 * model given by the first of its model expressions that matches, or else by the
 * brand's fallback (`iPhone`, `iPad`, `Pixel`, or none).
 */
module Devices {
  import opened Text
  import opened Maybe
  import opened Rules
  import opened Patterns
  import opened Captures

  // ---------------------------------------------------------------- device kind

  /** `/mobile|android|iphone|ipod|blackberry|iemobile|opera mini/i` */
  const MobileWords: seq<string> := ["mobile", "android", "iphone", "ipod", "blackberry", "iemobile", "opera mini"]

  /** `/tablet|ipad|playbook|silk|kindle/i` */
  const TabletWords: seq<string> := ["tablet", "ipad", "playbook", "silk", "kindle"]

  /** `isMobileDevice($userAgent)`. */
  function IsMobileDevice(ua: string): (b: bool)
    ensures b <==> exists k :: 0 <= k < |MobileWords| && Contains(ua, MobileWords[k])
  {
    MatchesAnyOf(MobileWords, ua);
    Matches(AnyOf(MobileWords), ua)
  }

  /** `isTabletDevice($userAgent)`. */
  function IsTabletDevice(ua: string): (b: bool)
    ensures b <==> exists k :: 0 <= k < |TabletWords| && Contains(ua, TabletWords[k])
  {
    MatchesAnyOf(TabletWords, ua);
    Matches(AnyOf(TabletWords), ua)
  }

  // ---------------------------------------------------------------- iPhone model

  /** `/iphone\s*([0-9]+...)/i`: the part of the expression that decides where the match is. */
  const IphoneRule := CaptureRule(["iphone"], AnySpaces, Digits)

  /** The end of `[,\.]?[0-9]*` read greedily from `e`. */
  function DecimalTailEnd(s: string, e: nat): (f: nat)
    requires e <= |s|
    ensures e <= f <= |s|
    ensures f == e ==> e == |s| || (s[e] != ',' && s[e] != '.')
    ensures f > e ==> (s[e] == ',' || s[e] == '.') && (forall x :: e < x < f ==> IsDigit(s[x])) && (f == |s| || !IsDigit(s[f]))
  {
    if e < |s| && (s[e] == ',' || s[e] == '.') then
      ClassEndRun(s, e + 1, Digits);
      ClassEnd(s, e + 1, Digits)
    else e
  }

  /**
   * `extractIphoneModel($userAgent)`: at the first `iphone` followed by optional spaces and
   * a digit, the number `[0-9]+[,\.]?[0-9]*`, with `,` written as `.`, after `iPhone `.
   */
  function ExtractIphoneModel(ua: string): (m: Option<string>)
    ensures m.None? <==> forall j :: 0 <= j <= |ua| ==> !MatchesAt(IphoneRule, ua, j)
    ensures m.Some? ==> exists c :: (LeftmostGreedy(IphoneRule, ua, 0, c) &&
      m.value == "iPhone " + Replace(ua[c.from..DecimalTailEnd(ua, c.to)], ',', '.'))
    ensures m.Some? ==> |m.value| > 7 && m.value[..7] == "iPhone " && ',' !in m.value
  {
    FindMeaning(IphoneRule, ua, 0);
    match Find(IphoneRule, ua, 0)
    case None => None
    case Some(c) =>
      assert MatchesAt(IphoneRule, ua, c.start);
      var n := Replace(ua[c.from..DecimalTailEnd(ua, c.to)], ',', '.');
      assert ',' !in n by {
        forall x | 0 <= x < |n| ensures n[x] != ',' { }
      }
      Some("iPhone " + n)
  }

  // ---------------------------------------------------------------- the brand table

  /** How the captured group is written into the model. */
  datatype Shape = AsIs | Trimmed | Uppercased

  /** What precedes the group: fixed text, or `ucfirst` of the matched alternative and a space. */
  datatype Prefix = Fixed(text: string) | Alternative

  datatype Extractor =
    | Captured(rule: CaptureRule, prefix: Prefix, shape: Shape)
    | IphoneModel

  datatype Brand = Brand(name: string, trigger: Pattern, extractors: seq<Extractor>, fallback: Option<string>)

  datatype Identity = Identity(brand: Option<string>, model: Option<string>)

  /** `/sm-([a-z0-9]+)/i` */
  const SamsungNumber := CaptureRule(["sm-"], Adjacent, Alnum)

  /** The brand table of `detectMobileDevice`, in the order its tests run. */
  const Brands: seq<Brand> := [
    Brand("Apple", AnyOf(["iphone"]), [IphoneModel], Some("iPhone")),
    Brand("Apple", AnyOf(["ipad"]), [], Some("iPad")),
    Brand("Samsung", AnyOf(["samsung", "sm-", "galaxy"]), [
        Captured(SamsungNumber, Fixed("SM-"), Uppercased),
        Captured(CaptureRule(["galaxy"], AnySpaces, AlnumOrSpace), Fixed("Galaxy "), Trimmed)
      ], None),
    Brand("Xiaomi", Pattern([[Lit("xiaomi"), Lit("redmi"), [Char('m'), Char('i'), Space], Lit("pocophone")]]), [
        Captured(CaptureRule(["redmi", "mi", "pocophone"], AnySpaces, AlnumOrSpace), Alternative, Trimmed)
      ], None),
    Brand("Huawei", AnyOf(["huawei", "honor"]), [
        Captured(CaptureRule(["huawei", "honor"], OneSpaceOrDash, AlnumOrSpace), Alternative, Trimmed)
      ], None),
    Brand("OnePlus", AnyOf(["oneplus"]), [Captured(CaptureRule(["oneplus"], AnySpaces, Alnum), Fixed("OnePlus "), AsIs)], None),
    Brand("Oppo", AnyOf(["oppo"]), [Captured(CaptureRule(["oppo"], AnySpaces, Alnum), Fixed("Oppo "), AsIs)], None),
    Brand("Vivo", AnyOf(["vivo"]), [Captured(CaptureRule(["vivo"], AnySpaces, Alnum), Fixed("Vivo "), AsIs)], None),
    Brand("Google", AnyOf(["pixel"]), [
        Captured(CaptureRule(["pixel"], AnySpaces, AlnumOrSpace), Fixed("Pixel "), Trimmed)
      ], Some("Pixel")),
    Brand("Motorola", AnyOf(["motorola", "moto"]), [
        Captured(CaptureRule(["moto"], AnySpaces, AlnumOrSpace), Fixed("Moto "), Trimmed)
      ], None),
    Brand("Nokia", AnyOf(["nokia"]), [Captured(CaptureRule(["nokia"], AnySpaces, DigitsOrDots), Fixed("Nokia "), AsIs)], None),
    Brand("LG", Pattern([[[Char('l'), Char('g'), SpaceOrDash]]]), [
        Captured(CaptureRule(["lg"], OneSpaceOrDash, Alnum), Fixed("LG "), Uppercased)
      ], None),
    Brand("Sony", AnyOf(["sony"]), [Captured(CaptureRule(["sony"], AnySpaces, AlnumOrSpace), Fixed("Sony "), Trimmed)], None),
    Brand("HTC", AnyOf(["htc"]), [Captured(CaptureRule(["htc"], AnySpaces, AlnumOrSpace), Fixed("HTC "), Trimmed)], None)
  ]

  // ---------------------------------------------------------------- models

  function ShapeGroup(shape: Shape, g: string): string {
    match shape
    case AsIs => g
    case Trimmed => TrimSpaces(g)
    case Uppercased => Upper(g)
  }

  function PrefixText(prefix: Prefix, rule: CaptureRule, c: Capture): string
    requires c.alt < |rule.alts|
  {
    match prefix
    case Fixed(t) => t
    case Alternative => UcFirst(rule.alts[c.alt]) + " "
  }

  /** One model expression applied to the user agent: its model when it matches, else nothing. */
  function ApplyExtractor(x: Extractor, ua: string): (m: Option<string>)
    ensures x.IphoneModel? ==> m == ExtractIphoneModel(ua)
    ensures x.Captured? ==> (m.None? <==> forall j :: 0 <= j <= |ua| ==> !MatchesAt(x.rule, ua, j))
    ensures x.Captured? && m.Some? ==> exists c :: (LeftmostGreedy(x.rule, ua, 0, c) &&
      m.value == PrefixText(x.prefix, x.rule, c) + ShapeGroup(x.shape, ua[c.from..c.to]))
  {
    match x
    case IphoneModel => ExtractIphoneModel(ua)
    case Captured(rule, prefix, shape) =>
      FindMeaning(rule, ua, 0);
      match Find(rule, ua, 0)
      case None => None
      case Some(c) =>
        assert MatchesAt(rule, ua, c.start);
        Some(PrefixText(prefix, rule, c) + ShapeGroup(shape, ua[c.from..c.to]))
  }

  /** The first model expression of `xs` that yields a model. */
  function FirstModel(xs: seq<Extractor>, ua: string): (m: Option<string>)
    ensures m.None? <==> forall j :: 0 <= j < |xs| ==> ApplyExtractor(xs[j], ua).None?
    ensures m.Some? ==> exists j :: (0 <= j < |xs| && m == ApplyExtractor(xs[j], ua) &&
      forall i :: 0 <= i < j ==> ApplyExtractor(xs[i], ua).None?)
  {
    var hits := seq(|xs|, j requires 0 <= j < |xs| => ApplyExtractor(xs[j], ua).Some?);
    assert forall j :: 0 <= j < |xs| ==> (hits[j] <==> ApplyExtractor(xs[j], ua).Some?);
    match FirstTrue(hits)
    case None => None
    case Some(k) =>
      assert IsFirst(hits, k);
      ApplyExtractor(xs[k], ua)
  }

  /** The model reported for a brand: the first expression's model, or the brand's fallback. */
  function BrandModel(b: Brand, ua: string): (m: Option<string>)
    ensures FirstModel(b.extractors, ua).Some? ==> m == FirstModel(b.extractors, ua)
    ensures FirstModel(b.extractors, ua).None? ==> m == b.fallback
  {
    match FirstModel(b.extractors, ua)
    case Some(v) => Some(v)
    case None => b.fallback
  }

  /** Entry `k` is the first brand whose trigger occurs in `ua`. */
  ghost predicate BrandPicks(ua: string, k: int) {
    && 0 <= k < |Brands|
    && Occurs(Brands[k].trigger, ua)
    && forall j :: 0 <= j < k ==> !Occurs(Brands[j].trigger, ua)
  }

  /** `detectMobileDevice($userAgent)`. */
  function MobileDevice(ua: string): (r: Identity)
    ensures r.brand.None? <==> forall k :: 0 <= k < |Brands| ==> !Occurs(Brands[k].trigger, ua)
    ensures r.brand.None? ==> r.model.None?
    ensures forall k :: BrandPicks(ua, k) ==> r == Identity(Some(Brands[k].name), BrandModel(Brands[k], ua))
  {
    var hits := seq(|Brands|, k requires 0 <= k < |Brands| => Matches(Brands[k].trigger, ua));
    assert forall k :: 0 <= k < |Brands| ==> (hits[k] <==> Occurs(Brands[k].trigger, ua)) by {
      forall k | 0 <= k < |Brands| ensures hits[k] <==> Occurs(Brands[k].trigger, ua) {
        MatchesIffOccurs(Brands[k].trigger, ua);
      }
    }
    match FirstTrue(hits)
    case None => Identity(None, None)
    case Some(k) =>
      assert BrandPicks(ua, k);
      assert forall k' :: BrandPicks(ua, k') ==> k' == k by {
        forall k' | BrandPicks(ua, k') ensures k' == k {
          assert IsFirst(hits, k') && IsFirst(hits, k);
          FirstIsUnique(hits, k, k');
        }
      }
      Identity(Some(Brands[k].name), BrandModel(Brands[k], ua))
  }

  // ---------------------------------------------------------------- detectDevice

  datatype DeviceInfo = DeviceInfo(
    deviceType: string, brand: Option<string>, model: Option<string>,
    isMobile: bool, isTablet: bool, isDesktop: bool)

  /** `detectDevice($userAgent)`. */
  function DetectDevice(ua: string): (r: DeviceInfo)
    ensures r.isMobile <==> exists k :: 0 <= k < |MobileWords| && Contains(ua, MobileWords[k])
    ensures r.isTablet <==> exists k :: 0 <= k < |TabletWords| && Contains(ua, TabletWords[k])
    ensures r.isDesktop <==> !r.isMobile && !r.isTablet
    ensures r.deviceType == "tablet" <==> r.isTablet
    ensures r.deviceType == "mobile" <==> r.isMobile && !r.isTablet
    ensures r.deviceType == "desktop" <==> r.isDesktop
    ensures r.isDesktop ==> r.brand.None? && r.model.None?
    ensures !r.isDesktop ==> Identity(r.brand, r.model) == MobileDevice(ua)
  {
    var isMobile := IsMobileDevice(ua);
    var isTablet := IsTabletDevice(ua);
    var isDesktop := !isMobile && !isTablet;
    var id := if isMobile || isTablet then MobileDevice(ua) else Identity(None, None);
    DeviceInfo(
      if isTablet then "tablet" else if isMobile then "mobile" else "desktop",
      id.brand, id.model, isMobile, isTablet, isDesktop)
  }

  // ---------------------------------------------------------------- properties

  /** An iPhone user agent is Apple; the model is the extracted number, or plain `iPhone` without one. */
  lemma IphoneIdentity(ua: string)
    requires Contains(ua, "iphone")
    ensures MobileDevice(ua) == Identity(Some("Apple"), Some(ExtractIphoneModel(ua).OrElse("iPhone")))
    ensures (forall j :: 0 <= j <= |ua| ==> !MatchesAt(IphoneRule, ua, j)) ==>
      MobileDevice(ua).model == Some("iPhone")
  {
    OccursWord("iphone", ua);
    assert BrandPicks(ua, 0);
    var xs := Brands[0].extractors;
    assert xs == [IphoneModel];
    assert FirstModel(xs, ua) == ExtractIphoneModel(ua);
  }

  predicate IsDigits(d: string) {
    forall x :: 0 <= x < |d| ==> IsDigit(d[x])
  }

  /** In `iphone <d>,<e>` the engine's match starts at 0 and captures `d`. */
  lemma IphoneNumberMatch(d: string, e: string)
    requires |d| > 0 && IsDigits(d) && IsDigits(e)
    ensures var ua := "iphone " + d + "," + e;
      Find(IphoneRule, ua, 0) == Some(Capture(0, 0, 7, 7 + |d|))
  {
    var ua := "iphone " + d + "," + e;
    var rule := IphoneRule;
    var from, to := 7, 7 + |d|;
    assert ua[..6] == "iphone" && ua[6] == ' ' && ua[to] == ',';
    assert forall x :: from <= x < to ==> ua[x] == d[x - from];
    assert SpelledAt(ua, 0, "iphone");
    assert AllSpaces(ua, 6, from);
    assert GroupStart(rule, ua, 6, from);
    assert forall m :: GroupStart(rule, ua, 6, m) ==> m <= from by {
      forall m | GroupStart(rule, ua, 6, m) ensures m <= from {
        assert AllSpaces(ua, 6, m);
        assert !IsRegexSpace(ua[from]);
      }
    }
    assert Greedy(rule, ua, 6, from, to);
    var c := Capture(0, 0, from, to);
    assert AltWorks(rule, ua, 0, 0);
    assert LeftmostGreedy(rule, ua, 0, c);
    assert MatchesAt(rule, ua, 0);
    FindMeaning(rule, ua, 0);
    LeftmostGreedyUnique(rule, ua, 0, c, Find(rule, ua, 0).value);
  }

  /** After `d`, the optional `,` and the digits `e` run to the end. */
  lemma IphoneNumberTail(d: string, e: string)
    requires IsDigits(e)
    ensures var ua := "iphone " + d + "," + e;
      DecimalTailEnd(ua, 7 + |d|) == |ua|
  {
    var ua := "iphone " + d + "," + e;
    var to := 7 + |d|;
    assert ua[to] == ',';
    assert forall x :: to < x < |ua| ==> ua[x] == e[x - to - 1];
  }

  /** Replacing the comma between two digit strings gives a dot. */
  lemma CommaToDot(d: string, e: string)
    requires IsDigits(d) && IsDigits(e)
    ensures Replace(d + "," + e, ',', '.') == d + "." + e
  {
    var r := Replace(d + "," + e, ',', '.');
    assert forall x :: 0 <= x < |d| ==> r[x] == d[x];
    assert forall x :: 0 <= x < |e| ==> r[|d| + 1 + x] == e[x];
  }

  /** `iphone <d>,<e>` gives the model `iPhone <d>.<e>`: the comma of the model number becomes a dot. */
  lemma IphoneModelNumber(d: string, e: string)
    requires |d| > 0 && IsDigits(d) && IsDigits(e)
    ensures ExtractIphoneModel("iphone " + d + "," + e) == Some("iPhone " + d + "." + e)
  {
    var ua := "iphone " + d + "," + e;
    IphoneNumberMatch(d, e);
    IphoneNumberTail(d, e);
    var n := ua[7..DecimalTailEnd(ua, 7 + |d|)];
    assert n == d + "," + e;
    CommaToDot(d, e);
    IphoneModelOfCapture(ua, Capture(0, 0, 7, 7 + |d|));
    assert "iPhone " + (d + "." + e) == "iPhone " + d + "." + e;
  }

  /** The model `extractIphoneModel` builds from the capture the search reports. */
  lemma IphoneModelOfCapture(ua: string, c: Capture)
    requires c.from <= c.to <= |ua|
    requires Find(IphoneRule, ua, 0) == Some(c)
    ensures ExtractIphoneModel(ua) == Some("iPhone " + Replace(ua[c.from..DecimalTailEnd(ua, c.to)], ',', '.'))
  {
  }

  /** A user agent naming an iPad but no iPhone is always Apple `iPad`. */
  lemma IpadIdentity(ua: string)
    requires !Contains(ua, "iphone") && Contains(ua, "ipad")
    ensures MobileDevice(ua) == Identity(Some("Apple"), Some("iPad"))
  {
    OccursWord("iphone", ua);
    OccursWord("ipad", ua);
    assert BrandPicks(ua, 1);
    assert FirstModel(Brands[1].extractors, ua) == None;
  }

  /** `sm-` followed by a letter or digit makes a Samsung whose model is `SM-` and the upper-cased number. */
  lemma SamsungModelNumber(ua: string, j: int)
    requires !Contains(ua, "iphone") && !Contains(ua, "ipad")
    requires MatchesAt(SamsungNumber, ua, j)
    ensures MobileDevice(ua).brand == Some("Samsung")
    ensures exists c :: (LeftmostGreedy(SamsungNumber, ua, 0, c) &&
      MobileDevice(ua).model == Some("SM-" + Upper(ua[c.from..c.to])))
  {
    OccursWord("iphone", ua);
    OccursWord("ipad", ua);
    var b :| AltWorks(SamsungNumber, ua, j, b);
    SpelledAtIff(ua, j, "sm-");
    var words := ["samsung", "sm-", "galaxy"];
    assert Contains(ua, words[1]);
    MatchesAnyOf(words, ua);
    MatchesIffOccurs(AnyOf(words), ua);
    assert BrandPicks(ua, 2);
    var x := Brands[2].extractors[0];
    assert x == Captured(SamsungNumber, Fixed("SM-"), Uppercased);
    assert ApplyExtractor(x, ua).Some?;
    assert FirstModel(Brands[2].extractors, ua) == ApplyExtractor(x, ua);
  }

  /** An iPad user agent that also says `mobile` counts as both mobile and tablet, and its type is `tablet`. */
  lemma MobileIpadIsBoth(ua: string)
    requires Contains(ua, "ipad") && Contains(ua, "mobile")
    ensures var r := DetectDevice(ua);
      r.isMobile && r.isTablet && !r.isDesktop && r.deviceType == "tablet" && r.brand == Some("Apple")
  {
    assert Contains(ua, MobileWords[0]) && Contains(ua, TabletWords[1]);
    if Contains(ua, "iphone") {
      IphoneIdentity(ua);
    } else {
      IpadIdentity(ua);
    }
  }

  /** An empty user agent is a desktop. */
  lemma EmptyIsDesktop()
    ensures DetectDevice("").isDesktop && DetectDevice("").deviceType == "desktop"
  {
    assert forall k :: 0 <= k < |MobileWords| ==> |MobileWords[k]| > 0;
    assert forall k :: 0 <= k < |TabletWords| ==> |TabletWords[k]| > 0;
  }
}
