/**
 * `DeviceDetector::detect`: the classification record assembled from the individual
 * detectors, and the memo that makes repeated calls on the same request return the
 * stored record.
 *
 * The request is reduced to the four values the detectors read: the `User-Agent`,
 * `Sec-CH-UA` and `Sec-CH-UA-Platform` headers (`""` when absent) and the client
 * address. The two configuration switches and the cached Tor exit list are inputs of
 * each call, as the configuration and the cache are read when detection runs.
 */
module Detector {
  import opened Text
  import opened Maybe
  import opened Patterns
  import Tor
  import Robots
  import Browsers
  import Platforms
  import Devices

  datatype Request = Request(userAgent: string, secChUa: string, secChUaPlatform: string, ip: string)

  /** `enable_tor_detection` and `enable_robot_detection`. */
  datatype Config = Config(torDetection: bool, robotDetection: bool)

  /** Both switches default to on. */
  const DefaultConfig := Config(true, true)

  /** The array `detect` returns, one field per key. */
  datatype Record = Record(
    browser: string, browserVersion: string, platform: string, deviceType: string,
    deviceBrand: Option<string>, deviceModel: Option<string>,
    isMobile: bool, isTablet: bool, isDesktop: bool,
    isRobot: bool, isTor: bool, robotName: Option<string>, ip: string)

  /** The detector object: its current request and, once detection ran, the stored record. */
  datatype Detector = Detector(request: Request, memo: Option<Record>)

  datatype Detection = Detection(detector: Detector, record: Record)

  /** The consistency every record of `detect` has, whatever the request. */
  ghost predicate WellFormed(r: Record) {
    && (r.isDesktop <==> !r.isMobile && !r.isTablet)
    && (r.deviceType == "tablet" <==> r.isTablet)
    && (r.deviceType == "mobile" <==> r.isMobile && !r.isTablet)
    && (r.deviceType == "desktop" <==> r.isDesktop)
    && (r.isDesktop ==> r.deviceBrand.None? && r.deviceModel.None?)
    && (r.deviceModel.Some? ==> r.deviceBrand.Some?)
    && (r.isRobot <==> r.robotName.Some?)
    && (r.browser !in Browsers.VersionTokens ==> r.browserVersion == "")
  }

  /** `new DeviceDetector($request)`: nothing detected yet. */
  function New(req: Request): (d: Detector)
    ensures d.request == req && d.memo.None?
  {
    Detector(req, None)
  }

  /** One full classification of a request, as `detect` computes it when nothing is stored. */
  function Classify(req: Request, cfg: Config, exitNodes: seq<string>): (r: Record)
    ensures WellFormed(r)
    ensures r.ip == req.ip
    ensures r.isTor <==> cfg.torDetection && req.ip in exitNodes
    ensures !cfg.robotDetection ==> !r.isRobot
    ensures var ua := Lower(req.userAgent);
      && Browsers.BrowserInfo(r.browser, r.browserVersion) == Browsers.DetectBrowser(ua, req.secChUa)
      && r.platform == Platforms.DetectPlatform(ua, req.secChUaPlatform)
      && Robots.RobotVerdict(r.isRobot, r.robotName) == Robots.DetectRobot(cfg.robotDetection, ua)
      && Devices.DeviceInfo(r.deviceType, r.deviceBrand, r.deviceModel, r.isMobile, r.isTablet, r.isDesktop) == Devices.DetectDevice(ua)
  {
    var ua := Lower(req.userAgent);
    var isTor := Tor.IsTor(cfg.torDetection, exitNodes, req.ip);
    var robot := Robots.DetectRobot(cfg.robotDetection, ua);
    var browser := Browsers.DetectBrowser(ua, req.secChUa);
    var platform := Platforms.DetectPlatform(ua, req.secChUaPlatform);
    var device := Devices.DetectDevice(ua);
    Record(
      browser.name, browser.version, platform, device.deviceType,
      device.brand, device.model,
      device.isMobile, device.isTablet, device.isDesktop,
      robot.isRobot, isTor, robot.name, req.ip)
  }

  /** `detect($request)`: a given request replaces the current one and clears the memo; a stored record is returned as is. */
  function Detect(d: Detector, req: Option<Request>, cfg: Config, exitNodes: seq<string>): (r: Detection)
    ensures r.detector.memo == Some(r.record)
    ensures req.Some? ==> r.detector.request == req.value && r.record == Classify(req.value, cfg, exitNodes)
    ensures req.None? ==> r.detector.request == d.request
    ensures req.None? && d.memo.Some? ==> r.record == d.memo.value
    ensures req.None? && d.memo.None? ==> r.record == Classify(d.request, cfg, exitNodes)
  {
    var cur := if req.Some? then Detector(req.value, None) else d;
    match cur.memo
    case Some(rec) => Detection(cur, rec)
    case None =>
      var rec := Classify(cur.request, cfg, exitNodes);
      Detection(Detector(cur.request, Some(rec)), rec)
  }

  // ---------------------------------------------------------------- properties

  /** A stored record is one detection of the current request made: well formed and for its address. */
  ghost predicate Consistent(d: Detector) {
    d.memo.Some? ==> WellFormed(d.memo.value) && d.memo.value.ip == d.request.ip
  }

  /** `detect` keeps the detector consistent and always returns a well-formed record. */
  lemma DetectPreservesConsistency(d: Detector, req: Option<Request>, cfg: Config, exitNodes: seq<string>)
    requires Consistent(d)
    ensures Consistent(Detect(d, req, cfg, exitNodes).detector)
    ensures WellFormed(Detect(d, req, cfg, exitNodes).record)
  {
  }

  /**
   * Once detection ran, calling `detect` again without a request returns the same record
   * and leaves the detector as it is, even if the configuration or the exit list changed.
   */
  lemma DetectIsMemoised(d: Detector, req: Option<Request>, cfg: Config, exitNodes: seq<string>,
                         cfg': Config, exitNodes': seq<string>)
    ensures var first := Detect(d, req, cfg, exitNodes);
      Detect(first.detector, None, cfg', exitNodes') == first
  {
  }

  /** With a request given, the outcome does not depend on what the detector held before. */
  lemma FreshRequestForgetsState(d: Detector, d': Detector, req: Request, cfg: Config, exitNodes: seq<string>)
    ensures Detect(d, Some(req), cfg, exitNodes) == Detect(d', Some(req), cfg, exitNodes)
  {
  }

  /** An empty user agent without client hints is an unknown browser on an unknown OS, on a desktop, and not a robot. */
  lemma EmptyUserAgent(ip: string, cfg: Config, exitNodes: seq<string>)
    ensures var r := Classify(Request("", "", "", ip), cfg, exitNodes);
      && r.browser == "Unknown" && r.browserVersion == ""
      && r.platform == "Unknown OS"
      && r.deviceType == "desktop" && r.isDesktop
      && !r.isRobot && r.robotName.None?
  {
    assert Lower("") == "";
    Browsers.EmptyIsUnknown();
    Platforms.EmptyIsUnknownOS();
    Devices.EmptyIsDesktop();
    Robots.EmptyIsNoRobot(cfg.robotDetection);
  }
}
