/**
 * `detectRobot`: a fixed, ordered table of crawler names and the case-insensitive word
 * each is recognised by. The first entry whose word occurs in the (lower-cased) user
 * agent names the robot.
 */
module Robots {
  import opened Text
  import opened Maybe
  import opened Rules
  import opened Patterns

  /** One table entry: the reported name and the word of its `/word/i` pattern. */
  datatype Robot = Robot(name: string, keyword: string)

  datatype RobotVerdict = RobotVerdict(isRobot: bool, name: Option<string>)

  /** The robot table, in declaration order. */
  const Robots: seq<Robot> := [
    Robot("Googlebot", "googlebot"),
    Robot("Bingbot", "bingbot"),
    Robot("Slurp", "slurp"),
    Robot("DuckDuckBot", "duckduckbot"),
    Robot("Baiduspider", "baiduspider"),
    Robot("YandexBot", "yandexbot"),
    Robot("Sogou", "sogou"),
    Robot("Exabot", "exabot"),
    Robot("facebot", "facebot"),
    Robot("ia_archiver", "ia_archiver"),
    Robot("Facebookbot", "facebookexternalhit"),
    Robot("Twitterbot", "twitterbot"),
    Robot("LinkedInBot", "linkedinbot"),
    Robot("WhatsApp", "whatsapp"),
    Robot("Telegram", "telegrambot"),
    Robot("Discordbot", "discordbot"),
    Robot("Slackbot", "slackbot"),
    Robot("Applebot", "applebot"),
    Robot("AhrefsBot", "ahrefsbot"),
    Robot("SemrushBot", "semrushbot"),
    Robot("MJ12bot", "mj12bot"),
    Robot("DotBot", "dotbot"),
    Robot("Screaming Frog", "screaming frog"),
    Robot("SEOkicks", "seokicks")
  ]

  /** Entry `k` is the first whose word occurs in `ua`. */
  ghost predicate FirstRobot(ua: string, k: int) {
    && 0 <= k < |Robots|
    && Contains(ua, Robots[k].keyword)
    && forall j :: 0 <= j < k ==> !Contains(ua, Robots[j].keyword)
  }

  /** The per-entry verdicts of `preg_match($pattern, $userAgent)`, in table order. */
  function RobotHits(ua: string): (hits: seq<bool>)
    ensures |hits| == |Robots|
    ensures forall k :: 0 <= k < |Robots| ==> (hits[k] <==> Contains(ua, Robots[k].keyword))
  {
    var hits := seq(|Robots|, k requires 0 <= k < |Robots| => Matches(AnyOf([Robots[k].keyword]), ua));
    assert forall k :: 0 <= k < |Robots| ==> (hits[k] <==> Contains(ua, Robots[k].keyword)) by {
      forall k | 0 <= k < |Robots| ensures hits[k] <==> Contains(ua, Robots[k].keyword) {
        MatchesWord(Robots[k].keyword, ua);
      }
    }
    hits
  }

  /** `detectRobot($userAgent)` with `enable_robot_detection` as `enabled`. */
  function DetectRobot(enabled: bool, ua: string): (r: RobotVerdict)
    ensures r.isRobot <==> r.name.Some?
    ensures !enabled ==> r == RobotVerdict(false, None)
    ensures enabled ==> (r.isRobot <==> exists k :: 0 <= k < |Robots| && Contains(ua, Robots[k].keyword))
    ensures r.name.Some? ==> exists k :: FirstRobot(ua, k) && r.name.value == Robots[k].name
  {
    if !enabled then RobotVerdict(false, None)
    else
      var hits := RobotHits(ua);
      match FirstTrue(hits)
      case None => RobotVerdict(false, None)
      case Some(k) =>
        assert FirstRobot(ua, k);
        RobotVerdict(true, Some(Robots[k].name))
  }

  /** The reported name is determined by the user agent: the first entry whose word occurs. */
  lemma DetectRobotNamesFirst(ua: string, k: int)
    requires FirstRobot(ua, k)
    ensures DetectRobot(true, ua) == RobotVerdict(true, Some(Robots[k].name))
  {
    var r := DetectRobot(true, ua);
    var k' :| FirstRobot(ua, k') && r.name.value == Robots[k'].name;
    var hits := RobotHits(ua);
    assert IsFirst(hits, k) && IsFirst(hits, k');
    FirstIsUnique(hits, k, k');
  }

  /** A user agent mentioning `googlebot` is always reported as Googlebot, whatever else it says. */
  lemma GooglebotWins(ua: string)
    requires Contains(ua, "googlebot")
    ensures DetectRobot(true, ua) == RobotVerdict(true, Some("Googlebot"))
  {
    DetectRobotNamesFirst(ua, 0);
  }

  /** An empty user agent is not a robot. */
  lemma EmptyIsNoRobot(enabled: bool)
    ensures DetectRobot(enabled, "") == RobotVerdict(false, None)
  {
    assert forall k :: 0 <= k < |Robots| ==> |Robots[k].keyword| > 0;
  }
}
