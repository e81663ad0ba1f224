/**
 * Tor exit-node detection: the parsing of a fetched exit-address listing into the
 * exit list, and the membership test `detectTor` performs. The HTTP fetch and the
 * cache around it are inputs here: a fetch is either a response (successful or not)
 * with its body, or a failure (an exception), and the cache hands `detect` a list.
 */
module Tor {
  import opened Text
  import opened Captures
  import opened Maybe

  /** The word that announces an exit address. */
  const Keyword := "ExitAddress"

  /** `/ExitAddress\s+([0-9\.]+)/`: case-sensitive, applied to the raw response body. */
  const ExitAddressRule := CaptureRule([Keyword], SomeSpaces, DigitsOrDots)

  /** The outcome of `Http::timeout(10)->get($torUrl)`. */
  datatype Fetch = Response(successful: bool, body: string) | Failed

  /** What `[0-9\.]+` captures. */
  predicate IsAddressToken(ip: string) {
    IsRun(ip, DigitsOrDots)
  }

  /** `preg_match_all(...)` then `$matches[1]`: every address token after `ExitAddress`, in order. */
  function ParseExitList(body: string): (nodes: seq<string>)
    ensures forall k :: 0 <= k < |nodes| ==> IsAddressToken(nodes[k])
  {
    ScanAllRuns(ExitAddressRule, body, 0);
    ScanAll(ExitAddressRule, body, 0)
  }

  /** Whatever the body, the parsed list is the groups of the chain of matches a scan of it meets. */
  lemma ParseExitListIffChain(body: string, nodes: seq<string>)
    ensures ParseExitList(body) == nodes <==> exists cs :: MatchChain(ExitAddressRule, body, 0, nodes, cs)
  {
    ScanAllIffChain(ExitAddressRule, body, 0, nodes);
  }

  /** The exit list the cache stores after a refresh: empty unless the fetch succeeded. */
  function ExitNodes(f: Fetch): (nodes: seq<string>)
    ensures !(f.Response? && f.successful) ==> nodes == []
    ensures f.Response? && f.successful ==> nodes == ParseExitList(f.body)
  {
    match f
    case Response(ok, body) => if ok then ParseExitList(body) else []
    case Failed => []
  }

  /** `detectTor`: `in_array($ip, $torExitNodes)` when detection is enabled, else `false`. */
  function IsTor(enabled: bool, exitNodes: seq<string>, ip: string): (r: bool)
    ensures r <==> enabled && exists k :: 0 <= k < |exitNodes| && exitNodes[k] == ip
  {
    enabled && ip in exitNodes
  }

  // ---------------------------------------------------------------- listings

  /** `ExitAddress` is not spelled anywhere in `t`. */
  ghost predicate NoKeyword(t: string) {
    forall j :: !SpelledAt(t, j, Keyword)
  }

  /**
   * A line of a listing. `Announce` is `ExitAddress <ip><rest>`; `rest` is what follows
   * the address on its line, such as the time the address was seen. `Other` is any other
   * line, such as the `ExitNode`, `Published` and `LastStatus` lines of a record.
   */
  datatype ListingLine = Announce(ip: string, rest: string) | Other(text: string)

  /** The line as it appears in a body, with its line feed. */
  function LineText(l: ListingLine): string {
    match l
    case Announce(ip, rest) => Head(ip) + (rest + "\n")
    case Other(text) => text + "\n"
  }

  /** The part of an announcing line up to the end of its address. */
  function Head(ip: string): string {
    Keyword + " " + ip
  }

  /**
   * A line the scan reads as intended: an announced address is a token that ends where
   * the address ends, and no other text of the line spells `ExitAddress`.
   */
  ghost predicate WellFormedLine(l: ListingLine) {
    match l
    case Announce(ip, rest) =>
      IsAddressToken(ip) && (|rest| == 0 || !InClass(rest[0], DigitsOrDots)) && NoKeyword(rest)
    case Other(text) => NoKeyword(text)
  }

  /** The body made of the lines, in order. */
  function Listing(ls: seq<ListingLine>): string {
    if |ls| == 0 then "" else LineText(ls[0]) + Listing(ls[1..])
  }

  /** The addresses the lines announce, in order. */
  function Announced(ls: seq<ListingLine>): seq<string> {
    if |ls| == 0 then []
    else (if ls[0].Announce? then [ls[0].ip] else []) + Announced(ls[1..])
  }

  /** The keyword spells no line feed. */
  lemma KeywordHasNoLineFeed()
    ensures forall x :: 0 <= x < |Keyword| ==> Keyword[x] != '\n'
  {
  }

  /** Text spelled out as `a + b` is `a`, then `b`. */
  lemma SpelledSplit(s: string, i: nat, a: string, b: string)
    requires SpelledAt(s, i, a + b)
    ensures SpelledAt(s, i, a) && SpelledAt(s, i + |a|, b)
  {
    assert forall x :: 0 <= x < |a| ==> (a + b)[x] == a[x];
    assert forall x :: 0 <= x < |b| ==> (a + b)[|a| + x] == b[x];
  }

  /** Where an announcing head is spelled out and the address ends with a non-address character or the body, the engine reports it. */
  lemma HeadMatch(s: string, i: nat, ip: string)
    requires IsAddressToken(ip)
    requires SpelledAt(s, i, Head(ip))
    requires i + |Head(ip)| == |s| || !InClass(s[i + |Head(ip)|], DigitsOrDots)
    ensures LeftmostGreedy(ExitAddressRule, s, i, Capture(i, 0, i + 12, i + 12 + |ip|))
    ensures s[i + 12..i + 12 + |ip|] == ip
  {
    var rule := ExitAddressRule;
    var k := i + 11;
    var from := i + 12;
    var to := from + |ip|;
    SpelledSplit(s, i, Keyword + " ", ip);
    SpelledSplit(s, i, Keyword, " ");
    assert s[k + 0] == " "[0];
    assert forall x :: 0 <= x < |ip| ==> s[from + x] == ip[x];
    assert s[from] == ip[0];
    assert AllSpaces(s, k, from);
    assert GroupStart(rule, s, k, from);
    assert forall m :: GroupStart(rule, s, k, m) ==> m <= from by {
      forall m | GroupStart(rule, s, k, m) ensures m <= from {
        assert AllSpaces(s, k, m);
        assert !IsRegexSpace(s[from]);
      }
    }
    assert forall x :: from <= x < to ==> InClass(s[x], rule.cls) by {
      forall x | from <= x < to ensures InClass(s[x], rule.cls) {
        assert s[from + (x - from)] == ip[x - from];
      }
    }
    assert Greedy(rule, s, k, from, to);
    assert AltWorks(rule, s, i, 0);
    assert forall x :: 0 <= x < |ip| ==> s[from..to][x] == ip[x];
  }

  /** Text `t` without the keyword, followed by a line feed, holds no start of the keyword. */
  lemma SegmentHasNoKeyword(s: string, i: nat, t: string)
    requires SpelledAt(s, i, t + "\n") && NoKeyword(t)
    ensures forall j :: i <= j < i + |t| + 1 ==> NoAltAt(ExitAddressRule, s, j)
  {
    KeywordHasNoLineFeed();
    SpelledSplit(s, i, t, "\n");
    assert s[i + |t| + 0] == "\n"[0];
    forall j | i <= j < i + |t| + 1 ensures !SpelledAt(s, j, Keyword) {
      if j + |Keyword| <= i + |t| {
        assert !SpelledAt(t, j - i, Keyword);
        var y :| 0 <= y < |Keyword| && t[j - i + y] != Keyword[y];
        assert s[j + y] == t[j - i + y];
      } else if j + |Keyword| <= |s| {
        assert s[j + (i + |t| - j)] == '\n' != Keyword[i + |t| - j];
      }
    }
  }

  /** `s` holds, from index `i` to its end, the lines `ls`, one after the other. */
  ghost predicate ListingAt(s: string, i: nat, ls: seq<ListingLine>)
    decreases |ls|
  {
    if |ls| == 0 then i == |s|
    else SpelledAt(s, i, LineText(ls[0])) && ListingAt(s, i + |LineText(ls[0])|, ls[1..])
  }

  /** A listing is its first line followed by the listing of the rest. */
  lemma ListingSplit(s: string, i: nat, ls: seq<ListingLine>)
    requires |ls| > 0 && i <= |s| && s[i..] == Listing(ls)
    ensures SpelledAt(s, i, LineText(ls[0]))
    ensures s[i + |LineText(ls[0])|..] == Listing(ls[1..])
  {
    var l := LineText(ls[0]);
    assert s[i..] == l + Listing(ls[1..]);
    assert forall x :: 0 <= x < |l| ==> s[i + x] == s[i..][x];
    assert s[i + |l|..] == s[i..][|l|..];
  }

  /** A listing placed at the end of a text lies there line by line. */
  lemma {:induction false} ListingLies(s: string, i: nat, ls: seq<ListingLine>)
    requires i <= |s| && s[i..] == Listing(ls)
    ensures ListingAt(s, i, ls)
    decreases |ls|
  {
    if |ls| == 0 {
      assert |s[i..]| == 0;
    } else {
      ListingSplit(s, i, ls);
      ListingLies(s, i + |LineText(ls[0])|, ls[1..]);
    }
  }

  /** The matches the engine reports in lines `ls` that begin at `i`: one per announcing line, at its start. */
  function ListingCaptures(i: nat, ls: seq<ListingLine>): (cs: seq<Capture>)
    decreases |ls|
  {
    if |ls| == 0 then []
    else
      var next := ListingCaptures(i + |LineText(ls[0])|, ls[1..]);
      if ls[0].Announce? then [Capture(i, 0, i + 12, i + 12 + |ls[0].ip|)] + next else next
  }

  /** A keyword-free gap from `g` to `i`, then no match from `i` on, is no match from `g` on. */
  lemma NoMatchAcrossGap(s: string, g: nat, i: nat)
    requires g <= i <= |s|
    requires forall j :: g <= j < i ==> NoAltAt(ExitAddressRule, s, j)
    requires forall j :: i <= j <= |s| ==> !MatchesAt(ExitAddressRule, s, j)
    ensures forall j :: g <= j <= |s| ==> !MatchesAt(ExitAddressRule, s, j)
  {
    forall j | g <= j < i ensures !MatchesAt(ExitAddressRule, s, j) {
      assert NoAltAt(ExitAddressRule, s, j);
    }
  }

  /** A keyword-free gap from `g` up to a reported match leaves it the reported match from `g`. */
  lemma MatchAcrossGap(s: string, g: nat, i: nat, c: Capture)
    requires g <= i
    requires forall j :: g <= j < i ==> NoAltAt(ExitAddressRule, s, j)
    requires LeftmostGreedy(ExitAddressRule, s, i, c)
    ensures LeftmostGreedy(ExitAddressRule, s, g, c)
  {
    forall j | g <= j < i ensures !MatchesAt(ExitAddressRule, s, j) {
      assert NoAltAt(ExitAddressRule, s, j);
    }
  }

  /** On an announcing line, the engine reports the address, and nothing after it on the line can start a match. */
  lemma AnnounceLayout(s: string, i: nat, ip: string, rest: string)
    requires WellFormedLine(Announce(ip, rest))
    requires SpelledAt(s, i, LineText(Announce(ip, rest)))
    ensures LeftmostGreedy(ExitAddressRule, s, i, Capture(i, 0, i + 12, i + 12 + |ip|))
    ensures s[i + 12..i + 12 + |ip|] == ip
    ensures forall j :: i + 12 + |ip| <= j < i + |LineText(Announce(ip, rest))| ==> NoAltAt(ExitAddressRule, s, j)
  {
    var to := i + |Head(ip)|;
    SpelledSplit(s, i, Head(ip), rest + "\n");
    assert s[to] == (rest + "\n")[0];
    HeadMatch(s, i, ip);
    SegmentHasNoKeyword(s, to, rest);
  }

  /** The announced addresses and the captures of a listing whose first line announces nothing. */
  lemma OtherStep(i: nat, ls: seq<ListingLine>)
    requires |ls| > 0 && ls[0].Other?
    ensures Announced(ls) == Announced(ls[1..])
    ensures ListingCaptures(i, ls) == ListingCaptures(i + |LineText(ls[0])|, ls[1..])
  {
    assert Announced(ls) == [] + Announced(ls[1..]);
  }

  /** The announced addresses and the captures of a listing whose first line announces an address. */
  lemma AnnounceStep(i: nat, ls: seq<ListingLine>)
    requires |ls| > 0 && ls[0].Announce?
    ensures Announced(ls) == [ls[0].ip] + Announced(ls[1..])
    ensures ListingCaptures(i, ls) == [Capture(i, 0, i + 12, i + 12 + |ls[0].ip|)] + ListingCaptures(i + |LineText(ls[0])|, ls[1..])
  {
  }

  /**
   * With a keyword-free gap from `g` to `i` and well-formed lines `ls` from `i` to the end,
   * the matches a scan from `g` meets are those of the announcing lines, with their addresses.
   */
  lemma {:induction false} ListingChain(s: string, g: nat, i: nat, ls: seq<ListingLine>)
    requires forall k :: 0 <= k < |ls| ==> WellFormedLine(ls[k])
    requires g <= i <= |s| && ListingAt(s, i, ls)
    requires forall j :: g <= j < i ==> NoAltAt(ExitAddressRule, s, j)
    ensures MatchChain(ExitAddressRule, s, g, Announced(ls), ListingCaptures(i, ls))
    decreases |ls|, 1
  {
    if |ls| == 0 {
      NoMatchAtEnd(s);
      NoMatchAcrossGap(s, g, i);
    } else if ls[0].Other? {
      OtherChain(s, g, i, ls);
    } else {
      AnnounceChain(s, g, i, ls);
    }
  }

  /** `ListingChain` where the first line announces nothing: the gap runs on past it. */
  lemma {:induction false} OtherChain(s: string, g: nat, i: nat, ls: seq<ListingLine>)
    requires |ls| > 0 && ls[0].Other?
    requires forall k :: 0 <= k < |ls| ==> WellFormedLine(ls[k])
    requires g <= i <= |s| && ListingAt(s, i, ls)
    requires forall j :: g <= j < i ==> NoAltAt(ExitAddressRule, s, j)
    ensures MatchChain(ExitAddressRule, s, g, Announced(ls), ListingCaptures(i, ls))
    decreases |ls|, 0
  {
    var next := i + |LineText(ls[0])|;
    assert WellFormedLine(ls[0]);
    OtherStep(i, ls);
    SegmentHasNoKeyword(s, i, ls[0].text);
    ListingChain(s, g, next, ls[1..]);
  }

  /** `ListingChain` where the first line announces an address: its match heads the chain. */
  lemma {:induction false} AnnounceChain(s: string, g: nat, i: nat, ls: seq<ListingLine>)
    requires |ls| > 0 && ls[0].Announce?
    requires forall k :: 0 <= k < |ls| ==> WellFormedLine(ls[k])
    requires g <= i <= |s| && ListingAt(s, i, ls)
    requires forall j :: g <= j < i ==> NoAltAt(ExitAddressRule, s, j)
    ensures MatchChain(ExitAddressRule, s, g, Announced(ls), ListingCaptures(i, ls))
    decreases |ls|, 0
  {
    var ip := ls[0].ip;
    var next := i + |LineText(ls[0])|;
    var c := Capture(i, 0, i + 12, i + 12 + |ip|);
    assert WellFormedLine(ls[0]);
    AnnounceStep(i, ls);
    AnnounceLayout(s, i, ip, ls[0].rest);
    MatchAcrossGap(s, g, i, c);
    ListingChain(s, c.to, next, ls[1..]);
    ChainCons(ExitAddressRule, s, g, c, ip, Announced(ls[1..]), ListingCaptures(next, ls[1..]));
  }

  /** Past the end of the text, `ExitAddress` matches nowhere. */
  lemma NoMatchAtEnd(s: string)
    ensures forall j :: |s| <= j <= |s| ==> !MatchesAt(ExitAddressRule, s, j)
  {
  }

  /** Parsing a listing of well-formed lines recovers exactly the announced addresses, in order. */
  lemma ParseListing(ls: seq<ListingLine>)
    requires forall k :: 0 <= k < |ls| ==> WellFormedLine(ls[k])
    ensures ParseExitList(Listing(ls)) == Announced(ls)
  {
    var s := Listing(ls);
    ListingLies(s, 0, ls);
    ListingChain(s, 0, 0, ls);
    ScanAllChain(ExitAddressRule, s, 0, Announced(ls), ListingCaptures(0, ls));
  }

  /** Listing lines, concatenated, announce the addresses of the first part, then those of the second. */
  lemma {:induction false} AnnouncedAppend(a: seq<ListingLine>, b: seq<ListingLine>)
    ensures Announced(a + b) == Announced(a) + Announced(b)
    decreases |a|
  {
    if |a| > 0 {
      assert (a + b)[0] == a[0];
      assert (a + b)[1..] == a[1..] + b;
      AnnouncedAppend(a[1..], b);
      var h := if a[0].Announce? then [a[0].ip] else [];
      assert Announced(a + b) == h + (Announced(a[1..]) + Announced(b));
      assert Announced(a) == h + Announced(a[1..]);
      assert h + (Announced(a[1..]) + Announced(b)) == (h + Announced(a[1..])) + Announced(b);
    } else {
      assert a + b == b;
    }
  }

  // ---------------------------------------------------------------- the published exit list

  /** An address of a record, with the time it was seen. */
  datatype Exit = Exit(address: string, seen: string)

  /**
   * A record of the published exit list: an `ExitNode <fingerprint>` line, a
   * `Published <time>` line, a `LastStatus <time>` line, then one
   * `ExitAddress <address> <time>` line per address.
   */
  datatype ExitRecord = ExitRecord(fingerprint: string, published: string, lastStatus: string, exits: seq<Exit>)

  /** The fields of a record say `ExitAddress` nowhere, and its addresses are address tokens. */
  ghost predicate WellFormedRecord(r: ExitRecord) {
    && NoKeyword(r.fingerprint) && NoKeyword(r.published) && NoKeyword(r.lastStatus)
    && forall k :: 0 <= k < |r.exits| ==> IsAddressToken(r.exits[k].address) && NoKeyword(r.exits[k].seen)
  }

  function ExitLines(es: seq<Exit>): (ls: seq<ListingLine>)
    ensures |ls| == |es|
  {
    if |es| == 0 then [] else [Announce(es[0].address, " " + es[0].seen)] + ExitLines(es[1..])
  }

  function RecordLines(r: ExitRecord): seq<ListingLine> {
    [Other("ExitNode " + r.fingerprint), Other("Published " + r.published), Other("LastStatus " + r.lastStatus)]
      + ExitLines(r.exits)
  }

  /** The lines of a sequence of records, record after record. */
  function RecordsLines(rs: seq<ExitRecord>): seq<ListingLine> {
    if |rs| == 0 then [] else RecordLines(rs[0]) + RecordsLines(rs[1..])
  }

  function ExitAddresses(es: seq<Exit>): (ips: seq<string>)
    ensures |ips| == |es|
  {
    if |es| == 0 then [] else [es[0].address] + ExitAddresses(es[1..])
  }

  /** Every address of the records, record after record. */
  function Addresses(rs: seq<ExitRecord>): seq<string> {
    if |rs| == 0 then [] else ExitAddresses(rs[0].exits) + Addresses(rs[1..])
  }

  /**
   * A prefix that could only begin the keyword at its first character, and does not there,
   * keeps a text without the keyword free of it.
   */
  lemma PrefixKeepsNoKeyword(p: string, t: string)
    requires NoKeyword(t) && |p| > 0
    requires forall x :: 0 < x < |p| ==> p[x] != 'E'
    requires p[0] != 'E' || (|p| > 4 && p[4] != 'A')
    ensures NoKeyword(p + t)
  {
    var u := p + t;
    assert Keyword[0] == 'E' && Keyword[4] == 'A';
    assert forall x :: 0 <= x < |t| ==> u[|p| + x] == t[x];
    forall j ensures !SpelledAt(u, j, Keyword) {
      if j >= |p| && j + |Keyword| <= |u| {
        assert !SpelledAt(t, j - |p|, Keyword);
      } else if 0 < j < |p| {
        assert u[j] == p[j];
      } else if j == 0 && |p| > 4 && p[0] == 'E' {
        assert u[4] == p[4];
      } else if j == 0 {
        assert u[0] == p[0];
      }
    }
  }

  /** The record's line prefixes keep keyword-free fields keyword-free. */
  lemma RecordPrefixes(t: string)
    requires NoKeyword(t)
    ensures NoKeyword("ExitNode " + t) && NoKeyword("Published " + t)
    ensures NoKeyword("LastStatus " + t) && NoKeyword(" " + t)
  {
    PrefixKeepsNoKeyword("ExitNode ", t);
    PrefixKeepsNoKeyword("Published ", t);
    PrefixKeepsNoKeyword("LastStatus ", t);
    PrefixKeepsNoKeyword(" ", t);
  }

  /** The address lines of a well-formed record are well formed, and announce its addresses. */
  lemma {:induction false} ExitLinesWellFormed(es: seq<Exit>)
    requires forall k :: 0 <= k < |es| ==> IsAddressToken(es[k].address) && NoKeyword(es[k].seen)
    ensures forall k :: 0 <= k < |es| ==> WellFormedLine(ExitLines(es)[k])
    ensures Announced(ExitLines(es)) == ExitAddresses(es)
    decreases |es|
  {
    if |es| > 0 {
      RecordPrefixes(es[0].seen);
      ExitLinesWellFormed(es[1..]);
      assert ExitLines(es)[1..] == ExitLines(es[1..]);
    }
  }

  /** The lines of a well-formed record are well formed, and announce exactly its addresses. */
  lemma RecordLinesWellFormed(r: ExitRecord)
    requires WellFormedRecord(r)
    ensures forall k :: 0 <= k < |RecordLines(r)| ==> WellFormedLine(RecordLines(r)[k])
    ensures Announced(RecordLines(r)) == ExitAddresses(r.exits)
  {
    RecordPrefixes(r.fingerprint);
    RecordPrefixes(r.published);
    RecordPrefixes(r.lastStatus);
    ExitLinesWellFormed(r.exits);
    var head := [Other("ExitNode " + r.fingerprint), Other("Published " + r.published), Other("LastStatus " + r.lastStatus)];
    AnnouncedAppend(head, ExitLines(r.exits));
    assert Announced(head[2..]) == [] && head[2..][1..] == [];
    assert Announced(head[1..]) == [] && head[1..][1..] == head[2..];
    assert Announced(head) == [];
  }

  /** The lines of well-formed records are well formed, and announce exactly their addresses. */
  lemma {:induction false} RecordsLinesWellFormed(rs: seq<ExitRecord>)
    requires forall k :: 0 <= k < |rs| ==> WellFormedRecord(rs[k])
    ensures forall k :: 0 <= k < |RecordsLines(rs)| ==> WellFormedLine(RecordsLines(rs)[k])
    ensures Announced(RecordsLines(rs)) == Addresses(rs)
    decreases |rs|
  {
    if |rs| > 0 {
      RecordLinesWellFormed(rs[0]);
      RecordsLinesWellFormed(rs[1..]);
      AnnouncedAppend(RecordLines(rs[0]), RecordsLines(rs[1..]));
    }
  }

  /** Parsing the published exit list recovers every address of every record, in order. */
  lemma ParseRecords(rs: seq<ExitRecord>)
    requires forall k :: 0 <= k < |rs| ==> WellFormedRecord(rs[k])
    ensures ParseExitList(Listing(RecordsLines(rs))) == Addresses(rs)
  {
    RecordsLinesWellFormed(rs);
    ParseListing(RecordsLines(rs));
  }

  /** With detection on and a successful fetch of the published list, an address is Tor exactly when a record lists it. */
  lemma IsTorOnListing(rs: seq<ExitRecord>, ip: string)
    requires forall k :: 0 <= k < |rs| ==> WellFormedRecord(rs[k])
    ensures IsTor(true, ExitNodes(Response(true, Listing(RecordsLines(rs)))), ip) <==> ip in Addresses(rs)
  {
    ParseRecords(rs);
  }

  /** Disabled detection, or a failed or unsuccessful fetch, makes no address Tor. */
  lemma IsTorDegrades(f: Fetch, enabled: bool, ip: string)
    ensures !enabled ==> !IsTor(enabled, ExitNodes(f), ip)
    ensures !(f.Response? && f.successful) ==> !IsTor(enabled, ExitNodes(f), ip)
  {
  }
}
