/**
 * The capturing `preg_match` / `preg_match_all` calls of the detector. Each has the shape
 *
 *     (l1|l2|...) SEP ([C]+)
 *
 * where SEP is nothing, `\s*`, `\s+` or `[\s-]`, and C is `[a-z0-9]`, `[a-z0-9\s]`, `[0-9]`
 * or `[0-9\.]`. The engine reports the leftmost match; at a start index it tries the
 * alternatives in order; `\s*`/`\s+` are greedy and give characters back only when the
 * group could not otherwise start; the group is greedy and, being last, keeps its
 * whole run.
 *
 * `Find` is the search; `LeftmostGreedy` is the declarative description of the match
 * the engine reports, and `Find` is proved to return exactly that capture.
 */
module Captures {
  import opened Text
  import opened Maybe

  datatype Sep = Adjacent | AnySpaces | SomeSpaces | OneSpaceOrDash

  datatype Class = Alnum | AlnumOrSpace | Digits | DigitsOrDots

  predicate InClass(c: char, cls: Class) {
    match cls
    case Alnum => IsAsciiLower(c) || IsDigit(c)
    case AlnumOrSpace => IsAsciiLower(c) || IsDigit(c) || IsRegexSpace(c)
    case Digits => IsDigit(c)
    case DigitsOrDots => IsDigit(c) || c == '.'
  }

  /** A non-empty run of characters of one class: what a group `([C]+)` can capture. */
  predicate IsRun(g: string, cls: Class) {
    |g| > 0 && forall x :: 0 <= x < |g| ==> InClass(g[x], cls)
  }

  datatype CaptureRule = CaptureRule(alts: seq<string>, sep: Sep, cls: Class)

  /** A match of a rule: it starts at `start` with alternative `alt`; the group is `s[from..to]`. */
  datatype Capture = Capture(start: nat, alt: nat, from: nat, to: nat)

  /** The text `w` is spelled out in `s` from index `i` on, character by character. */
  predicate SpelledAt(s: string, i: int, w: string) {
    0 <= i && i + |w| <= |s| && forall k :: 0 <= k < |w| ==> s[i + k] == w[k]
  }

  /** Spelling `w` out at `i` is `w` starting at `i`. */
  lemma SpelledAtIff(s: string, i: int, w: string)
    ensures SpelledAt(s, i, w) <==> StartsAt(s, i, w)
  {
    if SpelledAt(s, i, w) {
      assert forall k :: 0 <= k < |w| ==> s[i..i + |w|][k] == w[k];
    }
    if StartsAt(s, i, w) {
      forall k | 0 <= k < |w| ensures s[i + k] == w[k] {
        assert s[i..i + |w|][k] == w[k];
      }
    }
  }

  // ---------------------------------------------------------------- the meaning

  ghost predicate AllSpaces(s: string, i: int, j: int) {
    0 <= i <= j <= |s| && forall k {:trigger IsRegexSpace(s[k])} :: i <= k < j ==> IsRegexSpace(s[k])
  }

  /** After an alternative ending at `k`, the separator can end, and the group begin, at `m`. */
  ghost predicate GroupStart(rule: CaptureRule, s: string, k: nat, m: int) {
    && 0 <= m < |s|
    && InClass(s[m], rule.cls)
    && match rule.sep
       case Adjacent => m == k
       case AnySpaces => k <= m && AllSpaces(s, k, m)
       case SomeSpaces => k < m && AllSpaces(s, k, m)
       case OneSpaceOrDash => m == k + 1 && (IsRegexSpace(s[k]) || s[k] == '-')
  }

  /**
   * The group the engine captures after an alternative ending at `k`: it begins at the
   * greatest possible index (the separator is greedy) and runs as far as the class allows.
   */
  ghost predicate Greedy(rule: CaptureRule, s: string, k: nat, from: int, to: int) {
    && GroupStart(rule, s, k, from)
    && (forall m :: GroupStart(rule, s, k, m) ==> m <= from)
    && from < to <= |s|
    && (forall x :: from <= x < to ==> InClass(s[x], rule.cls))
    && (to == |s| || !InClass(s[to], rule.cls))
  }

  /** Some group can follow an alternative ending at `k`. */
  ghost predicate HasGroup(rule: CaptureRule, s: string, k: nat) {
    exists m :: GroupStart(rule, s, k, m)
  }

  /** Alternative `b` occurs at `i` and a group can follow it. */
  ghost predicate AltWorks(rule: CaptureRule, s: string, i: int, b: int) {
    && 0 <= b < |rule.alts|
    && SpelledAt(s, i, rule.alts[b])
    && HasGroup(rule, s, i + |rule.alts[b]|)
  }

  /** The rule matches with its start at index `i`. */
  ghost predicate MatchesAt(rule: CaptureRule, s: string, i: int) {
    exists b :: AltWorks(rule, s, i, b)
  }

  /** At its start index, `c` uses the first alternative that works and the greedy group after it. */
  ghost predicate IsReported(rule: CaptureRule, s: string, i: int, c: Capture) {
    && AltWorks(rule, s, c.start, c.alt)
    && (forall b :: 0 <= b < c.alt ==> !AltWorks(rule, s, c.start, b))
    && Greedy(rule, s, c.start + |rule.alts[c.alt]|, c.from, c.to)
  }

  /** `c` is the match the engine reports when it searches from index `i` on. */
  ghost predicate LeftmostGreedy(rule: CaptureRule, s: string, i: int, c: Capture) {
    && i <= c.start
    && (forall j :: i <= j < c.start ==> !MatchesAt(rule, s, j))
    && IsReported(rule, s, i, c)
  }

  /** The description pins the capture down: there is at most one. */
  lemma LeftmostGreedyUnique(rule: CaptureRule, s: string, i: int, c: Capture, d: Capture)
    requires LeftmostGreedy(rule, s, i, c) && LeftmostGreedy(rule, s, i, d)
    ensures c == d
  {
    assert MatchesAt(rule, s, c.start) && MatchesAt(rule, s, d.start);
    assert c.start == d.start;
    assert c.alt == d.alt;
  }

  // ---------------------------------------------------------------- the search

  /** The end of the longest run of class characters that starts at `i`. */
  function ClassEnd(s: string, i: nat, cls: Class): (j: nat)
    requires i <= |s|
    ensures i <= j <= |s|
    ensures j == |s| || !InClass(s[j], cls)
    decreases |s| - i
  {
    if i < |s| && InClass(s[i], cls) then ClassEnd(s, i + 1, cls) else i
  }

  /** Every character the class run covers is in the class. */
  lemma {:induction false} ClassEndRun(s: string, i: nat, cls: Class)
    requires i <= |s|
    ensures forall k :: i <= k < ClassEnd(s, i, cls) ==> InClass(s[k], cls)
    decreases |s| - i
  {
    if i < |s| && InClass(s[i], cls) {
      ClassEndRun(s, i + 1, cls);
    }
  }

  /** The end of the longest run of `\s` characters that starts at `i`. */
  function SpaceEnd(s: string, i: nat): (j: nat)
    requires i <= |s|
    ensures i <= j <= |s|
    ensures j == |s| || !IsRegexSpace(s[j])
    decreases |s| - i
  {
    if i < |s| && IsRegexSpace(s[i]) then SpaceEnd(s, i + 1) else i
  }

  /** Every character the space run covers is a space. */
  lemma {:induction false} SpaceEndRun(s: string, i: nat)
    requires i <= |s|
    ensures AllSpaces(s, i, SpaceEnd(s, i))
    decreases |s| - i
  {
    if i < |s| && IsRegexSpace(s[i]) {
      SpaceEndRun(s, i + 1);
    }
  }

  /** Only `[a-z0-9\s]` admits spaces. */
  lemma SpaceInClass(c: char, d: char, cls: Class)
    requires IsRegexSpace(c) && InClass(c, cls) && IsRegexSpace(d)
    ensures InClass(d, cls)
  {
  }

  /** The group after an alternative ending at `k`, as `(from, to)`. */
  function GroupAt(rule: CaptureRule, s: string, k: nat): (g: Option<(nat, nat)>)
    requires k <= |s|
    ensures g.Some? ==> k <= g.value.0 < g.value.1 <= |s|
  {
    var cls := rule.cls;
    match rule.sep
    case Adjacent =>
      if k < |s| && InClass(s[k], cls) then Some((k, ClassEnd(s, k, cls))) else None
    case OneSpaceOrDash =>
      if k + 1 < |s| && (IsRegexSpace(s[k]) || s[k] == '-') && InClass(s[k + 1], cls)
      then Some((k + 1, ClassEnd(s, k + 1, cls)))
      else None
    case _ => SpacedGroupAt(rule, s, k)
  }

  /** `GroupAt` for the `\s*` and `\s+` separators. */
  function SpacedGroupAt(rule: CaptureRule, s: string, k: nat): (g: Option<(nat, nat)>)
    requires k <= |s|
    requires rule.sep == AnySpaces || rule.sep == SomeSpaces
    ensures g.Some? ==> k <= g.value.0 < g.value.1 <= |s|
  {
    var cls := rule.cls;
    var lo := if rule.sep == SomeSpaces then k + 1 else k;
    var e := SpaceEnd(s, k);
    if lo <= e < |s| && InClass(s[e], cls) then Some((e, ClassEnd(s, e, cls)))
    else if lo < e && InClass(s[e - 1], cls) then Some((e - 1, ClassEnd(s, e - 1, cls)))
    else None
  }

  /** A group cannot start past the end of the space run that follows `k`. */
  lemma GroupStartWithinSpaces(rule: CaptureRule, s: string, k: nat, e: nat)
    requires rule.sep == AnySpaces || rule.sep == SomeSpaces
    requires k <= e <= |s| && AllSpaces(s, k, e) && (e == |s| || !IsRegexSpace(s[e]))
    ensures forall m :: GroupStart(rule, s, k, m) ==> m <= e
  {
    forall m | GroupStart(rule, s, k, m) ensures m <= e {
      assert AllSpaces(s, k, m);
    }
  }

  /** `SpacedGroupAt` finds a group exactly when one can start, and then the greedy one. */
  lemma SpacedGroupAtMeaning(rule: CaptureRule, s: string, k: nat)
    requires k <= |s|
    requires rule.sep == AnySpaces || rule.sep == SomeSpaces
    ensures SpacedGroupAt(rule, s, k).None? ==> forall m :: !GroupStart(rule, s, k, m)
    ensures SpacedGroupAt(rule, s, k).Some? ==>
      Greedy(rule, s, k, SpacedGroupAt(rule, s, k).value.0, SpacedGroupAt(rule, s, k).value.1)
  {
    var cls := rule.cls;
    var lo := if rule.sep == SomeSpaces then k + 1 else k;
    var e := SpaceEnd(s, k);
    SpaceEndRun(s, k);
    GroupStartWithinSpaces(rule, s, k, e);
    if lo <= e < |s| && InClass(s[e], cls) {
      assert GroupStart(rule, s, k, e);
      ClassEndRun(s, e, cls);
    } else if lo < e && InClass(s[e - 1], cls) {
      assert AllSpaces(s, k, e - 1);
      assert GroupStart(rule, s, k, e - 1);
      ClassEndRun(s, e - 1, cls);
    } else {
      forall m | GroupStart(rule, s, k, m) ensures false {
        assert m < e;
        SpaceInClass(s[m], s[e - 1], cls);
      }
    }
  }

  /** `GroupAt` finds a group exactly when one can start, and then the greedy one. */
  lemma GroupAtMeaning(rule: CaptureRule, s: string, k: nat)
    requires k <= |s|
    ensures GroupAt(rule, s, k).None? ==> forall m :: !GroupStart(rule, s, k, m)
    ensures GroupAt(rule, s, k).Some? ==> Greedy(rule, s, k, GroupAt(rule, s, k).value.0, GroupAt(rule, s, k).value.1)
  {
    match rule.sep
    case Adjacent =>
      if k < |s| && InClass(s[k], rule.cls) {
        assert GroupStart(rule, s, k, k);
        ClassEndRun(s, k, rule.cls);
      }
    case OneSpaceOrDash =>
      if k + 1 < |s| && (IsRegexSpace(s[k]) || s[k] == '-') && InClass(s[k + 1], rule.cls) {
        assert GroupStart(rule, s, k, k + 1);
        ClassEndRun(s, k + 1, rule.cls);
      }
    case _ => SpacedGroupAtMeaning(rule, s, k);
  }

  /** The first alternative from `a` on that works at `i`, with its group. */
  function TryAt(rule: CaptureRule, s: string, i: nat, a: nat): (c: Option<Capture>)
    requires i <= |s|
    ensures c.Some? ==> c.value.start == i && a <= c.value.alt < |rule.alts|
    ensures c.Some? ==> i + |rule.alts[c.value.alt]| <= c.value.from < c.value.to <= |s|
    decreases |rule.alts| - a
  {
    if a >= |rule.alts| then None
    else
      var w := rule.alts[a];
      var g := if SpelledAt(s, i, w) then GroupAt(rule, s, i + |w|) else None;
      if g.Some? then Some(Capture(i, a, g.value.0, g.value.1))
      else TryAt(rule, s, i, a + 1)
  }

  /** Alternative `a` works at `i` exactly when it is spelled there and a group follows; the group found is the greedy one. */
  lemma AltMeaning(rule: CaptureRule, s: string, i: nat, a: nat)
    requires i <= |s| && a < |rule.alts|
    ensures !SpelledAt(s, i, rule.alts[a]) ==> !AltWorks(rule, s, i, a)
    ensures SpelledAt(s, i, rule.alts[a]) ==> var k := i + |rule.alts[a]|;
      && (GroupAt(rule, s, k).None? <==> !AltWorks(rule, s, i, a))
      && (GroupAt(rule, s, k).Some? ==> Greedy(rule, s, k, GroupAt(rule, s, k).value.0, GroupAt(rule, s, k).value.1))
  {
    var w := rule.alts[a];
    if SpelledAt(s, i, w) {
      GroupAtMeaning(rule, s, i + |w|);
      if GroupAt(rule, s, i + |w|).Some? {
        assert GroupStart(rule, s, i + |w|, GroupAt(rule, s, i + |w|).value.0);
      }
    }
  }

  /** With the alternatives before `a` known not to work, `TryAt` reports what the engine does at `i`. */
  lemma {:induction false} TryAtMeaning(rule: CaptureRule, s: string, i: nat, a: nat)
    requires i <= |s|
    requires forall b :: 0 <= b < a ==> !AltWorks(rule, s, i, b)
    ensures TryAt(rule, s, i, a).None? ==> forall b :: a <= b < |rule.alts| ==> !AltWorks(rule, s, i, b)
    ensures TryAt(rule, s, i, a).Some? ==> IsReported(rule, s, i, TryAt(rule, s, i, a).value)
    decreases |rule.alts| - a
  {
    if a < |rule.alts| {
      AltMeaning(rule, s, i, a);
      if !AltWorks(rule, s, i, a) {
        TryAtMeaning(rule, s, i, a + 1);
        assert TryAt(rule, s, i, a) == TryAt(rule, s, i, a + 1);
      } else {
        var g := GroupAt(rule, s, i + |rule.alts[a]|).value;
        assert TryAt(rule, s, i, a) == Some(Capture(i, a, g.0, g.1));
      }
    }
  }

  /** `preg_match(rule, s)` with the search starting at `i`: the first start index where an alternative works. */
  function Find(rule: CaptureRule, s: string, i: nat): (c: Option<Capture>)
    requires i <= |s|
    ensures c.Some? ==> i <= c.value.start && c.value.alt < |rule.alts|
    ensures c.Some? ==> c.value.start + |rule.alts[c.value.alt]| <= c.value.from < c.value.to <= |s|
    decreases |s| - i
  {
    match TryAt(rule, s, i, 0)
    case Some(c) => Some(c)
    case None => if i < |s| then Find(rule, s, i + 1) else None
  }

  /** The search reports the leftmost match with its greedy group, and nothing when there is no match. */
  lemma {:induction false} FindMeaning(rule: CaptureRule, s: string, i: nat)
    requires i <= |s|
    ensures Find(rule, s, i).None? ==> forall j :: i <= j <= |s| ==> !MatchesAt(rule, s, j)
    ensures Find(rule, s, i).Some? ==> LeftmostGreedy(rule, s, i, Find(rule, s, i).value)
    decreases |s| - i
  {
    TryAtMeaning(rule, s, i, 0);
    if TryAt(rule, s, i, 0).None? {
      assert !MatchesAt(rule, s, i);
      if i < |s| {
        FindMeaning(rule, s, i + 1);
      }
    }
  }

  /** The search reports a match exactly when the rule matches at some index from `i` on. */
  lemma FindSomeIffMatch(rule: CaptureRule, s: string, i: nat)
    requires i <= |s|
    ensures Find(rule, s, i).Some? <==> exists j :: i <= j <= |s| && MatchesAt(rule, s, j)
  {
    FindMeaning(rule, s, i);
    if Find(rule, s, i).Some? {
      var c := Find(rule, s, i).value;
      assert MatchesAt(rule, s, c.start);
    }
  }

  /** The matched alternative and the group's text. */
  function AltText(rule: CaptureRule, c: Capture): string
    requires c.alt < |rule.alts|
  {
    rule.alts[c.alt]
  }

  function Group(s: string, c: Capture): string
    requires c.from <= c.to <= |s|
  {
    s[c.from..c.to]
  }

  /** `preg_match_all(rule, s)[1]` from index `i` on: every group, each search resuming after the last match. */
  function ScanAll(rule: CaptureRule, s: string, i: nat): seq<string>
    requires i <= |s|
    decreases |s| - i
  {
    match Find(rule, s, i)
    case None => []
    case Some(c) => [Group(s, c)] + ScanAll(rule, s, c.to)
  }

  /** Every group the scan collects is a non-empty run of the rule's class. */
  lemma {:induction false} ScanAllRuns(rule: CaptureRule, s: string, i: nat)
    requires i <= |s|
    ensures forall k :: 0 <= k < |ScanAll(rule, s, i)| ==> IsRun(ScanAll(rule, s, i)[k], rule.cls)
    decreases |s| - i
  {
    FindMeaning(rule, s, i);
    match Find(rule, s, i)
    case None =>
    case Some(c) =>
      assert forall x :: 0 <= x < c.to - c.from ==> InClass(Group(s, c)[x], rule.cls);
      ScanAllRuns(rule, s, c.to);
  }

  /** When the search from `i` finds `c`, the scan yields its group and resumes at its end. */
  lemma ScanAllFound(rule: CaptureRule, s: string, i: nat, c: Capture)
    requires i <= |s| && c.from <= c.to <= |s|
    requires Find(rule, s, i) == Some(c)
    ensures ScanAll(rule, s, i) == [s[c.from..c.to]] + ScanAll(rule, s, c.to)
  {
  }

  /** No alternative of the rule begins at `k`. */
  predicate NoAltAt(rule: CaptureRule, s: string, k: int) {
    forall b :: 0 <= b < |rule.alts| ==> !SpelledAt(s, k, rule.alts[b])
  }

  /** When `c` is the match the engine reports from `i` and `g` its group, the scan yields `g` and resumes at the group's end. */
  lemma ScanAllStep(rule: CaptureRule, s: string, i: nat, c: Capture, g: string)
    requires i <= |s| && LeftmostGreedy(rule, s, i, c)
    requires c.from <= c.to <= |s| && g == s[c.from..c.to]
    ensures ScanAll(rule, s, i) == [g] + ScanAll(rule, s, c.to)
  {
    assert MatchesAt(rule, s, c.start);
    FindMeaning(rule, s, i);
    LeftmostGreedyUnique(rule, s, i, c, Find(rule, s, i).value);
    ScanAllFound(rule, s, i, c);
  }

  /**
   * `cs` are the matches a scan from `i` meets, in order, and `gs` their groups: each match
   * is the one the engine reports when searching from the end of the previous group, and
   * after the last group the rule matches nowhere.
   */
  ghost predicate MatchChain(rule: CaptureRule, s: string, i: nat, gs: seq<string>, cs: seq<Capture>)
    decreases |cs|
  {
    if |cs| == 0 then |gs| == 0 && forall j :: i <= j <= |s| ==> !MatchesAt(rule, s, j)
    else
      && |gs| > 0
      && LeftmostGreedy(rule, s, i, cs[0])
      && cs[0].from <= cs[0].to <= |s| && gs[0] == s[cs[0].from..cs[0].to]
      && MatchChain(rule, s, cs[0].to, gs[1..], cs[1..])
  }

  /** A reported match with group `g`, followed by a chain from its end, is a chain. */
  lemma ChainCons(rule: CaptureRule, s: string, i: nat, c: Capture, g: string, gs: seq<string>, cs: seq<Capture>)
    requires LeftmostGreedy(rule, s, i, c) && c.from <= c.to <= |s| && g == s[c.from..c.to]
    requires MatchChain(rule, s, c.to, gs, cs)
    ensures MatchChain(rule, s, i, [g] + gs, [c] + cs)
  {
    assert ([c] + cs)[1..] == cs;
    assert ([g] + gs)[1..] == gs;
  }

  /** Where the rule matches nowhere from `i` on, the scan collects nothing. */
  lemma ScanAllNothing(rule: CaptureRule, s: string, i: nat)
    requires i <= |s| && forall j :: i <= j <= |s| ==> !MatchesAt(rule, s, j)
    ensures ScanAll(rule, s, i) == []
  {
    FindSomeIffMatch(rule, s, i);
  }

  /** Along a chain of matches, the scan collects exactly the chain's groups. */
  lemma {:induction false} ScanAllChain(rule: CaptureRule, s: string, i: nat, gs: seq<string>, cs: seq<Capture>)
    requires i <= |s| && MatchChain(rule, s, i, gs, cs)
    ensures ScanAll(rule, s, i) == gs
    decreases |cs|
  {
    if |cs| == 0 {
      ScanAllNothing(rule, s, i);
    } else {
      var c := cs[0];
      ScanAllStep(rule, s, i, c, gs[0]);
      ScanAllChain(rule, s, c.to, gs[1..], cs[1..]);
      assert gs == [gs[0]] + gs[1..];
    }
  }

  /** The matches a scan from `i` meets, in order. */
  function ScanCaptures(rule: CaptureRule, s: string, i: nat): (cs: seq<Capture>)
    requires i <= |s|
    ensures |cs| == |ScanAll(rule, s, i)|
    decreases |s| - i
  {
    match Find(rule, s, i)
    case None => []
    case Some(c) => [c] + ScanCaptures(rule, s, c.to)
  }

  /** Whatever the text, the scan's groups are those of the chain of matches it meets. */
  lemma {:induction false} ScanAllIsChain(rule: CaptureRule, s: string, i: nat)
    requires i <= |s|
    ensures MatchChain(rule, s, i, ScanAll(rule, s, i), ScanCaptures(rule, s, i))
    decreases |s| - i
  {
    FindMeaning(rule, s, i);
    match Find(rule, s, i)
    case None =>
    case Some(c) =>
      ScanAllIsChain(rule, s, c.to);
      assert ScanCaptures(rule, s, i)[1..] == ScanCaptures(rule, s, c.to);
      assert ScanAll(rule, s, i)[1..] == ScanAll(rule, s, c.to);
  }

  /** `preg_match_all` collects `gs` exactly when `gs` are the groups of a chain of reported matches. */
  lemma ScanAllIffChain(rule: CaptureRule, s: string, i: nat, gs: seq<string>)
    requires i <= |s|
    ensures ScanAll(rule, s, i) == gs <==> exists cs :: MatchChain(rule, s, i, gs, cs)
  {
    ScanAllIsChain(rule, s, i);
    if ScanAll(rule, s, i) == gs {
      assert MatchChain(rule, s, i, gs, ScanCaptures(rule, s, i));
    }
    if exists cs :: MatchChain(rule, s, i, gs, cs) {
      var cs :| MatchChain(rule, s, i, gs, cs);
      ScanAllChain(rule, s, i, gs, cs);
    }
  }
}
