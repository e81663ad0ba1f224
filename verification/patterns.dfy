/**
 * The boolean `preg_match` of the detector's classification patterns. Every one of them
 * (robots, browsers, platforms, mobile and tablet keywords, brand triggers) has the shape
 *
 *     A1 .* A2 .* ... .* An        (unanchored)
 *
 * where each `Ai` is an alternation of literals whose atoms are a character, `\s` or
 * `[\s-]`. Most have a single part (`/mobile|android|iphone/`); the Windows 11 and iPadOS
 * rules have several. `.` does not match a line feed, so the gaps stay within one line.
 *
 * The case-insensitive `/i` flag is not modelled here: the user agent is lower-cased
 * before any pattern sees it, and every `/i` pattern is written in lower case, so exact
 * and case-insensitive comparison agree on it.
 *
 * `Matches` is the executable backtracking search; `Occurs` is the declarative meaning
 * (there are positions where the parts occur in order); `MatchesIffOccurs` proves them equal.
 */
module Patterns {
  import opened Text

  datatype Atom = Char(c: char) | Space | SpaceOrDash

  predicate Admits(a: Atom, c: char) {
    match a
    case Char(x) => c == x
    case Space => IsRegexSpace(c)
    case SpaceOrDash => IsRegexSpace(c) || c == '-'
  }

  type Literal = seq<Atom>

  /** One `(l1|l2|...)` group. */
  type Alternation = seq<Literal>

  /** `parts[0] .* parts[1] .* ...`; the empty pattern matches everything. */
  datatype Pattern = Pattern(parts: seq<Alternation>)

  /** The literal spelled by `w`, character by character. */
  function Lit(w: string): (l: Literal)
    ensures |l| == |w|
  {
    seq(|w|, k requires 0 <= k < |w| => Char(w[k]))
  }

  /** `/w1|w2|.../`: an alternation of plain words. */
  function AnyOf(words: seq<string>): Pattern {
    Pattern([seq(|words|, k requires 0 <= k < |words| => Lit(words[k]))])
  }

  /** Literal `l` occurs in `s` at index `i`. */
  predicate OccursAt(l: Literal, s: string, i: nat) {
    i + |l| <= |s| && forall k :: 0 <= k < |l| ==> Admits(l[k], s[i + k])
  }

  lemma OccursAtLit(w: string, s: string, i: nat)
    ensures OccursAt(Lit(w), s, i) <==> StartsAt(s, i, w)
  {
    if OccursAt(Lit(w), s, i) {
      assert forall k :: 0 <= k < |w| ==> s[i..i + |w|][k] == w[k] by {
        forall k | 0 <= k < |w| ensures s[i..i + |w|][k] == w[k] {
          assert Admits(Lit(w)[k], s[i + k]);
        }
      }
    }
  }

  // ---------------------------------------------------------------- the search

  /** Alternative `alts[a]` or a later one occurs at `j`, and `rest` can follow it. */
  predicate AltAt(alts: Alternation, rest: seq<Alternation>, s: string, j: nat, a: nat)
    decreases |rest| + 1, 0, 0, |alts| - a
  {
    a < |alts| &&
    ((OccursAt(alts[a], s, j) && Follows(rest, s, j + |alts[a]|)) || AltAt(alts, rest, s, j, a + 1))
  }

  /** `.* parts[0] .* parts[1] ...` matches from `i` on, each `.*` staying within the line. */
  predicate Follows(parts: seq<Alternation>, s: string, i: nat)
    decreases |parts|, 2, 0, 0
  {
    |parts| == 0 || Gap(parts, s, i)
  }

  /** The first part begins at `j` or, skipping non-line-feed characters, further on. */
  predicate Gap(parts: seq<Alternation>, s: string, j: nat)
    requires |parts| > 0
    decreases |parts|, 1, |s| - j, 0
  {
    AltAt(parts[0], parts[1..], s, j, 0) || (j < |s| && s[j] != '\n' && Gap(parts, s, j + 1))
  }

  /** The pattern matches starting at some index `>= i` (an unanchored search). */
  predicate Anywhere(parts: seq<Alternation>, s: string, i: nat)
    requires |parts| > 0
    decreases |s| - i
  {
    AltAt(parts[0], parts[1..], s, i, 0) || (i < |s| && Anywhere(parts, s, i + 1))
  }

  /** `preg_match(p, s) === 1`. */
  predicate Matches(p: Pattern, s: string) {
    |p.parts| == 0 || Anywhere(p.parts, s, 0)
  }

  // ---------------------------------------------------------------- the meaning

  /** No line feed in `s[i..j]`. */
  ghost predicate SameLine(s: string, i: int, j: int) {
    0 <= i <= j <= |s| && forall k :: i <= k < j ==> s[k] != '\n'
  }

  /** Alternative `a` of the first part occurs at `j` and the remaining parts follow it. */
  ghost predicate Step(parts: seq<Alternation>, s: string, j: nat, a: int)
    requires |parts| > 0
    decreases |parts|, 0
  {
    0 <= a < |parts[0]| && OccursAt(parts[0][a], s, j) && Chain(parts[1..], s, j + |parts[0][a]|)
  }

  /** The parts occur in order at or after `i`, separated by line-feed-free gaps. */
  ghost predicate Chain(parts: seq<Alternation>, s: string, i: nat)
    decreases |parts|, 1
  {
    |parts| == 0 || exists j: nat, a :: SameLine(s, i, j) && Step(parts, s, j, a)
  }

  /** The pattern occurs somewhere in `s`. */
  ghost predicate Occurs(p: Pattern, s: string) {
    |p.parts| == 0 || exists i: nat, a :: Step(p.parts, s, i, a)
  }

  // ---------------------------------------------------------------- the proof

  lemma {:induction false} AltAtIff(alts: Alternation, rest: seq<Alternation>, s: string, j: nat, a: nat)
    ensures AltAt(alts, rest, s, j, a) <==>
      exists b :: a <= b < |alts| && OccursAt(alts[b], s, j) && Follows(rest, s, j + |alts[b]|)
    decreases |alts| - a
  {
    if a < |alts| {
      AltAtIff(alts, rest, s, j, a + 1);
    }
  }

  /** With the remaining parts already understood, the first part's search is `Step` at that index. */
  lemma AltAtIffStep(parts: seq<Alternation>, s: string, j: nat)
    requires |parts| > 0
    requires forall k: nat :: Follows(parts[1..], s, k) <==> Chain(parts[1..], s, k)
    ensures AltAt(parts[0], parts[1..], s, j, 0) ==> exists a :: Step(parts, s, j, a)
    ensures (exists a :: Step(parts, s, j, a)) ==> AltAt(parts[0], parts[1..], s, j, 0)
  {
    AltAtIff(parts[0], parts[1..], s, j, 0);
    if AltAt(parts[0], parts[1..], s, j, 0) {
      var b :| 0 <= b < |parts[0]| && OccursAt(parts[0][b], s, j) && Follows(parts[1..], s, j + |parts[0][b]|);
      assert Step(parts, s, j, b);
    }
    if exists a :: Step(parts, s, j, a) {
      var a :| Step(parts, s, j, a);
      assert Follows(parts[1..], s, j + |parts[0][a]|);
    }
  }

  lemma {:induction false} GapIff(parts: seq<Alternation>, s: string, j: nat)
    requires |parts| > 0
    requires forall k: nat :: Follows(parts[1..], s, k) <==> Chain(parts[1..], s, k)
    ensures Gap(parts, s, j) ==> exists j': nat, a :: SameLine(s, j, j') && Step(parts, s, j', a)
    ensures (exists j': nat, a :: SameLine(s, j, j') && Step(parts, s, j', a)) ==> Gap(parts, s, j)
    decreases |s| - j
  {
    AltAtIffStep(parts, s, j);
    if Gap(parts, s, j) {
      if AltAt(parts[0], parts[1..], s, j, 0) {
        var a :| Step(parts, s, j, a);
        assert SameLine(s, j, j);
      } else {
        GapIff(parts, s, j + 1);
        var j': nat, a :| SameLine(s, j + 1, j') && Step(parts, s, j', a);
        assert SameLine(s, j, j');
      }
    }
    if exists j': nat, a :: SameLine(s, j, j') && Step(parts, s, j', a) {
      var j': nat, a :| SameLine(s, j, j') && Step(parts, s, j', a);
      if j' > j {
        assert SameLine(s, j + 1, j');
        GapIff(parts, s, j + 1);
      }
    }
  }

  lemma {:induction false} FollowsIff(parts: seq<Alternation>, s: string, i: nat)
    ensures Follows(parts, s, i) <==> Chain(parts, s, i)
    decreases |parts|
  {
    if |parts| > 0 {
      forall k: nat ensures Follows(parts[1..], s, k) <==> Chain(parts[1..], s, k) {
        FollowsIff(parts[1..], s, k);
      }
      GapIff(parts, s, i);
    }
  }

  lemma {:induction false} AnywhereIff(parts: seq<Alternation>, s: string, i: nat)
    requires |parts| > 0
    ensures Anywhere(parts, s, i) ==> exists j: nat, a :: i <= j && Step(parts, s, j, a)
    ensures (exists j: nat, a :: i <= j && Step(parts, s, j, a)) ==> Anywhere(parts, s, i)
    decreases |s| - i
  {
    forall k: nat ensures Follows(parts[1..], s, k) <==> Chain(parts[1..], s, k) {
      FollowsIff(parts[1..], s, k);
    }
    AltAtIffStep(parts, s, i);
    if Anywhere(parts, s, i) {
      if !AltAt(parts[0], parts[1..], s, i, 0) {
        AnywhereIff(parts, s, i + 1);
      }
    }
    if exists j: nat, a :: i <= j && Step(parts, s, j, a) {
      var j: nat, a :| i <= j && Step(parts, s, j, a);
      if j > i {
        assert j + |parts[0][a]| <= |s|;
        AnywhereIff(parts, s, i + 1);
      }
    }
  }

  /** The backtracking search finds a match exactly when the pattern occurs. */
  lemma MatchesIffOccurs(p: Pattern, s: string)
    ensures Matches(p, s) <==> Occurs(p, s)
  {
    if |p.parts| > 0 {
      AnywhereIff(p.parts, s, 0);
    }
  }

  /** An alternation of words matches exactly when one of the words is a substring. */
  lemma MatchesAnyOf(words: seq<string>, s: string)
    ensures Matches(AnyOf(words), s) <==> exists k :: 0 <= k < |words| && Contains(s, words[k])
  {
    var p := AnyOf(words);
    MatchesIffOccurs(p, s);
    if Matches(p, s) {
      var i: nat, a :| Step(p.parts, s, i, a);
      OccursAtLit(words[a], s, i);
      assert StartsAt(s, i, words[a]);
    }
    if exists k :: 0 <= k < |words| && Contains(s, words[k]) {
      var k :| 0 <= k < |words| && Contains(s, words[k]);
      var i :| 0 <= i <= |s| - |words[k]| && StartsAt(s, i, words[k]);
      OccursAtLit(words[k], s, i);
      assert Step(p.parts, s, i, k);
    }
  }

  /** A one-word pattern matches exactly when the word is a substring. */
  lemma MatchesWord(w: string, s: string)
    ensures Matches(AnyOf([w]), s) <==> Contains(s, w)
  {
    MatchesAnyOf([w], s);
    assert [w][0] == w;
  }

  /** A one-word pattern occurs exactly when the word is a substring. */
  lemma OccursWord(w: string, s: string)
    ensures Occurs(AnyOf([w]), s) <==> Contains(s, w)
  {
    MatchesWord(w, s);
    MatchesIffOccurs(AnyOf([w]), s);
  }

  /** A pattern whose first alternatives are all non-empty occurs nowhere in the empty text. */
  lemma NothingOccursInEmpty(p: Pattern)
    requires |p.parts| > 0 && forall a :: 0 <= a < |p.parts[0]| ==> |p.parts[0][a]| > 0
    ensures !Occurs(p, "")
  {
    forall i: nat, a | 0 <= a < |p.parts[0]| ensures !OccursAt(p.parts[0][a], "", i) {
    }
  }
}
