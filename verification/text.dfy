/**
 * The PHP string primitives the detector relies on, over `string` = `seq<char>`:
 * ASCII-only `strtolower`/`strtoupper`/`ucfirst`, `str_contains`, `str_replace` of one
 * character by nothing, `trim` with the default and with an explicit character list,
 * `empty`, and the `\s` class of the regular-expression engine.
 */
module Text {

  predicate IsAsciiUpper(c: char) { 'A' <= c <= 'Z' }

  predicate IsAsciiLower(c: char) { 'a' <= c <= 'z' }

  predicate IsDigit(c: char) { '0' <= c <= '9' }

  /** `\s` of the regular-expression engine in its default tables: space and the codes 9 to 13. */
  predicate IsRegexSpace(c: char) { c == ' ' || 9 <= c as int <= 13 }

  /** The characters `trim` drops by default: space, tab, line feed, carriage return, NUL, vertical tab. */
  predicate IsTrimSpace(c: char) {
    c == ' ' || c as int == 0 || c as int == 9 || c as int == 10 || c as int == 11 || c as int == 13
  }

  function LowerChar(c: char): char {
    if IsAsciiUpper(c) then (c as int + 32) as char else c
  }

  function UpperChar(c: char): char {
    if IsAsciiLower(c) then (c as int - 32) as char else c
  }

  /** No ASCII capital letter anywhere in `s`. */
  predicate IsLowered(s: string) {
    forall k :: 0 <= k < |s| ==> !IsAsciiUpper(s[k])
  }

  /** `strtolower`: ASCII letters only, every other character kept. */
  function Lower(s: string): (r: string)
    ensures |r| == |s|
    ensures forall k :: 0 <= k < |s| ==> r[k] == LowerChar(s[k])
    ensures IsLowered(r)
  {
    seq(|s|, k requires 0 <= k < |s| => LowerChar(s[k]))
  }

  /** `strtoupper`: ASCII letters only. */
  function Upper(s: string): (r: string)
    ensures |r| == |s|
    ensures forall k :: 0 <= k < |s| ==> r[k] == UpperChar(s[k])
  {
    seq(|s|, k requires 0 <= k < |s| => UpperChar(s[k]))
  }

  /** `ucfirst`: the first character upper-cased, the rest untouched. */
  function UcFirst(s: string): (r: string)
    ensures |r| == |s|
    ensures |s| > 0 ==> r[0] == UpperChar(s[0]) && r[1..] == s[1..]
  {
    if |s| == 0 then s else [UpperChar(s[0])] + s[1..]
  }

  /** Lower-casing twice is lower-casing once, and a lowered string is its own lowering. */
  lemma LowerIdempotent(s: string)
    ensures Lower(Lower(s)) == Lower(s)
    ensures IsLowered(s) ==> Lower(s) == s
  {
  }

  /** PHP's `empty` on a string: only `""` and `"0"` are empty, so a lone zero counts as absent. */
  predicate IsPhpEmpty(s: string): (r: bool)
    ensures r <==> |s| <= 1 && forall k :: 0 <= k < |s| ==> s[k] == '0'
  {
    s == "" || s == "0"
  }

  /** `w` occurs in `s` starting at index `i`. */
  predicate StartsAt(s: string, i: int, w: string) {
    0 <= i && i + |w| <= |s| && s[i..i + |w|] == w
  }

  /** `str_contains(s, w)`. */
  predicate Contains(s: string, w: string) {
    exists i :: 0 <= i <= |s| - |w| && StartsAt(s, i, w)
  }

  /** `str_replace(c, '', s)` for a single character `c`. */
  function Without(s: string, c: char): (r: string)
    ensures c !in r
    ensures forall x :: x in r ==> x in s
    ensures forall x :: x in s && x != c ==> x in r
  {
    if |s| == 0 then []
    else (if s[0] == c then [] else [s[0]]) + Without(s[1..], c)
  }

  /** Removing a character distributes over concatenation. */
  lemma {:induction false} WithoutAppend(a: string, b: string, c: char)
    ensures Without(a + b, c) == Without(a, c) + Without(b, c)
    decreases |a|
  {
    if |a| > 0 {
      assert (a + b)[1..] == a[1..] + b;
      WithoutAppend(a[1..], b, c);
    } else {
      assert a + b == b;
    }
  }

  /** Removing a character from a string that starts with it drops that first character. */
  lemma WithoutSkip(c: char, s: string)
    ensures Without([c] + s, c) == Without(s, c)
  {
    assert ([c] + s)[1..] == s;
  }

  /** Removing a character that does not occur changes nothing. */
  lemma {:induction false} WithoutAbsent(s: string, c: char)
    requires c !in s
    ensures Without(s, c) == s
    decreases |s|
  {
    if |s| > 0 {
      assert c !in s[1..];
      WithoutAbsent(s[1..], c);
      assert [s[0]] + s[1..] == s;
    }
  }

  /** Lower-casing distributes over concatenation. */
  lemma LowerAppend(a: string, b: string)
    ensures Lower(a + b) == Lower(a) + Lower(b)
  {
  }

  /** `str_replace(from, to, s)` for single characters. */
  function Replace(s: string, from: char, to: char): (r: string)
    ensures |r| == |s|
    ensures forall k :: 0 <= k < |s| ==> r[k] == (if s[k] == from then to else s[k])
  {
    seq(|s|, k requires 0 <= k < |s| => if s[k] == from then to else s[k])
  }

  /** The end of the longest run of characters satisfying `p` that starts at `i`. */
  function RunEnd(s: string, i: nat, p: char -> bool): (j: nat)
    requires i <= |s|
    ensures i <= j <= |s|
    ensures forall k :: i <= k < j ==> p(s[k])
    ensures j == |s| || !p(s[j])
    decreases |s| - i
  {
    if i < |s| && p(s[i]) then RunEnd(s, i + 1, p) else i
  }

  /** The start of the longest run of characters satisfying `p` that ends at `j`. */
  function RunStart(s: string, j: nat, p: char -> bool): (i: nat)
    requires j <= |s|
    ensures i <= j
    ensures forall k :: i <= k < j ==> p(s[k])
    ensures i == 0 || !p(s[i - 1])
    decreases j
  {
    if 0 < j && p(s[j - 1]) then RunStart(s, j - 1, p) else j
  }

  /** `trim(s, chars)`: drop every leading and trailing character for which `drop` holds. */
  function Trim(s: string, drop: char -> bool): string
  {
    var a := RunEnd(s, 0, drop);
    if a == |s| then "" else s[a..RunStart(s, |s|, drop)]
  }

  /** `t` is `s[a..]` cut off where only droppable characters follow, with droppable characters only before `a`. */
  ghost predicate TrimmedFrom(s: string, t: string, drop: char -> bool, a: int) {
    && 0 <= a && a + |t| <= |s| && s[a..a + |t|] == t
    && (forall k :: 0 <= k < a ==> drop(s[k]))
    && (forall k :: a + |t| <= k < |s| ==> drop(s[k]))
    && (|t| == 0 || (!drop(t[0]) && !drop(t[|t| - 1])))
  }

  /** `t` is what is left of `s` after dropping its maximal `drop` prefix and suffix. */
  ghost predicate IsTrimOf(s: string, t: string, drop: char -> bool) {
    exists a :: TrimmedFrom(s, t, drop, a)
  }

  /** `Trim` keeps exactly the middle of `s` between its maximal droppable prefix and suffix. */
  lemma TrimIsTrimOf(s: string, drop: char -> bool)
    ensures IsTrimOf(s, Trim(s, drop), drop)
  {
    var a := RunEnd(s, 0, drop);
    if a == |s| {
      assert TrimmedFrom(s, [], drop, a);
    } else {
      var b := RunStart(s, |s|, drop);
      assert !drop(s[a]);
      assert b > a;
      var t := s[a..b];
      assert s[a..a + |t|] == t;
      assert TrimmedFrom(s, t, drop, a);
    }
  }

  /** Trimming is idempotent. */
  lemma TrimIdempotent(s: string, drop: char -> bool)
    ensures Trim(Trim(s, drop), drop) == Trim(s, drop)
  {
    var t := Trim(s, drop);
    if |t| > 0 {
      TrimIsTrimOf(s, drop);
      var a :| TrimmedFrom(s, t, drop, a);
      assert !drop(t[0]) && !drop(t[|t| - 1]);
      assert RunEnd(t, 0, drop) == 0;
      assert RunStart(t, |t|, drop) == |t|;
    }
  }

  /** `trim(s)` with PHP's default character list. */
  function TrimSpaces(s: string): string {
    Trim(s, IsTrimSpace)
  }

  predicate IsQuote(c: char) { c == '"' }

  /** `trim(s, '"')`. */
  function TrimQuotes(s: string): string {
    Trim(s, IsQuote)
  }

  /** Quoting a value that neither starts nor ends with a quote, and trimming the quotes, gives it back. */
  lemma TrimQuotesUnquotes(x: string)
    requires |x| > 0 ==> x[0] != '"' && x[|x| - 1] != '"'
    ensures TrimQuotes("\"" + x + "\"") == x
  {
    var q := "\"" + x + "\"";
    var drop := IsQuote;
    assert drop(q[0]) && drop(q[|q| - 1]);
    if |x| == 0 {
      assert forall k :: 0 <= k < |q| ==> drop(q[k]);
      assert RunEnd(q, 0, drop) == |q|;
    } else {
      TrimIsTrimOf(q, drop);
      var t := TrimQuotes(q);
      var a :| TrimmedFrom(q, t, drop, a);
      assert !drop(q[1]) && !drop(q[|x|]);
      assert |t| > 0 && t[0] == q[a] && t[|t| - 1] == q[a + |t| - 1];
      assert a == 1 && a + |t| == |x| + 1;
      assert q[1..|x| + 1] == x;
    }
  }
}
