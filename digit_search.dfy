/**
 * The two regular expressions of the page scraper, both of the shape
 * "fixed six-character anchor, then a captured run of digits":
 *   `[?&]page=(\d+)`  (the page parameter of a pager link), and
 *   `/1887/(\d+)`     (the handle number of a publication link).
 * `re.search` returns the leftmost position where the whole pattern
 * matches; the greedy `\d+` then captures the maximal digit run.
 */
module DigitSearch {

  import opened Wrappers
  import opened Strings

  datatype Anchor = PageAnchor | HandleAnchor

  /** Both anchors, `[?&]page=` and `/1887/`, are six characters long. */
  const AnchorLength: nat := 6

  predicate AnchorAt(a: Anchor, s: string, i: nat)
  {
    i + AnchorLength <= |s| &&
    match a
    case PageAnchor => (s[i] == '?' || s[i] == '&') && s[i + 1..i + 6] == "page="
    case HandleAnchor => s[i..i + 6] == "/1887/"
  }

  /** The whole pattern matches at `i`: the anchor, then at least one digit. */
  predicate MatchAt(a: Anchor, s: string, i: nat)
  {
    AnchorAt(a, s, i) && i + AnchorLength < |s| && IsDigit(s[i + AnchorLength])
  }

  /** The leftmost match position at or after `from`. */
  function FirstMatchFrom(a: Anchor, s: string, from: nat): (r: Option<nat>)
    requires from <= |s|
    ensures r.Some? ==> from <= r.value < |s| && MatchAt(a, s, r.value)
                        && forall j :: from <= j < r.value ==> !MatchAt(a, s, j)
    ensures r.None? ==> forall j :: from <= j ==> !MatchAt(a, s, j)
    decreases |s| - from
  {
    if from == |s| then None
    else if MatchAt(a, s, from) then Some(from)
    else FirstMatchFrom(a, s, from + 1)
  }

  /** The maximal run of digits starting at `i` (greedy `\d*`). */
  function DigitRun(s: string, i: nat): (d: string)
    requires i <= |s|
    ensures i + |d| <= |s| && d == s[i..i + |d|] && AllDigits(d)
    ensures i + |d| == |s| || !IsDigit(s[i + |d|])
    decreases |s| - i
  {
    if i < |s| && IsDigit(s[i]) then [s[i]] + DigitRun(s, i + 1) else []
  }

  /**
   * `m = re.search(pattern, s); m.group(1) if m else None`: the digits
   * captured at the leftmost match, or None when nothing matches.
   */
  function SearchDigits(a: Anchor, s: string): (g: Option<string>)
    ensures g.None? <==> forall j :: 0 <= j ==> !MatchAt(a, s, j)
    ensures g.Some? ==> g.value != [] && AllDigits(g.value)
  {
    match FirstMatchFrom(a, s, 0)
    case None => None
    case Some(i) =>
      assert IsDigit(s[i + AnchorLength]);
      Some(DigitRun(s, i + AnchorLength))
  }

  /** When `i` is the leftmost match, the search captures the digit run after the anchor at `i`. */
  lemma SearchDigitsAt(a: Anchor, s: string, i: nat)
    requires MatchAt(a, s, i) && forall j :: 0 <= j < i ==> !MatchAt(a, s, j)
    ensures SearchDigits(a, s) == Some(DigitRun(s, i + AnchorLength))
  {
    var r := FirstMatchFrom(a, s, 0);
    assert r.Some? && r.value == i;
  }

  /** The captured digits are exactly the digits standing at the leftmost match, up to the first non-digit. */
  lemma {:induction false} DigitRunIsMaximal(s: string, i: nat, d: string)
    requires i + |d| <= |s| && s[i..i + |d|] == d && AllDigits(d)
    requires i + |d| == |s| || !IsDigit(s[i + |d|])
    ensures DigitRun(s, i) == d
    decreases |d|
  {
    if d != [] {
      assert s[i + 1..i + |d|] == d[1..];
      DigitRunIsMaximal(s, i + 1, d[1..]);
    }
  }
}
