/**
 * The two text tests the silence scanner applies to a log line: the substring
 * test `tag in line` and `re.search(marker + "([0-9.]+)", line)`, of which only
 * the first group is used.
 */
module TextSearch {
  import opened Wrappers

  /** The regular-expression character class `[0-9.]`. */
  predicate IsNumeral(c: char) {
    '0' <= c <= '9' || c == '.'
  }

  /** Every character of `s` is in `[0-9.]` and there is at least one: what `[0-9.]+` captures. */
  predicate IsNumeralRun(s: string) {
    |s| > 0 && forall k :: 0 <= k < |s| ==> IsNumeral(s[k])
  }

  /** `sub` occurs in `s` beginning at index `i`. */
  predicate OccursAt(s: string, sub: string, i: int) {
    0 <= i && i + |sub| <= |s| && s[i..i + |sub|] == sub
  }

  /** Python's `sub in s`. */
  predicate Contains(s: string, sub: string) {
    exists i :: 0 <= i <= |s| - |sub| && OccursAt(s, sub, i)
  }

  /** The pattern `marker([0-9.]+)` matches at index `i`: the marker is there and a numeral follows it. */
  predicate MatchesAt(line: string, marker: string, i: int) {
    OccursAt(line, marker, i) && i + |marker| < |line| && IsNumeral(line[i + |marker|])
  }

  /** `i` is the leftmost index at which the pattern matches: where `re.search` reports its match. */
  predicate LeftmostMatch(line: string, marker: string, i: int) {
    MatchesAt(line, marker, i) && forall j :: 0 <= j < i ==> !MatchesAt(line, marker, j)
  }

  /** `tok` is what the greedy group `([0-9.]+)` captures after a match at `i`: the maximal run of numerals. */
  predicate CapturedAt(line: string, marker: string, i: int, tok: string) {
    0 <= i && i + |marker| + |tok| <= |line| &&
    IsNumeralRun(tok) && tok == line[i + |marker|..i + |marker| + |tok|] &&
    (i + |marker| + |tok| == |line| || !IsNumeral(line[i + |marker| + |tok|]))
  }

  /** Number of consecutive numerals in `s` from index `from` on. */
  function NumeralRun(s: string, from: nat): (n: nat)
    requires from <= |s|
    ensures from + n <= |s|
    ensures forall k :: from <= k < from + n ==> IsNumeral(s[k])
    ensures from + n == |s| || !IsNumeral(s[from + n])
    decreases |s| - from
  {
    if from == |s| || !IsNumeral(s[from]) then 0 else 1 + NumeralRun(s, from + 1)
  }

  /** The leftmost index at or after `from` where `marker([0-9.]+)` matches, if any. */
  function FirstMatch(line: string, marker: string, from: nat): (r: Option<nat>)
    ensures r.Some? ==> from <= r.value && MatchesAt(line, marker, r.value)
    ensures forall j :: from <= j && (r.None? || j < r.value) ==> !MatchesAt(line, marker, j)
    decreases |line| - from
  {
    if from + |marker| >= |line| then None
    else if MatchesAt(line, marker, from) then Some(from)
    else FirstMatch(line, marker, from + 1)
  }

  /**
   * `re.search(marker + "([0-9.]+)", line)`: the first group of the leftmost
   * match, or None when the marker is nowhere followed by a numeral.
   */
  function Search(line: string, marker: string): Option<string> {
    match FirstMatch(line, marker, 0)
    case None => None
    case Some(i) =>
      var from := i + |marker|;
      Some(line[from..from + NumeralRun(line, from)])
  }

  /**
   * Search yields a value exactly when the pattern matches somewhere, and the
   * value is the maximal run of numerals after the leftmost match.
   */
  lemma SearchSpec(line: string, marker: string)
    ensures Search(line, marker).None? <==> forall i :: !MatchesAt(line, marker, i)
    ensures Search(line, marker).Some? ==> IsNumeralRun(Search(line, marker).value)
    ensures Search(line, marker).Some? ==>
              exists i :: LeftmostMatch(line, marker, i) && CapturedAt(line, marker, i, Search(line, marker).value)
  {
    match FirstMatch(line, marker, 0)
    case None =>
    case Some(i) =>
      var from := i + |marker|;
      var tok := line[from..from + NumeralRun(line, from)];
      assert IsNumeral(line[from]);
      assert CapturedAt(line, marker, i, tok);
  }

  /** A capture is determined by its match position: the run is maximal, so it cannot stop early or late. */
  lemma {:induction false} CaptureUnique(line: string, marker: string, i: int, t1: string, t2: string)
    requires CapturedAt(line, marker, i, t1) && CapturedAt(line, marker, i, t2)
    ensures t1 == t2
  {
    var from := i + |marker|;
    forall k | from <= k < from + |t2| ensures IsNumeral(line[k]) {
      assert line[k] == t2[k - from];
    }
    forall k | from <= k < from + |t1| ensures IsNumeral(line[k]) {
      assert line[k] == t1[k - from];
    }
  }

  /**
   * Search finds exactly the token captured at the leftmost match: given any
   * leftmost match and its capture, Search returns that capture.
   */
  lemma {:induction false} SearchFindsLeftmost(line: string, marker: string, i: int, tok: string)
    requires LeftmostMatch(line, marker, i) && CapturedAt(line, marker, i, tok)
    ensures Search(line, marker) == Some(tok)
  {
    SearchSpec(line, marker);
    var r := Search(line, marker);
    assert r.Some?;
    var i' :| LeftmostMatch(line, marker, i') && CapturedAt(line, marker, i', r.value);
    assert i' == i;
    CaptureUnique(line, marker, i, tok, r.value);
  }
}
