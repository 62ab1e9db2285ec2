/**
 * `parse_silences`: a scan over the lines of ffmpeg's silencedetect log that
 * pairs each `silence_start` with the tagged line that follows it.
 *
 * The scan is a two-state machine. While no start is pending (awaiting start)
 * a tagged line with `silence_start: <numerals>` records the start. While a
 * start is pending (awaiting end) the next tagged line always emits a pair and
 * clears the state; the pair's end is the `silence_end: <numerals>` capture of
 * that line, or None when the line has none. Untagged lines are skipped.
 * Timestamps stay the captured text; their `float` conversion is not modelled.
 */
module SilenceParser {
  import opened Wrappers
  import opened TextSearch

  /** A timestamp as captured from the log, before conversion to a number. */
  type Token = string

  /** One parsed silence: its start, and its end when the closing line carried one. */
  type Silence = (Token, Option<Token>)

  /** Lines that do not contain this tag are skipped. */
  const Tag: string := "silencedetect"
  const StartMarker: string := "silence_start: "
  const EndMarker: string := "silence_end: "

  /** The scanner's state: the pending start (None while awaiting a start) and the pairs emitted so far. */
  datatype Scan = Scan(start: Option<Token>, out: seq<Silence>)

  predicate Tagged(line: string) {
    Contains(line, Tag)
  }

  /** One iteration of the scan loop. */
  function Step(s: Scan, line: string): Scan {
    if !Tagged(line) then s
    else match s.start
      case None =>
        (match Search(line, StartMarker)
         case Some(t) => Scan(Some(t), s.out)
         case None => s)
      case Some(t) => Scan(None, s.out + [(t, Search(line, EndMarker))])
  }

  /** The state after scanning `lines` from the initial state (no start pending, nothing emitted). */
  function ScanLines(lines: seq<string>): Scan
    decreases |lines|
  {
    if lines == [] then Scan(None, [])
    else Step(ScanLines(lines[..|lines| - 1]), lines[|lines| - 1])
  }

  /** What `parse_silences` returns for a log with these lines: a start still pending at the end is dropped. */
  function Parsed(lines: seq<string>): seq<Silence> {
    ScanLines(lines).out
  }

  /** The lines that carry the tag, in order. */
  function TaggedLines(lines: seq<string>): seq<string>
    decreases |lines|
  {
    if lines == [] then []
    else
      var init := TaggedLines(lines[..|lines| - 1]);
      if Tagged(lines[|lines| - 1]) then init + [lines[|lines| - 1]] else init
  }

  /** The scan loop of `parse_silences`, with the file already read into `lines`. */
  method ParseSilences(lines: seq<string>) returns (out: seq<Silence>)
    ensures out == Parsed(lines)
  {
    out := [];
    var start: Option<Token> := None;
    var end: Option<Token> := None;
    for i := 0 to |lines|
      invariant Scan(start, out) == ScanLines(lines[..i])
      invariant end.None?
    {
      assert lines[..i + 1][..i] == lines[..i];
      var line := lines[i];
      if !Contains(line, Tag) {
        continue;
      }
      if start.None? {
        var results := Search(line, StartMarker);
        if results.Some? {
          start := results;
        }
      } else {
        var results := Search(line, EndMarker);
        if results.Some? {
          end := results;
        }
        out := out + [(start.value, end)];
        start := None;
        end := None;
      }
    }
    assert lines[..|lines|] == lines;
  }

  /** Scanning one more line is one more step. */
  lemma {:induction false} ScanAppend(lines: seq<string>, line: string)
    ensures ScanLines(lines + [line]) == Step(ScanLines(lines), line)
  {
    assert (lines + [line])[..|lines|] == lines;
  }

  /** A line without the tag changes neither the pending start nor the output. */
  lemma {:induction false} UntaggedLineIgnored(lines: seq<string>, line: string)
    requires !Tagged(line)
    ensures ScanLines(lines + [line]) == ScanLines(lines)
  {
    ScanAppend(lines, line);
  }

  /**
   * Awaiting start, a tagged line never emits; the state moves to awaiting end
   * exactly when `silence_start: ` is followed by numerals, and then holds the capture.
   */
  lemma {:induction false} AwaitingStartTransition(lines: seq<string>, line: string)
    requires ScanLines(lines).start.None?
    requires Tagged(line)
    ensures ScanLines(lines + [line]).out == ScanLines(lines).out
    ensures ScanLines(lines + [line]).start == Search(line, StartMarker)
    ensures ScanLines(lines + [line]).start.Some? <==> exists i :: MatchesAt(line, StartMarker, i)
  {
    ScanAppend(lines, line);
    SearchSpec(line, StartMarker);
  }

  /** `silence_start: -0.5` does not match: the marker must be followed directly by a digit or a dot. */
  lemma NegativeStartDoesNotMatch()
    ensures Search("silence_start: -0.5", StartMarker).None?
  {
    var line := "silence_start: -0.5";
    forall i ensures !MatchesAt(line, StartMarker, i) {
      if i == 0 {
        assert line[15] == '-';
      } else if 1 <= i <= 4 {
        assert line[i] != 's' && StartMarker[0] == 's';
        assert line[i..i + |StartMarker|][0] == line[i];
      }
    }
    SearchSpec(line, StartMarker);
  }

  /**
   * Awaiting end, every tagged line emits exactly one pair and returns to
   * awaiting start; the pair's end is the `silence_end: ` capture, or None when there is none.
   */
  lemma {:induction false} AwaitingEndTransition(lines: seq<string>, line: string, t: Token)
    requires ScanLines(lines).start == Some(t)
    requires Tagged(line)
    ensures ScanLines(lines + [line]).start.None?
    ensures ScanLines(lines + [line]).out == ScanLines(lines).out + [(t, Search(line, EndMarker))]
    ensures ScanLines(lines + [line]).out[|ScanLines(lines).out|].1.None? <==>
              forall i :: !MatchesAt(line, EndMarker, i)
  {
    ScanAppend(lines, line);
    SearchSpec(line, EndMarker);
  }

  /** Only the tagged lines matter: dropping every untagged line leaves the scan unchanged. */
  lemma {:induction false} OnlyTaggedLinesMatter(lines: seq<string>)
    ensures ScanLines(TaggedLines(lines)) == ScanLines(lines)
    decreases |lines|
  {
    if lines != [] {
      var init, last := lines[..|lines| - 1], lines[|lines| - 1];
      OnlyTaggedLinesMatter(init);
      if Tagged(last) {
        ScanAppend(TaggedLines(init), last);
      }
    }
  }

  /** Lines after the last tagged one change nothing: a start they follow is discarded. */
  lemma {:induction false} UntaggedTailIgnored(lines: seq<string>, tail: seq<string>)
    requires forall k :: 0 <= k < |tail| ==> !Tagged(tail[k])
    ensures ScanLines(lines + tail) == ScanLines(lines)
    decreases |tail|
  {
    if tail != [] {
      var init := tail[..|tail| - 1];
      assert (lines + tail)[..|lines + tail| - 1] == lines + init;
      assert (lines + tail)[|lines + tail| - 1] == tail[|tail| - 1];
      UntaggedTailIgnored(lines, init);
    } else {
      assert lines + tail == lines;
    }
  }

  /** Each emitted pair consumes two tagged lines, and a pending start one more. */
  lemma {:induction false} PairCountBound(lines: seq<string>)
    ensures 2 * |Parsed(lines)| + (if ScanLines(lines).start.Some? then 1 else 0) <= |TaggedLines(lines)|
    decreases |lines|
  {
    if lines != [] {
      PairCountBound(lines[..|lines| - 1]);
    }
  }

  /** Both tokens of the pair are runs of digits and dots (the end when there is one). */
  predicate NumeralPair(p: Silence) {
    IsNumeralRun(p.0) && (p.1.Some? ==> IsNumeralRun(p.1.value))
  }

  /** Every captured token, start or end, is a non-empty run of digits and dots. */
  lemma {:induction false} TokensAreNumerals(lines: seq<string>)
    ensures ScanLines(lines).start.Some? ==> IsNumeralRun(ScanLines(lines).start.value)
    ensures forall k :: 0 <= k < |Parsed(lines)| ==> NumeralPair(Parsed(lines)[k])
    decreases |lines|
  {
    if lines != [] {
      var init, line := lines[..|lines| - 1], lines[|lines| - 1];
      TokensAreNumerals(init);
      SearchSpec(line, StartMarker);
      SearchSpec(line, EndMarker);
      var s := ScanLines(init);
      if Tagged(line) && s.start.Some? {
        var pair := (s.start.value, Search(line, EndMarker));
        assert Parsed(lines) == Parsed(init) + [pair];
        assert NumeralPair(pair);
      } else {
        assert Parsed(lines) == Parsed(init);
      }
    }
  }

  /** Lines `2k` and `2k + 1` are a tagged start line and a tagged end line carrying pair `k`. */
  predicate PairLines(lines: seq<string>, pairs: seq<(Token, Token)>, k: int)
    requires 0 <= k < |pairs| && |lines| == 2 * |pairs|
  {
    Tagged(lines[2 * k]) && Search(lines[2 * k], StartMarker) == Some(pairs[k].0) &&
    Tagged(lines[2 * k + 1]) && Search(lines[2 * k + 1], EndMarker) == Some(pairs[k].1)
  }

  /** The silences a log of well-formed start/end pairs describes, in order. */
  function Closed(pairs: seq<(Token, Token)>): seq<Silence> {
    seq(|pairs|, k requires 0 <= k < |pairs| => (pairs[k].0, Some(pairs[k].1)))
  }

  /** Scanning two more lines is two more steps. */
  lemma {:induction false} ScanAppendTwo(lines: seq<string>)
    requires |lines| >= 2
    ensures ScanLines(lines) ==
              Step(Step(ScanLines(lines[..|lines| - 2]), lines[|lines| - 2]), lines[|lines| - 1])
  {
    assert lines[..|lines| - 1][..|lines| - 2] == lines[..|lines| - 2];
  }

  lemma ClosedAppend(pairs: seq<(Token, Token)>)
    requires pairs != []
    ensures Closed(pairs) == Closed(pairs[..|pairs| - 1]) + [(pairs[|pairs| - 1].0, Some(pairs[|pairs| - 1].1))]
  {
  }

  /** A start line followed by an end line, from awaiting start, emits their pair and awaits a start again. */
  lemma StartThenEnd(s: Scan, a: string, b: string, pair: (Token, Token))
    requires s.start.None?
    requires Tagged(a) && Search(a, StartMarker) == Some(pair.0)
    requires Tagged(b) && Search(b, EndMarker) == Some(pair.1)
    ensures Step(Step(s, a), b) == Scan(None, s.out + [(pair.0, Some(pair.1))])
  {
  }

  /** All pairs but the last, with all lines but the last two, are still well-formed. */
  lemma PairLinesInit(lines: seq<string>, pairs: seq<(Token, Token)>, front: seq<string>, init: seq<(Token, Token)>)
    requires |lines| == 2 * |pairs| && pairs != []
    requires front == lines[..|lines| - 2] && init == pairs[..|pairs| - 1]
    requires forall k :: 0 <= k < |pairs| ==> PairLines(lines, pairs, k)
    ensures forall k :: 0 <= k < |init| ==> PairLines(front, init, k)
  {
    var n := |pairs| - 1;
    forall k | 0 <= k < n ensures PairLines(front, init, k) {
      assert PairLines(lines, pairs, k);
      assert front[2 * k] == lines[2 * k] && front[2 * k + 1] == lines[2 * k + 1];
    }
  }

  /** N alternating well-formed start and end lines yield exactly those N pairs, in line order. */
  lemma {:induction false} WellFormedPairsParsed(lines: seq<string>, pairs: seq<(Token, Token)>)
    requires |lines| == 2 * |pairs|
    requires forall k :: 0 <= k < |pairs| ==> PairLines(lines, pairs, k)
    ensures ScanLines(lines) == Scan(None, Closed(pairs))
    decreases |pairs|
  {
    if pairs != [] {
      var n := |pairs| - 1;
      var front := lines[..2 * n];
      PairLinesInit(lines, pairs, front, pairs[..n]);
      WellFormedPairsParsed(front, pairs[..n]);
      assert PairLines(lines, pairs, n);
      ScanAppendTwo(lines);
      StartThenEnd(ScanLines(front), lines[2 * n], lines[2 * n + 1], pairs[n]);
      ClosedAppend(pairs);
    }
  }

  /**
   * The same for a real log, where ffmpeg's other output surrounds the tagged
   * lines: if the tagged lines alternate start and end, their pairs are parsed in order.
   */
  lemma {:induction false} WellFormedLogParsed(lines: seq<string>, pairs: seq<(Token, Token)>)
    requires |TaggedLines(lines)| == 2 * |pairs|
    requires forall k :: 0 <= k < |pairs| ==> PairLines(TaggedLines(lines), pairs, k)
    ensures Parsed(lines) == Closed(pairs)
  {
    OnlyTaggedLinesMatter(lines);
    WellFormedPairsParsed(TaggedLines(lines), pairs);
  }
}
