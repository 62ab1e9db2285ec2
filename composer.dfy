/**
 * The interval part of `compose`: walking the silences with `previous_end`
 * (starting at 0) and keeping each gap `[previous_end, start]` that is not
 * empty, then the trailing gap `[previous_end, duration]`. Times are only
 * copied and compared with `!=`, so they are `real`s here; the clip for each
 * kept interval is left to the media library and is not modelled.
 */
module Composer {
  import FileNames

  type Time = real

  /** A silence `(start, end)` as the parser hands it on, or a kept non-silent segment. */
  type Interval = (Time, Time)

  /** The loop's state: `previous_end` and the segments kept so far. */
  datatype Walk = Walk(previousEnd: Time, clips: seq<Interval>)

  /** One iteration of the loop over the silences. */
  function WalkStep(w: Walk, silence: Interval): Walk {
    var (start, end) := silence;
    Walk(end, if w.previousEnd != start then w.clips + [(w.previousEnd, start)] else w.clips)
  }

  /** The state after the loop has walked `silences`, from `previous_end = 0` and no segments. */
  function WalkSilences(silences: seq<Interval>): (w: Walk)
    ensures |w.clips| <= |silences|
    decreases |silences|
  {
    if silences == [] then Walk(0.0, [])
    else WalkStep(WalkSilences(silences[..|silences| - 1]), silences[|silences| - 1])
  }

  /** The non-silent segments `compose` keeps, in order, for a video of length `duration`. */
  function Kept(silences: seq<Interval>, duration: Time): seq<Interval> {
    var w := WalkSilences(silences);
    if w.previousEnd != duration then w.clips + [(w.previousEnd, duration)] else w.clips
  }

  /**
   * `compose`: the output file name and the segments whose sub-clips are
   * concatenated into it. `duration` is the source video's duration as the
   * media library reports it.
   */
  method Compose(videofile: string, silences: seq<Interval>, duration: Time)
    returns (outname: string, clips: seq<Interval>)
    ensures clips == Kept(silences, duration)
    ensures FileNames.SplitExt(outname) ==
              (FileNames.SplitExt(videofile).0 + FileNames.RemovedSuffix, FileNames.SplitExt(videofile).1)
  {
    var (filename, fileExtension) := FileNames.SplitExt(videofile);
    clips := [];
    var previousEnd: Time := 0.0;
    for i := 0 to |silences|
      invariant Walk(previousEnd, clips) == WalkSilences(silences[..i])
    {
      assert silences[..i + 1][..i] == silences[..i];
      var (start, end) := silences[i];
      var nonSilenceStart, nonSilenceEnd := previousEnd, start;
      if nonSilenceStart != nonSilenceEnd {
        clips := clips + [(nonSilenceStart, nonSilenceEnd)];
      }
      previousEnd := end;
    }
    assert silences[..|silences|] == silences;
    var nonSilenceStart, nonSilenceEnd := previousEnd, duration;
    if nonSilenceStart != nonSilenceEnd {
      clips := clips + [(nonSilenceStart, nonSilenceEnd)];
    }
    outname := filename + FileNames.RemovedSuffix + fileExtension;
    FileNames.OutputNameKeepsExtension(videofile);
  }

  /** Walking one more silence is one more step. */
  lemma {:induction false} WalkAppend(silences: seq<Interval>, silence: Interval)
    ensures WalkSilences(silences + [silence]) == WalkStep(WalkSilences(silences), silence)
  {
    assert (silences + [silence])[..|silences|] == silences;
  }

  /** The end of the last silence walked, or 0 before the first. */
  function LastEnd(silences: seq<Interval>): Time {
    if silences == [] then 0.0 else silences[|silences| - 1].1
  }

  /** After the loop has processed silence `i`, `previous_end` is that silence's end. */
  lemma PreviousEndIsLastEnd(silences: seq<Interval>)
    ensures WalkSilences(silences).previousEnd == LastEnd(silences)
  {
  }

  /** At most one segment per silence, plus the trailing one. */
  lemma SegmentCountBound(silences: seq<Interval>, duration: Time)
    ensures |Kept(silences, duration)| <= |silences| + 1
  {
  }

  /**
   * The candidate gaps, defined independently of the loop: gap `k` runs from the
   * end of silence `k - 1` (0 for the first) to the start of silence `k`
   * (`duration` after the last).
   */
  function Gaps(silences: seq<Interval>, duration: Time): (r: seq<Interval>)
    ensures |r| == |silences| + 1
  {
    seq(|silences| + 1, k requires 0 <= k <= |silences| =>
      (if k == 0 then 0.0 else silences[k - 1].1, if k == |silences| then duration else silences[k].0))
  }

  /** `xs` without its empty intervals (those whose two ends are equal), order kept. */
  function DropEmpty(xs: seq<Interval>): seq<Interval>
    decreases |xs|
  {
    if xs == [] then []
    else
      var last := xs[|xs| - 1];
      DropEmpty(xs[..|xs| - 1]) + if last.0 != last.1 then [last] else []
  }

  lemma {:induction false} DropEmptyAppend(xs: seq<Interval>, x: Interval)
    ensures DropEmpty(xs + [x]) == DropEmpty(xs) + if x.0 != x.1 then [x] else []
  {
    assert (xs + [x])[..|xs|] == xs;
  }

  /** The gaps before each silence, as the loop sees them. */
  lemma {:induction false} WalkKeepsInnerGaps(silences: seq<Interval>)
    ensures WalkSilences(silences).clips == DropEmpty(Gaps(silences, 0.0)[..|silences|])
    decreases |silences|
  {
    if silences != [] {
      var n := |silences| - 1;
      var init := silences[..n];
      WalkKeepsInnerGaps(init);
      PreviousEndIsLastEnd(init);
      assert Gaps(silences, 0.0)[..n + 1] == Gaps(init, 0.0)[..n] + [(LastEnd(init), silences[n].0)];
      DropEmptyAppend(Gaps(init, 0.0)[..n], (LastEnd(init), silences[n].0));
    }
  }

  /**
   * The loop computes the non-empty candidate gaps in silence order: a gap is
   * kept exactly when its two ends differ.
   */
  lemma {:induction false} KeptIsNonEmptyGaps(silences: seq<Interval>, duration: Time)
    ensures Kept(silences, duration) == DropEmpty(Gaps(silences, duration))
  {
    var n := |silences|;
    WalkKeepsInnerGaps(silences);
    PreviousEndIsLastEnd(silences);
    assert Gaps(silences, duration)[..n] == Gaps(silences, 0.0)[..n];
    assert Gaps(silences, duration) == Gaps(silences, duration)[..n] + [(LastEnd(silences), duration)];
    DropEmptyAppend(Gaps(silences, duration)[..n], (LastEnd(silences), duration));
  }

  /** Total length of a list of intervals. */
  function TotalLength(xs: seq<Interval>): Time
    decreases |xs|
  {
    if xs == [] then 0.0 else TotalLength(xs[..|xs| - 1]) + (xs[|xs| - 1].1 - xs[|xs| - 1].0)
  }

  lemma {:induction false} TotalLengthAppend(xs: seq<Interval>, x: Interval)
    ensures TotalLength(xs + [x]) == TotalLength(xs) + (x.1 - x.0)
  {
    assert (xs + [x])[..|xs|] == xs;
  }

  lemma {:induction false} WalkLength(silences: seq<Interval>)
    ensures TotalLength(WalkSilences(silences).clips) == LastEnd(silences) - TotalLength(silences)
    decreases |silences|
  {
    if silences != [] {
      var n := |silences| - 1;
      var init := silences[..n];
      WalkLength(init);
      PreviousEndIsLastEnd(init);
      var w := WalkSilences(init);
      if w.previousEnd != silences[n].0 {
        TotalLengthAppend(w.clips, (w.previousEnd, silences[n].0));
      }
    }
  }

  /**
   * The kept segments last as long as the video minus the silences. This holds
   * whatever the silences are, ordered or not, since the gaps telescope.
   */
  lemma {:induction false} KeptLength(silences: seq<Interval>, duration: Time)
    ensures TotalLength(Kept(silences, duration)) == duration - TotalLength(silences)
  {
    WalkLength(silences);
    PreviousEndIsLastEnd(silences);
    var w := WalkSilences(silences);
    if w.previousEnd != duration {
      TotalLengthAppend(w.clips, (w.previousEnd, duration));
    }
  }

  /**
   * Intervals inside `[lo, hi]`, each with start no later than its end, and
   * each ending no later than the next begins.
   */
  predicate Ordered(xs: seq<Interval>, lo: Time, hi: Time) {
    (forall k :: 0 <= k < |xs| ==> lo <= xs[k].0 <= xs[k].1 <= hi) &&
    (forall k :: 0 <= k < |xs| - 1 ==> xs[k].1 <= xs[k + 1].0)
  }

  /** Segments that all end by `mid`, followed by a segment starting there or later, stay ordered. */
  lemma OrderedAppend(xs: seq<Interval>, x: Interval, lo: Time, mid: Time, hi: Time)
    requires Ordered(xs, lo, mid)
    requires lo <= mid <= x.0 <= x.1 <= hi
    ensures Ordered(xs + [x], lo, hi)
  {
  }

  lemma OrderedWiden(xs: seq<Interval>, lo: Time, mid: Time, hi: Time)
    requires Ordered(xs, lo, mid) && mid <= hi
    ensures Ordered(xs, lo, hi)
  {
  }

  /** The silences before the last one are ordered, and the last one starts after they end. */
  lemma OrderedInit(xs: seq<Interval>, hi: Time)
    requires Ordered(xs, 0.0, hi) && xs != []
    ensures Ordered(xs[..|xs| - 1], 0.0, hi)
    ensures 0.0 <= LastEnd(xs[..|xs| - 1]) <= xs[|xs| - 1].0
  {
    var n := |xs| - 1;
    if n > 0 {
      assert xs[..n][n - 1] == xs[n - 1];
    }
  }

  /** Walking ordered silences keeps proper segments in order, all ending by the last silence's end. */
  lemma {:induction false} WalkOrdered(silences: seq<Interval>, duration: Time)
    requires Ordered(silences, 0.0, duration)
    ensures Ordered(WalkSilences(silences).clips, 0.0, LastEnd(silences))
    ensures forall k :: 0 <= k < |WalkSilences(silences).clips| ==>
              WalkSilences(silences).clips[k].0 < WalkSilences(silences).clips[k].1
    decreases |silences|
  {
    if silences != [] {
      var n := |silences| - 1;
      var init, x := silences[..n], silences[n];
      OrderedInit(silences, duration);
      WalkOrdered(init, duration);
      PreviousEndIsLastEnd(init);
      var w := WalkSilences(init);
      var p := LastEnd(init);
      if p != x.0 {
        OrderedAppend(w.clips, (p, x.0), 0.0, p, x.1);
        assert WalkSilences(silences).clips == w.clips + [(p, x.0)];
      } else {
        OrderedWiden(w.clips, 0.0, p, x.1);
      }
    }
  }

  /** Interval `c` overlaps none of `silences`: it ends before each begins or begins after each ends. */
  predicate Apart(c: Interval, silences: seq<Interval>) {
    forall j :: 0 <= j < |silences| ==> c.1 <= silences[j].0 || silences[j].1 <= c.0
  }

  /** In ordered silences, every silence has ended by the time the last one ends. */
  lemma {:induction false} EndsByLastEnd(silences: seq<Interval>, duration: Time)
    requires Ordered(silences, 0.0, duration)
    ensures forall j :: 0 <= j < |silences| ==> silences[j].1 <= LastEnd(silences)
    decreases |silences|
  {
    if silences != [] {
      var n := |silences| - 1;
      OrderedInit(silences, duration);
      EndsByLastEnd(silences[..n], duration);
      forall j | 0 <= j < n ensures silences[j].1 <= LastEnd(silences) {
        assert silences[j] == silences[..n][j];
      }
    }
  }

  /** An interval apart from the earlier silences that ends by the next one's start is apart from all of them. */
  lemma ApartExtend(c: Interval, init: seq<Interval>, x: Interval)
    requires Apart(c, init) && c.1 <= x.0
    ensures Apart(c, init + [x])
  {
    forall j | 0 <= j < |init| ensures (init + [x])[j] == init[j] {}
  }

  /** An interval that starts once every silence has ended is apart from all of them. */
  lemma ApartAfter(c: Interval, silences: seq<Interval>)
    requires forall j :: 0 <= j < |silences| ==> silences[j].1 <= c.0
    ensures Apart(c, silences)
  {
  }

  /** Walking ordered silences keeps only segments that overlap none of them. */
  lemma {:induction false} WalkApart(silences: seq<Interval>, duration: Time)
    requires Ordered(silences, 0.0, duration)
    ensures forall k :: 0 <= k < |WalkSilences(silences).clips| ==>
              Apart(WalkSilences(silences).clips[k], silences)
    decreases |silences|
  {
    if silences != [] {
      var n := |silences| - 1;
      var init, x := silences[..n], silences[n];
      assert silences == init + [x];
      OrderedInit(silences, duration);
      WalkApart(init, duration);
      WalkOrdered(init, duration);
      EndsByLastEnd(init, duration);
      PreviousEndIsLastEnd(init);
      var w := WalkSilences(init);
      var p := LastEnd(init);
      forall k | 0 <= k < |w.clips| ensures Apart(w.clips[k], silences) {
        ApartExtend(w.clips[k], init, x);
      }
      if p != x.0 {
        ApartAfter((p, x.0), init);
        ApartExtend((p, x.0), init, x);
        assert WalkSilences(silences).clips == w.clips + [(p, x.0)];
      }
    }
  }

  /**
   * For silences in order within the video, the kept segments are in order
   * within the video too, none of them empty, and none overlapping a silence:
   * each ends before a silence starts or starts after it ends.
   */
  lemma {:induction false} KeptOrdered(silences: seq<Interval>, duration: Time)
    requires 0.0 <= duration && Ordered(silences, 0.0, duration)
    ensures Ordered(Kept(silences, duration), 0.0, duration)
    ensures forall k :: 0 <= k < |Kept(silences, duration)| ==>
              Kept(silences, duration)[k].0 < Kept(silences, duration)[k].1
    ensures forall k, j :: 0 <= k < |Kept(silences, duration)| && 0 <= j < |silences| ==>
              Kept(silences, duration)[k].1 <= silences[j].0 || silences[j].1 <= Kept(silences, duration)[k].0
  {
    WalkOrdered(silences, duration);
    WalkApart(silences, duration);
    EndsByLastEnd(silences, duration);
    PreviousEndIsLastEnd(silences);
    var w := WalkSilences(silences);
    var p := LastEnd(silences);
    ApartAfter((p, duration), silences);
    assert forall k :: 0 <= k < |Kept(silences, duration)| ==> Apart(Kept(silences, duration)[k], silences);
    if silences != [] {
      assert silences[|silences| - 1].1 <= duration;
    }
    if p != duration {
      OrderedAppend(w.clips, (p, duration), 0.0, p, duration);
    } else {
      OrderedWiden(w.clips, 0.0, p, duration);
    }
  }

  /** With no silence, the whole video is one segment (none if it is empty). */
  lemma NoSilenceKeepsWholeVideo(duration: Time)
    ensures Kept([], duration) == if duration != 0.0 then [(0.0, duration)] else []
  {
  }

  /** Silences (2, 4) and (6, 7.5) in a 10-second video leave (0, 2), (4, 6) and (7.5, 10). */
  lemma TwoSilencesExample()
    ensures Kept([(2.0, 4.0), (6.0, 7.5)], 10.0) == [(0.0, 2.0), (4.0, 6.0), (7.5, 10.0)]
  {
    WalkAppend([(2.0, 4.0)], (6.0, 7.5));
    WalkAppend([], (2.0, 4.0));
  }

  /** A silence covering the whole 10-second video leaves no segment at all. */
  lemma FullSilenceExample()
    ensures Kept([(0.0, 10.0)], 10.0) == []
  {
    WalkAppend([], (0.0, 10.0));
  }

  /**
   * Nothing checks that silences are ordered: a silence that starts before the
   * previous one ended yields a reversed segment (8, 3).
   */
  lemma UnorderedSilencesExample()
    ensures Kept([(5.0, 8.0), (3.0, 4.0)], 10.0) == [(0.0, 5.0), (8.0, 3.0), (4.0, 10.0)]
  {
    WalkAppend([(5.0, 8.0)], (3.0, 4.0));
    WalkAppend([], (5.0, 8.0));
  }
}
