/** The aligner: turns one channel's ordered speech intervals and the
    recording's duration into one boolean per analysis window. */
module Aligner {
  import opened Rounding

  /** A speech interval reported by the detector, in ticks. */
  datatype Interval = Interval(start: int, end: int)

  /** `n` copies of `b`: a list comprehension `[b for x in range(n)]`. */
  function Repeat(b: bool, n: nat): (s: seq<bool>)
    ensures |s| == n
    ensures forall i :: 0 <= i < n ==> s[i] == b
  {
    seq(n, _ => b)
  }

  /** A nonempty interval spans at least one window once rounded outward. */
  lemma SpanHasSpeech(r: Interval, w: int)
    requires w > 0
    ensures r.start < r.end ==> SliceCount(RoundUp(r.end, w) - RoundDown(r.start, w), w) >= 1
  {
    if r.start < r.end {
      var lo, hi := r.start / w, CeilDiv(r.end, w);
      MultipleLess(lo, hi, w);
      SliceCountOfMultiples(hi, lo, w);
    }
  }

  /** The slices one interval appends while the cursor stands at `offset`:
      the silent gap up to its rounded-down start, then its rounded span. */
  function Span(r: Interval, offset: int, w: int): seq<bool>
    requires w > 0
  {
    var bottom := RoundDown(r.start, w);
    var top := RoundUp(r.end, w);
    Repeat(false, SliceCount(bottom - offset, w)) + Repeat(true, SliceCount(top - bottom, w))
  }

  /** The slices the interval loop appends, starting with the cursor at
      `offset`; after each interval the cursor moves to its rounded-up end. */
  function Emitted(ivs: seq<Interval>, offset: int, w: int): seq<bool>
    requires w > 0
    decreases |ivs|
  {
    if ivs == [] then []
    else Span(ivs[0], offset, w) + Emitted(ivs[1..], RoundUp(ivs[0].end, w), w)
  }

  /** The value of `top` after the interval loop: it starts at the rounded-up
      duration and is reset to each interval's rounded-up end. */
  function FinalTop(ivs: seq<Interval>, duration: int, w: int): int
    requires w > 0
  {
    if ivs == [] then RoundUp(duration, w) else RoundUp(ivs[|ivs| - 1].end, w)
  }

  /** The track of one channel: the interval loop, then the trailing pad of
      `end - top` ticks, where `end` is the rounded-up duration. */
  function Align(ivs: seq<Interval>, duration: int, w: int): seq<bool>
    requires w > 0
  {
    Emitted(ivs, 0, w)
    + Repeat(false, SliceCount(RoundUp(duration, w) - FinalTop(ivs, duration, w), w))
  }

  /** The loop from interval `i` on emits interval `i`'s slices, then the
      rest with the cursor moved to its rounded-up end. */
  lemma EmittedStep(ivs: seq<Interval>, i: int, offset: int, w: int)
    requires w > 0 && 0 <= i < |ivs|
    ensures Emitted(ivs[i..], offset, w)
            == Span(ivs[i], offset, w) + Emitted(ivs[i + 1..], RoundUp(ivs[i].end, w), w)
  {
    assert ivs[i..][1..] == ivs[i + 1..];
  }

  /** The final `top` is a window boundary at most one window past the
      last interval's end, or past the duration when there is no interval. */
  lemma FinalTopBounds(ivs: seq<Interval>, duration: int, w: int)
    requires w > 0
    ensures var top := FinalTop(ivs, duration, w);
      && top % w == 0
      && (ivs == [] ==> duration <= top < duration + w)
      && (ivs != [] ==> ivs[|ivs| - 1].end <= top < ivs[|ivs| - 1].end + w)
  {
  }

  /** Within one interval's slices, the gap comes first and a nonempty
      interval ends in an active slice; a gap behind the cursor emits only
      active slices. */
  lemma SpanShape(r: Interval, offset: int, w: int)
    requires w > 0
    ensures var s := Span(r, offset, w);
      && (forall i, j :: 0 <= i < j < |s| && s[i] ==> s[j])
      && (RoundDown(r.start, w) <= offset ==> forall i :: 0 <= i < |s| ==> s[i])
      && (r.start < r.end ==> |s| > 0 && s[|s| - 1])
  {
    SpanHasSpeech(r, w);
  }

  /** Every nonempty interval contributes at least one slice to the loop. */
  lemma {:induction false} EmittedPerInterval(ivs: seq<Interval>, offset: int, w: int)
    requires w > 0
    requires forall k :: 0 <= k < |ivs| ==> ivs[k].start < ivs[k].end
    ensures |Emitted(ivs, offset, w)| >= |ivs|
    decreases |ivs|
  {
    if ivs != [] {
      SpanShape(ivs[0], offset, w);
      EmittedPerInterval(ivs[1..], RoundUp(ivs[0].end, w), w);
    }
  }

  /** Index of the first window an interval touches. */
  function Lo(r: Interval, w: int): int
    requires w > 0
  {
    r.start / w
  }

  /** Index one past the last window an interval touches. */
  function Hi(r: Interval, w: int): int
    requires w > 0
  {
    CeilDiv(r.end, w)
  }

  /** Intervals are separated when each starts at or after 0 and does not
      end before it starts, and when, once rounded outward, none shares a
      window with its successor. */
  ghost predicate Separated(ivs: seq<Interval>, w: int)
    requires w > 0
  {
    && (forall k :: 0 <= k < |ivs| ==> 0 <= ivs[k].start <= ivs[k].end)
    && (forall k :: 0 <= k < |ivs| - 1 ==> RoundUp(ivs[k].end, w) <= RoundDown(ivs[k + 1].start, w))
  }

  /** There is an interval, and the last one ends, once rounded up, within
      the rounded-up duration. */
  ghost predicate FitsDuration(ivs: seq<Interval>, duration: int, w: int)
    requires w > 0
  {
    |ivs| > 0 && RoundUp(ivs[|ivs| - 1].end, w) <= RoundUp(duration, w)
  }

  /** Window `i`, the ticks [i*w, (i+1)*w), lies inside the interval
      widened to [rounddown(start), roundup(end)). */
  ghost predicate Covers(r: Interval, i: int, w: int)
    requires w > 0
  {
    RoundDown(r.start, w) <= i * w && (i + 1) * w <= RoundUp(r.end, w)
  }

  /** Some interval of the channel covers window `i`. */
  ghost predicate Active(ivs: seq<Interval>, i: int, w: int)
    requires w > 0
  {
    exists k :: 0 <= k < |ivs| && Covers(ivs[k], i, w)
  }

  lemma CoversByIndex(r: Interval, i: int, w: int)
    requires w > 0
    ensures Covers(r, i, w) <==> Lo(r, w) <= i < Hi(r, w)
  {
    MultipleLess(i, Lo(r, w), w);
    MultipleLess(Hi(r, w), i + 1, w);
  }

  lemma SeparatedByIndex(ivs: seq<Interval>, k: int, w: int)
    requires w > 0 && Separated(ivs, w)
    requires 0 <= k < |ivs|
    ensures 0 <= Lo(ivs[k], w) <= Hi(ivs[k], w)
    ensures k < |ivs| - 1 ==> Hi(ivs[k], w) <= Lo(ivs[k + 1], w)
  {
    RoundingMonotone(ivs[k].start, ivs[k].end, w);
    RoundingMonotone(0, ivs[k].start, w);
    if k < |ivs| - 1 {
      MultipleLess(Lo(ivs[k + 1], w), Hi(ivs[k], w), w);
    }
  }

  /** An earlier interval ends, rounded up, no later than a later one starts,
      rounded down. */
  lemma {:induction false} SeparatedChain(ivs: seq<Interval>, j: int, k: int, w: int)
    requires w > 0 && Separated(ivs, w)
    requires 0 <= j < k < |ivs|
    ensures Hi(ivs[j], w) <= Lo(ivs[k], w)
    decreases k - j
  {
    SeparatedByIndex(ivs, k - 1, w);
    if j < k - 1 {
      SeparatedChain(ivs, j, k - 1, w);
    }
  }

  lemma {:induction false} EmittedLength(ivs: seq<Interval>, m: int, w: int)
    requires w > 0 && Separated(ivs, w) && ivs != []
    requires m <= Lo(ivs[0], w)
    ensures |Emitted(ivs, m * w, w)| == Hi(ivs[|ivs| - 1], w) - m
    decreases |ivs|
  {
    var r := ivs[0];
    SeparatedByIndex(ivs, 0, w);
    SliceCountOfMultiples(Lo(r, w), m, w);
    SliceCountOfMultiples(Hi(r, w), Lo(r, w), w);
    if |ivs| > 1 {
      assert Separated(ivs[1..], w);
      EmittedLength(ivs[1..], Hi(r, w), w);
    }
  }

  /** The windows an interval touches once rounded outward: from `lo`
      up to, not including, `hi`. */
  datatype WindowSpan = WindowSpan(lo: int, hi: int)

  function Bounds(ivs: seq<Interval>, w: int): (bs: seq<WindowSpan>)
    requires w > 0
    ensures |bs| == |ivs|
    ensures forall k :: 0 <= k < |ivs| ==> bs[k] == WindowSpan(Lo(ivs[k], w), Hi(ivs[k], w))
  {
    seq(|ivs|, k requires 0 <= k < |ivs| => WindowSpan(Lo(ivs[k], w), Hi(ivs[k], w)))
  }

  /** The interval loop counted in windows: from cursor window `m`, each
      span appends its gap up to `lo`, then its windows up to `hi`, and
      moves the cursor to `hi`. */
  function Cells(bs: seq<WindowSpan>, m: int): seq<bool>
    decreases |bs|
  {
    if bs == [] then []
    else
      var b := bs[0];
      Repeat(false, if b.lo < m then 0 else b.lo - m) + Repeat(true, if b.hi < b.lo then 0 else b.hi - b.lo)
      + Cells(bs[1..], b.hi)
  }

  /** Spans in order, none before the cursor and none overlapping a later one. */
  ghost predicate Ordered(bs: seq<WindowSpan>, m: int)
  {
    && (bs != [] ==> m <= bs[0].lo)
    && (forall k :: 0 <= k < |bs| ==> bs[k].lo <= bs[k].hi)
    && (forall j, k :: 0 <= j < k < |bs| ==> bs[j].hi <= bs[k].lo)
  }

  ghost predicate InSome(bs: seq<WindowSpan>, i: int)
  {
    exists k :: 0 <= k < |bs| && bs[k].lo <= i < bs[k].hi
  }

  /** For ordered spans, a cell is `True` exactly when some span holds it. */
  lemma {:induction false} CellsAt(bs: seq<WindowSpan>, m: int, j: int)
    requires Ordered(bs, m)
    requires 0 <= j < |Cells(bs, m)|
    ensures Cells(bs, m)[j] <==> InSome(bs, m + j)
    decreases |bs|
  {
    var b, rest := bs[0], bs[1..];
    var head := Repeat(false, b.lo - m) + Repeat(true, b.hi - b.lo);
    var tail := Cells(rest, b.hi);
    assert Cells(bs, m) == head + tail;
    if j < b.lo - m {
      assert (head + tail)[j] == head[j];
      forall k | 0 <= k < |bs|
        ensures !(bs[k].lo <= m + j < bs[k].hi)
      {
        if k > 0 {
          assert bs[0].hi <= bs[k].lo;
        }
      }
    } else if j < b.hi - m {
      assert (head + tail)[j] == head[j];
      assert bs[0].lo <= m + j < bs[0].hi;
    } else {
      assert (head + tail)[j] == tail[j - (b.hi - m)];
      assert Ordered(rest, b.hi) by {
        if rest != [] {
          assert bs[0].hi <= bs[1].lo;
        }
      }
      CellsAt(rest, b.hi, j - (b.hi - m));
      if InSome(bs, m + j) {
        var k :| 0 <= k < |bs| && bs[k].lo <= m + j < bs[k].hi;
        assert k != 0;
        assert rest[k - 1] == bs[k];
      }
      if InSome(rest, m + j) {
        var k :| 0 <= k < |rest| && rest[k].lo <= m + j < rest[k].hi;
        assert bs[k + 1] == rest[k];
      }
    }
  }

  /** With the cursor on a window boundary, the loop's slices are the
      window-count form of its intervals. */
  lemma {:induction false} EmittedByWindows(ivs: seq<Interval>, m: int, w: int)
    requires w > 0
    ensures Emitted(ivs, m * w, w) == Cells(Bounds(ivs, w), m)
    decreases |ivs|
  {
    if ivs != [] {
      var r := ivs[0];
      var lo, hi := Lo(r, w), Hi(r, w);
      assert RoundDown(r.start, w) == lo * w;
      assert RoundUp(r.end, w) == hi * w;
      SliceCountOfMultiples(lo, m, w);
      SliceCountOfMultiples(hi, lo, w);
      assert Bounds(ivs, w)[1..] == Bounds(ivs[1..], w);
      EmittedByWindows(ivs[1..], hi, w);
    }
  }

  /** Separated intervals give ordered window spans. */
  lemma SeparatedOrdered(ivs: seq<Interval>, m: int, w: int)
    requires w > 0 && Separated(ivs, w) && ivs != []
    requires m <= Lo(ivs[0], w)
    ensures Ordered(Bounds(ivs, w), m)
  {
    var bs := Bounds(ivs, w);
    forall k | 0 <= k < |bs|
      ensures bs[k].lo <= bs[k].hi
    {
      SeparatedByIndex(ivs, k, w);
    }
    forall j, k | 0 <= j < k < |bs|
      ensures bs[j].hi <= bs[k].lo
    {
      SeparatedChain(ivs, j, k, w);
    }
  }

  /** An interval covers a window exactly when its window span holds it. */
  lemma ActiveInSome(ivs: seq<Interval>, i: int, w: int)
    requires w > 0
    ensures Active(ivs, i, w) <==> InSome(Bounds(ivs, w), i)
  {
    var bs := Bounds(ivs, w);
    forall k | 0 <= k < |ivs|
      ensures Covers(ivs[k], i, w) <==> bs[k].lo <= i < bs[k].hi
    {
      CoversByIndex(ivs[k], i, w);
    }
  }

  lemma EmittedAt(ivs: seq<Interval>, m: int, w: int, j: int)
    requires w > 0 && Separated(ivs, w) && ivs != []
    requires m <= Lo(ivs[0], w)
    requires 0 <= j < |Emitted(ivs, m * w, w)|
    ensures Emitted(ivs, m * w, w)[j] <==> Active(ivs, m + j, w)
  {
    EmittedByWindows(ivs, m, w);
    SeparatedOrdered(ivs, m, w);
    CellsAt(Bounds(ivs, w), m, j);
    ActiveInSome(ivs, m + j, w);
  }

  lemma FitsByIndex(ivs: seq<Interval>, duration: int, w: int)
    requires w > 0 && FitsDuration(ivs, duration, w)
    ensures Hi(ivs[|ivs| - 1], w) <= CeilDiv(duration, w)
  {
    MultipleLess(CeilDiv(duration, w), Hi(ivs[|ivs| - 1], w), w);
  }

  /** Under separation and fit, the track has exactly one slice per window
      of the rounded-up duration. */
  lemma AlignLength(ivs: seq<Interval>, duration: int, w: int)
    requires w > 0 && Separated(ivs, w) && FitsDuration(ivs, duration, w)
    ensures |Align(ivs, duration, w)| == CeilDiv(duration, w)
    ensures |Align(ivs, duration, w)| * w == RoundUp(duration, w)
  {
    var last := ivs[|ivs| - 1];
    SeparatedByIndex(ivs, 0, w);
    EmittedLength(ivs, 0, w);
    FitsByIndex(ivs, duration, w);
    SliceCountOfMultiples(CeilDiv(duration, w), Hi(last, w), w);
  }

  /** Every interval ends, rounded up, no later than the last one. */
  lemma LastEndsLatest(ivs: seq<Interval>, k: int, w: int)
    requires w > 0 && Separated(ivs, w)
    requires 0 <= k < |ivs|
    ensures Hi(ivs[k], w) <= Hi(ivs[|ivs| - 1], w)
  {
    if k < |ivs| - 1 {
      SeparatedChain(ivs, k, |ivs| - 1, w);
      SeparatedByIndex(ivs, |ivs| - 1, w);
    }
  }

  /** Under separation and fit, slice `i` is true exactly when window `i`
      lies inside some interval widened to window boundaries. */
  lemma AlignAt(ivs: seq<Interval>, duration: int, w: int, i: int)
    requires w > 0 && Separated(ivs, w) && FitsDuration(ivs, duration, w)
    requires 0 <= i < |Align(ivs, duration, w)|
    ensures Align(ivs, duration, w)[i] <==> Active(ivs, i, w)
  {
    var last := ivs[|ivs| - 1];
    SeparatedByIndex(ivs, 0, w);
    EmittedLength(ivs, 0, w);
    var e := Emitted(ivs, 0, w);
    if i < |e| {
      EmittedAt(ivs, 0, w, i);
    } else {
      forall k | 0 <= k < |ivs|
        ensures !Covers(ivs[k], i, w)
      {
        CoversByIndex(ivs[k], i, w);
        LastEndsLatest(ivs, k, w);
      }
    }
  }

  /** A window overlapping an interval lies between its rounded ends. */
  lemma OverlapByIndex(r: Interval, i: int, w: int)
    requires w > 0
    requires i * w < r.end && r.start < (i + 1) * w
    ensures Lo(r, w) <= i < Hi(r, w)
  {
    MultipleLess(Lo(r, w), i + 1, w);
    MultipleLess(i, Hi(r, w), w);
  }

  /** Activity is never under-reported: every window that overlaps an
      interval at all is a true slice of the track. */
  lemma NeverUnderReported(ivs: seq<Interval>, duration: int, w: int, k: int, i: int)
    requires w > 0 && Separated(ivs, w) && FitsDuration(ivs, duration, w)
    requires 0 <= k < |ivs|
    requires i * w < ivs[k].end && ivs[k].start < (i + 1) * w
    ensures 0 <= i < |Align(ivs, duration, w)|
    ensures Align(ivs, duration, w)[i]
  {
    var r := ivs[k];
    assert Lo(r, w) <= i < Hi(r, w) by {
      OverlapByIndex(r, i, w);
    }
    assert Active(ivs, i, w) by {
      CoversByIndex(r, i, w);
    }
    assert 0 <= i < CeilDiv(duration, w) by {
      SeparatedByIndex(ivs, k, w);
      LastEndsLatest(ivs, k, w);
      FitsByIndex(ivs, duration, w);
    }
    AlignLength(ivs, duration, w);
    AlignAt(ivs, duration, w, i);
  }

  /** A channel with no intervals yields an empty track, not an all-false
      one: `top` already equals the rounded-up duration, so the pad is 0. */
  lemma NoIntervalsEmptyTrack(duration: int, w: int)
    requires w > 0
    ensures Align([], duration, w) == []
  {
  }

  /** When an interval's rounded-down start lies before the cursor, its
      negative gap emits no slice, its whole rounded span is still emitted,
      and the cursor moves on to its rounded-up end. */
  lemma NegativeGapEmitsNothing(r: Interval, rest: seq<Interval>, offset: int, w: int)
    requires w > 0
    requires RoundDown(r.start, w) < offset
    ensures Emitted([r] + rest, offset, w)
         == Repeat(true, SliceCount(RoundUp(r.end, w) - RoundDown(r.start, w), w))
            + Emitted(rest, RoundUp(r.end, w), w)
  {
    assert ([r] + rest)[1..] == rest;
  }

  /** Two intervals that round into a shared window make the track longer
      than the duration's window count: with w = 10 and duration 20, the
      intervals [0, 5) and [6, 15) give three slices instead of two. */
  lemma SharedWindowLengthensTrack()
    ensures CeilDiv(20, 10) == 2
    ensures Align([Interval(0, 5), Interval(6, 15)], 20, 10) == [true, true, true]
  {
    var ivs := [Interval(0, 5), Interval(6, 15)];
    assert RoundDown(0, 10) == 0 && RoundUp(5, 10) == 10;
    assert RoundDown(6, 10) == 0 && RoundUp(15, 10) == 20;
    assert Span(ivs[0], 0, 10) == [true];
    assert Span(ivs[1], 10, 10) == [true, true];
    assert ivs[1..][1..] == [];
    assert Emitted(ivs, 0, 10) == [true] + ([true, true] + []);
  }

  /** A 1.0 s recording cut into 0.1 s windows (10 ticks each) with speech
      from 0.25 s to 0.45 s: the start rounds down to 0.2 s, the end up to
      0.5 s, so slices 2, 3 and 4 are true. */
  lemma ExampleTrack()
    ensures Align([Interval(25, 45)], 100, 10)
         == [false, false, true, true, true, false, false, false, false, false]
  {
    assert RoundDown(25, 10) == 20 && RoundUp(45, 10) == 50 && RoundUp(100, 10) == 100;
    assert Span(Interval(25, 45), 0, 10) == [false, false, true, true, true];
  }
}
