/** The aggregator: counts of windows in one or two aligned tracks.
    The pairwise counts walk both tracks together, as Python's `zip` does,
    and so stop at the end of the shorter track. */
module Aggregator {

  /** Windows in which the channel is active: `sum(1 for x in t if x)`. */
  function CountTrue(t: seq<bool>): (n: nat)
    ensures n <= |t|
  {
    if t == [] then 0 else (if t[0] then 1 else 0) + CountTrue(t[1..])
  }

  /** Windows in which the channel is silent: `sum(1 for c in t if not c)`. */
  function CountFalse(t: seq<bool>): (n: nat)
    ensures n <= |t|
  {
    if t == [] then 0 else (if t[0] then 0 else 1) + CountFalse(t[1..])
  }

  /** Zipped windows in which both channels are active (overtalk). */
  function BothTrue(a: seq<bool>, b: seq<bool>): (n: nat)
    ensures n <= |a| && n <= |b|
  {
    if a == [] || b == [] then 0
    else (if a[0] && b[0] then 1 else 0) + BothTrue(a[1..], b[1..])
  }

  /** Zipped windows in which neither channel is active (joint silence). */
  function BothFalse(a: seq<bool>, b: seq<bool>): (n: nat)
    ensures n <= |a| && n <= |b|
  {
    if a == [] || b == [] then 0
    else (if !a[0] && !b[0] then 1 else 0) + BothFalse(a[1..], b[1..])
  }

  /** Zipped windows in which exactly one channel is active. */
  function ExactlyOne(a: seq<bool>, b: seq<bool>): (n: nat)
    ensures n <= |a| && n <= |b|
  {
    if a == [] || b == [] then 0
    else (if a[0] != b[0] then 1 else 0) + ExactlyOne(a[1..], b[1..])
  }

  function Min(x: int, y: int): int
  {
    if x <= y then x else y
  }

  /** Every window of one track is either talk or silence. */
  lemma {:induction false} TalkPlusSilence(t: seq<bool>)
    ensures CountTrue(t) + CountFalse(t) == |t|
  {
    if t != [] {
      TalkPlusSilence(t[1..]);
    }
  }

  /** Every zipped window is overtalk, joint silence, or one-sided talk:
      the three counts add up to the length of the shorter track. */
  lemma {:induction false} PairPartition(a: seq<bool>, b: seq<bool>)
    ensures BothTrue(a, b) + BothFalse(a, b) + ExactlyOne(a, b) == Min(|a|, |b|)
  {
    if a != [] && b != [] {
      PairPartition(a[1..], b[1..]);
    }
  }

  /** Overtalk does not depend on the order of the channels. */
  lemma {:induction false} OvertalkSymmetric(a: seq<bool>, b: seq<bool>)
    ensures BothTrue(a, b) == BothTrue(b, a)
  {
    if a != [] && b != [] {
      OvertalkSymmetric(a[1..], b[1..]);
    }
  }

  /** Overtalk never exceeds either channel's own talk. */
  lemma {:induction false} OvertalkWithinTalk(a: seq<bool>, b: seq<bool>)
    ensures BothTrue(a, b) <= CountTrue(a)
    ensures BothTrue(a, b) <= CountTrue(b)
  {
    if a != [] && b != [] {
      OvertalkWithinTalk(a[1..], b[1..]);
    }
  }

  /** Joint silence never exceeds either channel's own silence. */
  lemma {:induction false} SilenceWithinEach(a: seq<bool>, b: seq<bool>)
    ensures BothFalse(a, b) <= CountFalse(a)
    ensures BothFalse(a, b) <= CountFalse(b)
  {
    if a != [] && b != [] {
      SilenceWithinEach(a[1..], b[1..]);
    }
  }

  /** A track overtalking itself overlaps all of its own talk, and is
      jointly silent in all of its own silence. */
  lemma {:induction false} SelfOverlap(t: seq<bool>)
    ensures BothTrue(t, t) == CountTrue(t)
    ensures BothFalse(t, t) == CountFalse(t)
    ensures ExactlyOne(t, t) == 0
  {
    if t != [] {
      SelfOverlap(t[1..]);
    }
  }

  /** Pairwise counts see only the first Min(|a|, |b|) windows: the tail of
      the longer track is dropped. */
  lemma {:induction false} ZipTruncates(a: seq<bool>, b: seq<bool>)
    ensures var n := Min(|a|, |b|);
      && BothTrue(a, b) == BothTrue(a[..n], b[..n])
      && BothFalse(a, b) == BothFalse(a[..n], b[..n])
      && ExactlyOne(a, b) == ExactlyOne(a[..n], b[..n])
  {
    var n := Min(|a|, |b|);
    if a != [] && b != [] {
      ZipTruncates(a[1..], b[1..]);
      assert a[..n][1..] == a[1..][..n - 1];
      assert b[..n][1..] == b[1..][..n - 1];
    }
  }

  /** The two-channel example: tracks [T,F,T,F] and [T,T,F,F] overtalk in
      window 0, are silent in window 3, and each talk for two windows. */
  lemma ExampleCounts()
    ensures BothTrue([true, false, true, false], [true, true, false, false]) == 1
    ensures BothFalse([true, false, true, false], [true, true, false, false]) == 1
    ensures CountTrue([true, false, true, false]) == 2
    ensures CountTrue([true, true, false, false]) == 2
  {
    var a, b := [true, false, true, false], [true, true, false, false];
    assert a[1..] == [false, true, false] && b[1..] == [true, false, false];
    assert a[1..][1..] == [true, false] && b[1..][1..] == [false, false];
    assert a[1..][1..][1..] == [false] && b[1..][1..][1..] == [false];
  }
}
