/** The `Overtalk` session: loads one stereo or up to two mono recordings,
    keeps one aligned track per channel (at most two), and derives overtalk,
    silence and talk time from those tracks on demand. */
module Session {
  import opened Rounding
  import opened Aligner
  import opened Aggregator

  datatype Option<T> = None | Some(value: T)

  datatype Result<T, E> = Success(value: T) | Failure(error: E)

  datatype Outcome<E> = Pass | Fail(error: E)

  /** `load` was given more than two files. */
  datatype LoadError = TooManyFiles

  /** `talktime` was asked for before anything was loaded. */
  datatype QueryError = NothingLoaded

  /** What the speech detector reports for one WAV file: its length in
      samples, its duration in ticks and, per channel, the ordered speech
      intervals. A recording of no samples is false in a truth test. */
  datatype Recording = Recording(samples: nat, duration: int, channels: seq<seq<Interval>>)

  /** One channel to align: its intervals and the duration of its file. */
  datatype Channel = Channel(intervals: seq<Interval>, duration: int)

  /** The analysis window, a positive number of ticks. */
  type Window = w: int | w > 0 witness 1

  /** The channels of one file, in channel order. */
  function ChannelsOf(f: Recording): (cs: seq<Channel>)
    ensures |cs| == |f.channels|
    ensures forall c :: 0 <= c < |cs| ==> cs[c] == Channel(f.channels[c], f.duration)
  {
    seq(|f.channels|, c requires 0 <= c < |f.channels| => Channel(f.channels[c], f.duration))
  }

  /** The channels of all files: file order first, then channel order. */
  function Channels(files: seq<Recording>): seq<Channel>
  {
    if files == [] then []
    else Channels(files[..|files| - 1]) + ChannelsOf(files[|files| - 1])
  }

  /** The tracks of the first two channels; every later channel is dropped. */
  function FirstTwoTracks(cs: seq<Channel>, w: int): seq<seq<bool>>
    requires w > 0
  {
    var n := Min(|cs|, 2);
    seq(n, i requires 0 <= i < n => Align(cs[i].intervals, cs[i].duration, w))
  }

  /** The tracks a successful `load` of `files` leaves in the session. */
  function LoadedTracks(files: seq<Recording>, w: int): seq<seq<bool>>
    requires w > 0
  {
    FirstTwoTracks(Channels(files), w)
  }

  /** The recording `regionobj` refers to after loading `files`: the last
      file read before two tracks were held, or `prev` when no file was read
      (a file met once two tracks exist is skipped without being read). */
  function LastRead(files: seq<Recording>, prev: Option<Recording>): Option<Recording>
  {
    if files == [] then prev
    else if |Channels(files[..|files| - 1])| >= 2 then LastRead(files[..|files| - 1], prev)
    else Some(files[|files| - 1])
  }

  /** Mono files contribute one channel each. */
  lemma {:induction false} MonoFilesChannels(files: seq<Recording>)
    requires forall j :: 0 <= j < |files| ==> |files[j].channels| == 1
    ensures |Channels(files)| == |files|
    decreases |files|
  {
    if files != [] {
      MonoFilesChannels(files[..|files| - 1]);
    }
  }

  /** After a nonempty load, `regionobj` is one of the loaded files. */
  lemma {:induction false} LastReadIsAFile(files: seq<Recording>, prev: Option<Recording>)
    requires files != []
    ensures exists j :: 0 <= j < |files| && LastRead(files, prev) == Some(files[j])
    decreases |files|
  {
    var init := files[..|files| - 1];
    if |Channels(init)| >= 2 {
      if init == [] {
        assert false;
      }
      LastReadIsAFile(init, prev);
      var j :| 0 <= j < |init| && LastRead(init, prev) == Some(init[j]);
      assert init[j] == files[j];
    } else {
      assert LastRead(files, prev) == Some(files[|files| - 1]);
    }
  }

  lemma ChannelsSnoc(files: seq<Recording>, i: int)
    requires 0 <= i < |files|
    ensures Channels(files[..i + 1]) == Channels(files[..i]) + ChannelsOf(files[i])
  {
    assert files[..i + 1][..i] == files[..i];
  }

  /** Channel `c` of file `j` is found right after the channels of the files
      before it: track order is file order, then channel order. */
  lemma {:induction false} ChannelOrder(files: seq<Recording>, j: int, c: int)
    requires 0 <= j < |files|
    requires 0 <= c < |files[j].channels|
    ensures |Channels(files[..j])| + c < |Channels(files)|
    ensures Channels(files)[|Channels(files[..j])| + c] == Channel(files[j].channels[c], files[j].duration)
    decreases |files|
  {
    var last := |files| - 1;
    var init := files[..last];
    if j == last {
      assert init == files[..j];
    } else {
      assert init[..j] == files[..j];
      ChannelOrder(init, j, c);
    }
  }

  /** Appending a channel adds its track while fewer than two are held, and
      changes nothing afterwards. */
  lemma FirstTwoTracksSnoc(cs: seq<Channel>, c: Channel, w: int)
    requires w > 0
    ensures |cs| < 2 ==> FirstTwoTracks(cs + [c], w)
                         == FirstTwoTracks(cs, w) + [Align(c.intervals, c.duration, w)]
    ensures |cs| >= 2 ==> FirstTwoTracks(cs + [c], w) == FirstTwoTracks(cs, w)
  {
  }

  /** Once two channels are held, further channels change nothing. */
  lemma FirstTwoTracksFull(cs: seq<Channel>, ds: seq<Channel>, w: int)
    requires w > 0
    requires |cs| >= 2
    ensures FirstTwoTracks(cs + ds, w) == FirstTwoTracks(cs, w)
  {
  }

  /** A load keeps at most two tracks, one per leading channel, each the
      alignment of that channel. */
  lemma LoadedTracksShape(files: seq<Recording>, w: int)
    requires w > 0
    ensures |LoadedTracks(files, w)| == Min(|Channels(files)|, 2)
    ensures forall i :: 0 <= i < |LoadedTracks(files, w)| ==>
              LoadedTracks(files, w)[i]
              == Align(Channels(files)[i].intervals, Channels(files)[i].duration, w)
  {
  }

  /** Channel `c` of file `j` gets a track exactly when fewer than two
      channels precede it, and that track comes right after the tracks of
      the earlier files and is the alignment of that channel. */
  lemma LoadedTrackOfChannel(files: seq<Recording>, j: int, c: int, w: int)
    requires w > 0
    requires 0 <= j < |files|
    requires 0 <= c < |files[j].channels|
    ensures |Channels(files[..j])| + c < |LoadedTracks(files, w)|
            <==> |Channels(files[..j])| + c < 2
    ensures |Channels(files[..j])| + c < 2 ==>
              LoadedTracks(files, w)[|Channels(files[..j])| + c]
              == Align(files[j].channels[c], files[j].duration, w)
  {
    ChannelOrder(files, j, c);
  }

  /** One file of `load`'s outer loop: once two tracks are held the file
      is skipped and nothing changes; otherwise it is read and its channels
      are offered after those of the earlier files. */
  lemma LoadStep(files: seq<Recording>, i: int, w: int, prev: Option<Recording>)
    requires w > 0 && 0 <= i < |files|
    ensures |LoadedTracks(files[..i], w)| == Min(|Channels(files[..i])|, 2)
    ensures |LoadedTracks(files[..i], w)| == 2 ==>
              && LoadedTracks(files[..i + 1], w) == LoadedTracks(files[..i], w)
              && LastRead(files[..i + 1], prev) == LastRead(files[..i], prev)
    ensures |LoadedTracks(files[..i], w)| < 2 ==>
              && LoadedTracks(files[..i + 1], w)
                 == FirstTwoTracks(Channels(files[..i]) + ChannelsOf(files[i]), w)
              && LastRead(files[..i + 1], prev) == Some(files[i])
  {
    ChannelsSnoc(files, i);
    assert files[..i + 1][..i] == files[..i];
    if |Channels(files[..i])| >= 2 {
      FirstTwoTracksFull(Channels(files[..i]), ChannelsOf(files[i]), w);
    }
  }

  /** One channel of `load`'s inner loop: its track is appended while fewer
      than two are held, and nothing changes afterwards. */
  lemma ChannelStep(cs: seq<Channel>, f: Recording, ch: int, w: int)
    requires w > 0 && 0 <= ch < |f.channels|
    ensures |FirstTwoTracks(cs + ChannelsOf(f)[..ch], w)| == Min(|cs| + ch, 2)
    ensures var held := FirstTwoTracks(cs + ChannelsOf(f)[..ch], w);
            var next := FirstTwoTracks(cs + ChannelsOf(f)[..ch + 1], w);
            && (|held| == 2 ==> next == held)
            && (|held| < 2 ==> next == held + [Align(f.channels[ch], f.duration, w)])
  {
    var before := cs + ChannelsOf(f)[..ch];
    assert before + [ChannelsOf(f)[ch]] == cs + ChannelsOf(f)[..ch + 1];
    FirstTwoTracksSnoc(before, ChannelsOf(f)[ch], w);
  }

  /** A stereo file followed by a mono file: the stereo channels fill both
      tracks, the mono file is skipped unread, and `regionobj` stays the
      stereo file. */
  lemma StereoThenMonoSkipsMono(f: Recording, g: Recording, w: int, prev: Option<Recording>)
    requires w > 0
    requires |f.channels| == 2 && |g.channels| == 1
    ensures LoadedTracks([f, g], w)
            == [Align(f.channels[0], f.duration, w), Align(f.channels[1], f.duration, w)]
    ensures LastRead([f, g], prev) == Some(f)
  {
    assert [f, g][..1] == [f];
    assert [f][..0] == [];
    assert Channels([f]) == ChannelsOf(f);
    var cs := ChannelsOf(f);
    assert Channels([f, g]) == cs + ChannelsOf(g);
    FirstTwoTracksFull(cs, ChannelsOf(g), w);
    assert FirstTwoTracks(cs, w)
           == [Align(f.channels[0], f.duration, w), Align(f.channels[1], f.duration, w)];
  }

  /** Two mono files: one track each, in argument order, and `regionobj` is
      the second file. */
  lemma TwoMonoFiles(f: Recording, g: Recording, w: int, prev: Option<Recording>)
    requires w > 0
    requires |f.channels| == 1 && |g.channels| == 1
    ensures LoadedTracks([f, g], w)
            == [Align(f.channels[0], f.duration, w), Align(g.channels[0], g.duration, w)]
    ensures LastRead([f, g], prev) == Some(g)
  {
    assert [f, g][..1] == [f];
    assert [f][..0] == [];
    ChannelsSnoc([f, g], 1);
    assert Channels([f, g][..1]) == ChannelsOf(f);
  }

  /** `Overtalk`: the session object. */
  class Overtalk {
    /** `aw`: the analysis window in ticks, fixed at construction. */
    const w: Window
    /** `_bools`: one aligned track per loaded channel. */
    var tracks: seq<seq<bool>>
    /** `regionobj`: the detector's result for the file read last. */
    var region: Option<Recording>

    /** The session never holds more than two tracks. */
    ghost predicate Valid()
      reads this
    {
      |tracks| <= 2
    }

    constructor (window: Window)
      ensures Valid()
      ensures w == window && tracks == [] && region == None
    {
      w := window;
      tracks := [];
      region := None;
    }

    /** The interval loop of `load` for one channel, with its `offset` and
        `top` cursors, followed by the trailing pad. */
    method AlignChannel(ivs: seq<Interval>, duration: int) returns (bools: seq<bool>)
      ensures bools == Align(ivs, duration, w)
    {
      bools := [];
      var offset := 0;
      var top := RoundUp(duration, w);
      var i := 0;
      while i < |ivs|
        invariant 0 <= i <= |ivs|
        invariant offset == if i == 0 then 0 else RoundUp(ivs[i - 1].end, w)
        invariant top == FinalTop(ivs[..i], duration, w)
        invariant bools + Emitted(ivs[i..], offset, w) == Emitted(ivs, 0, w)
      {
        ghost var before := bools;
        var bottom := RoundDown(ivs[i].start, w);
        top := RoundUp(ivs[i].end, w);
        ghost var gap := Repeat(false, SliceCount(bottom - offset, w));
        ghost var run := Repeat(true, SliceCount(top - bottom, w));
        ghost var rest := Emitted(ivs[i + 1..], top, w);
        EmittedStep(ivs, i, offset, w);
        assert Span(ivs[i], offset, w) == gap + run;
        bools := bools + Repeat(false, SliceCount(bottom - offset, w));
        bools := bools + Repeat(true, SliceCount(top - bottom, w));
        AppendAssoc(before, gap, run);
        AppendAssoc(before, gap + run, rest);
        offset := top;
        i := i + 1;
      }
      assert ivs[..i] == ivs;
      assert ivs[i..] == [];
      assert bools == Emitted(ivs, 0, w);
      var end := RoundUp(duration, w);
      bools := bools + Repeat(false, SliceCount(end - top, w));
    }

    /** `load`: more than two files is an error that changes nothing;
        otherwise the old tracks are cleared and each channel, in file then
        channel order, is aligned until two tracks are held. */
    method Load(files: seq<Recording>) returns (status: Outcome<LoadError>)
      requires Valid()
      modifies this
      ensures Valid()
      ensures |files| > 2 ==> status == Fail(TooManyFiles)
                              && tracks == old(tracks) && region == old(region)
      ensures |files| <= 2 ==> status == Pass
                               && tracks == LoadedTracks(files, w)
                               && region == LastRead(files, old(region))
    {
      if |files| > 2 {
        return Fail(TooManyFiles);
      }
      tracks := [];
      for i := 0 to |files|
        invariant tracks == LoadedTracks(files[..i], w)
        invariant region == LastRead(files[..i], old(region))
      {
        LoadStep(files, i, w, old(region));
        if |tracks| == 2 {
          continue;
        }
        var f := files[i];
        region := Some(f);
        for ch := 0 to |f.channels|
          invariant tracks == FirstTwoTracks(Channels(files[..i]) + ChannelsOf(f)[..ch], w)
          invariant region == Some(f)
        {
          ChannelStep(Channels(files[..i]), f, ch, w);
          if |tracks| == 2 {
            continue;
          }
          var bools := AlignChannel(f.channels[ch], f.duration);
          tracks := tracks + [bools];
        }
        assert ChannelsOf(f)[..|f.channels|] == ChannelsOf(f);
      }
      assert files[..|files|] == files;
      status := Pass;
    }

    /** `overtalk`: ticks in which both channels are active, zipped to the
        shorter track; 0 with a single track (and with none). */
    function OvertalkTime(): (r: int)
      reads this
      requires Valid()
      ensures |tracks| < 2 ==> r == 0
      ensures |tracks| == 2 ==> r == w * BothTrue(tracks[0], tracks[1])
      ensures |tracks| == 2 ==> r <= w * CountTrue(tracks[0]) && r <= w * CountTrue(tracks[1])
    {
      if |tracks| == 1 then 0
      else if |tracks| == 0 then 0
      else
        OvertalkWithinTalk(tracks[0], tracks[1]);
        WindowsScale(BothTrue(tracks[0], tracks[1]), CountTrue(tracks[0]), w);
        WindowsScale(BothTrue(tracks[0], tracks[1]), CountTrue(tracks[1]), w);
        w * BothTrue(tracks[0], tracks[1])
    }

    /** `silence`: with one track, the ticks in which it is silent; with two,
        the zipped ticks in which both are silent. */
    function SilenceTime(): (r: int)
      reads this
      requires Valid()
      ensures |tracks| == 0 ==> r == 0
      ensures |tracks| == 1 ==> r == w * CountFalse(tracks[0])
      ensures |tracks| == 2 ==> r == w * BothFalse(tracks[0], tracks[1])
      ensures |tracks| == 2 ==> r <= w * CountFalse(tracks[0]) && r <= w * CountFalse(tracks[1])
    {
      if |tracks| == 1 then w * CountFalse(tracks[0])
      else if |tracks| == 0 then 0
      else
        SilenceWithinEach(tracks[0], tracks[1]);
        WindowsScale(BothFalse(tracks[0], tracks[1]), CountFalse(tracks[0]), w);
        WindowsScale(BothFalse(tracks[0], tracks[1]), CountFalse(tracks[1]), w);
        w * BothFalse(tracks[0], tracks[1])
    }

    /** `talktime`: each channel's own active ticks over its whole track; the
        second is absent unless two tracks are held; an error before any
        channel was loaded. */
    function TalkTime(): (r: Result<(int, Option<int>), QueryError>)
      reads this
      requires Valid()
      ensures r.Failure? <==> tracks == []
      ensures r.Success? ==> r.value.0 == w * CountTrue(tracks[0])
      ensures r.Success? ==> (r.value.1.Some? <==> |tracks| == 2)
      ensures r.Success? && r.value.1.Some? ==> r.value.1.value == w * CountTrue(tracks[1])
    {
      if tracks == [] then Failure(NothingLoaded)
      else
        var c1 := w * CountTrue(tracks[0]);
        var c2 := if |tracks| == 2 then Some(w * CountTrue(tracks[1])) else None;
        Success((c1, c2))
    }

    /** `duration`: the duration of the file read last; absent before any
        file is read, and when that file has no samples, since `regionobj`
        is then false. */
    function Duration(): (d: Option<int>)
      reads this
      ensures d.Some? <==> region.Some? && region.value.samples > 0
      ensures d.Some? ==> d.value == region.value.duration
    {
      if region.Some? && region.value.samples > 0 then Some(region.value.duration) else None
    }
  }

  lemma AppendAssoc<T>(a: seq<T>, b: seq<T>, c: seq<T>)
    ensures (a + b) + c == a + (b + c)
  {
  }

  lemma WindowsScale(a: nat, b: nat, w: int)
    requires w > 0 && a <= b
    ensures w * a <= w * b
  {
    assert w * b - w * a == w * (b - a);
  }

  /** With one track, overtalk is 0, the second talk time is absent, and
      talk plus silence is the whole track. */
  lemma SingleTrackSession(s: Overtalk)
    requires s.Valid() && |s.tracks| == 1
    ensures s.OvertalkTime() == 0
    ensures s.TalkTime().Success? && s.TalkTime().value.1 == None
    ensures s.TalkTime().value.0 + s.SilenceTime() == s.w * |s.tracks[0]|
  {
    var t := s.tracks[0];
    TalkPlusSilence(t);
    assert s.w * CountTrue(t) + s.w * CountFalse(t) == s.w * (CountTrue(t) + CountFalse(t));
  }

  /** With two tracks, overtalk, silence and one-sided talk partition the
      ticks of the shorter track. */
  lemma TwoTrackPartition(s: Overtalk)
    requires s.Valid() && |s.tracks| == 2
    ensures s.OvertalkTime() + s.SilenceTime() + s.w * ExactlyOne(s.tracks[0], s.tracks[1])
            == s.w * Min(|s.tracks[0]|, |s.tracks[1]|)
  {
    var a, b := s.tracks[0], s.tracks[1];
    PairPartition(a, b);
    WindowsAdd(s.w, BothTrue(a, b), BothFalse(a, b), ExactlyOne(a, b));
  }

  lemma WindowsAdd(w: int, x: int, y: int, z: int)
    ensures w * x + w * y + w * z == w * (x + y + z)
  {
  }

  /** Two identical tracks overtalk for exactly the first one's talk time. */
  lemma IdenticalTracksOvertalk(s: Overtalk)
    requires s.Valid() && |s.tracks| == 2 && s.tracks[0] == s.tracks[1]
    ensures s.TalkTime().Success?
    ensures s.OvertalkTime() == s.TalkTime().value.0
  {
    SelfOverlap(s.tracks[0]);
  }
}
