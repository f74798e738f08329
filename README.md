# Overtalk, modelled in Dafny

This project models the core of `overtalk`. The `Overtalk` class measures how
long the two parties of a recording spoke at once (overtalk), how long neither
spoke (silence) and how long each one spoke (talk time). The input is one
stereo WAV file or up to two mono files. The class has two parts:

- The **aligner** is the body of `load`. An external speech detector reports
  ordered speech intervals for each channel. The aligner turns them into one
  boolean per analysis window. It rounds each start down and each end up to a
  window boundary. It emits the silent gap as `False`s and the active span as
  `True`s. It then pads with `False`s up to the rounded-up duration. `load`
  also keeps the session's track list. It refuses more than two files, clears
  the old tracks, and keeps at most two tracks, in file order and then channel
  order.
- The **aggregator** is the `overtalk`, `silence` and `talktime` properties.
  They count windows in one track, or in two tracks zipped together.

Time is measured in integer ticks. The analysis window `w` is a positive
number of ticks. So `rounddown(x) = (x / w) * w`, `roundup(x) = ceil(x / w) * w`,
and every slice count is an exact quotient. The source's
`range(int(d / aw))` is `Rounding.SliceCount`. It yields no slices when `d`
is not positive, just as a Python `range` of a negative number is empty.
Results in seconds become results in ticks, that is slice counts times `w`.

Files:

- `rounding.dfy` (module `Rounding`): `rounddown`, `roundup`, and slice counts.
- `aligner.dfy` (module `Aligner`): the alignment of one channel as a
  specification function `Align`, with its length, coverage and edge-case
  lemmas.
- `aggregator.dfy` (module `Aggregator`): the window counts and their algebra.
- `session.dfy` (module `Session`): the class `Overtalk`. It has the fields
  `w` (`aw`), `tracks` (`_bools`) and `region` (`regionobj`). `Load` is the
  imperative method. `AlignChannel` holds the interval loop with its `offset`
  and `top` cursors. The properties are functions that read the object.

Behaviour of the code a reader might not expect:

- A channel with no speech intervals gives an empty track, not an all-`False`
  one. `top` starts at the rounded-up duration, so the trailing pad
  `end - top` is zero (`Aligner.NoIntervalsEmptyTrack`).
- Intervals that are out of order, or that round into a shared window, are
  not rejected. The negative gap emits nothing and the full rounded span is
  still emitted, so the track grows longer than the duration
  (`Aligner.NegativeGapEmitsNothing`, `Aligner.SharedWindowLengthensTrack`).
  The length and coverage theorems therefore assume the separation as a
  precondition.
- The trailing pad is measured from `top`, not from `offset`.

## Model

| member | source | states |
|---|---|---|
| `Rounding.RoundDown` | overtalk.py:150-159 | the result is a multiple of `w`, at most `x`, and less than one window below `x` |
| `Rounding.RoundUp` | overtalk.py:161-170 | the result is a multiple of `w`, at least `x`, and less than one window above `x` |
| `Rounding.CeilDiv` | overtalk.py:170 | the result is the least `q` with `x <= q*w`, i.e. `math.ceil(x / w)` |
| `Rounding.SliceCount` | overtalk.py:67-71 | a span of at most 0 ticks yields no slices; otherwise the count is the number of whole windows in the span |
| `Rounding.SliceCountOfMultiples` | overtalk.py:67-76 | between two window boundaries the count is the number of windows between them, or 0 when the span is negative |
| `Rounding.RoundingMonotone` | overtalk.py:150-170 | rounding down and rounding up are monotone, and rounding `x` down never passes rounding any `y >= x` up |
| `Aligner.Repeat` | overtalk.py:67-76 | the `[b for x in range(n)]` comprehensions: exactly `n` slices, each equal to `b` |
| `Aligner.Span` | overtalk.py:65-72 | reference definition of what one interval appends (the gap as `False`s, then the rounded span as `True`s), against which `Emitted`, `SpanShape` and `NegativeGapEmitsNothing` are stated |
| `Aligner.SpanHasSpeech` | overtalk.py:66-72 | a nonempty interval, rounded outward, spans at least one window |
| `Aligner.SpanShape` | overtalk.py:65-72 | within one interval's slices no `False` follows a `True`, a gap behind the cursor emits only `True`s, and a nonempty interval ends in a `True` slice |
| `Aligner.Emitted` | overtalk.py:64-73 | reference definition of the interval loop with its `offset` cursor, against which `EmittedLength`, `EmittedAt`, `EmittedPerInterval` and `AlignChannel`'s loop invariant are stated |
| `Aligner.EmittedPerInterval` | overtalk.py:64-73 | every nonempty interval contributes at least one slice to the loop's output |
| `Aligner.FinalTop` | overtalk.py:59-66 | reference definition of `top` after the loop, against which `FinalTopBounds` and `AlignChannel`'s loop invariant are stated |
| `Aligner.FinalTopBounds` | overtalk.py:59-66 | the final `top` is a window boundary less than one window past the duration (no intervals) or past the last interval's end |
| `Aligner.Align` | overtalk.py:57-76 | reference definition of one channel's track, against which `AlignChannel`, `AlignLength`, `AlignAt`, `NeverUnderReported` and `NoIntervalsEmptyTrack` are stated |
| `Aligner.AlignLength` | overtalk.py:57-76 | for separated intervals that start at or after 0 and whose last rounded end fits in the rounded duration, the track has `roundup(duration) / w` slices |
| `Aligner.AlignAt` | overtalk.py:64-76 | under the same conditions, slice `i` is `True` exactly when window `[i*w, (i+1)*w)` lies inside `[rounddown(start), roundup(end))` of some interval |
| `Aligner.NeverUnderReported` | overtalk.py:64-73 | under the same conditions, every window that overlaps an interval is inside the track and is `True` |
| `Aligner.SeparatedChain` | overtalk.py:64-73 | for separated intervals, each rounded end is at or before every later rounded start |
| `Aligner.EmittedLength` | overtalk.py:64-73 | for separated intervals, with the cursor on a window boundary at or before the first start, the interval loop emits slices up to the last rounded end |
| `Aligner.EmittedAt` | overtalk.py:64-73 | for separated intervals, each slice the interval loop emits is `True` exactly when some interval covers that window |
| `Aligner.EmittedStep` | overtalk.py:64-73 | one pass of the interval loop appends that interval's gap and span, then continues from its rounded-up end |
| `Aligner.EmittedByWindows` | overtalk.py:64-73 | with the cursor on a window boundary, the loop's slices equal the same loop counted in whole windows, from each interval's first window to one past its last |
| `Aligner.CellsAt` | overtalk.py:64-73 | in the window-count form, for spans in order that do not overlap, a slice is `True` exactly when some span holds its window |
| `Aligner.NoIntervalsEmptyTrack` | overtalk.py:57-76 | a channel with no intervals yields an empty track |
| `Aligner.NegativeGapEmitsNothing` | overtalk.py:65-73 | an interval whose rounded start lies before the cursor emits no gap, still emits its whole rounded span, and moves the cursor to its rounded end |
| `Aligner.SharedWindowLengthensTrack` | overtalk.py:64-76 | with `w = 10` and duration 20, intervals `[0,5)` and `[6,15)` give three slices where the duration has two windows |
| `Aligner.ExampleTrack` | overtalk.py:57-76 | speech from 25 to 45 ticks in 100 ticks with `w = 10` gives `[F,F,T,T,T,F,F,F,F,F]` |
| `Aggregator.CountTrue` | overtalk.py:125 | a channel's talk count never exceeds its track length |
| `Aggregator.BothTrue` | overtalk.py:100 | the overtalk count never exceeds the length of either track |
| `Aggregator.CountFalse` | overtalk.py:112 | a channel's silence count never exceeds its track length |
| `Aggregator.BothFalse` | overtalk.py:114 | the zipped both-silent count never exceeds the length of either track |
| `Aggregator.TalkPlusSilence` | overtalk.py:112-125 | one track's talk count plus its silence count is its length |
| `Aggregator.PairPartition` | overtalk.py:100-114 | overtalk + joint silence + one-sided talk = the length of the shorter track |
| `Aggregator.OvertalkSymmetric` | overtalk.py:100 | overtalk does not depend on the channel order |
| `Aggregator.OvertalkWithinTalk` | overtalk.py:100-127 | overtalk is at most each channel's talk count |
| `Aggregator.SilenceWithinEach` | overtalk.py:112-114 | joint silence is at most each channel's silence count |
| `Aggregator.SelfOverlap` | overtalk.py:100-125 | a track zipped with itself overtalks for its talk count, is silent for its silence count, and is never one-sided |
| `Aggregator.ZipTruncates` | overtalk.py:100-114 | the pairwise counts see only the first `min(len1, len2)` windows |
| `Aggregator.ExampleCounts` | overtalk.py:90-130 | tracks `[T,F,T,F]` and `[T,T,F,F]` overtalk for 1 window, are silent for 1 window, and talk for 2 windows each |
| `Session.ChannelsOf` | overtalk.py:53 | one file gives one channel per channel index, in order, each with that channel's intervals and the file's duration |
| `Session.Channels` | overtalk.py:48-55 | reference definition of the channels a load visits, against which `ChannelOrder`, `MonoFilesChannels` and `Load` are stated |
| `Session.MonoFilesChannels` | overtalk.py:48-55 | mono files contribute exactly one channel each |
| `Session.FirstTwoTracks` | overtalk.py:49-77 | reference definition of the tracks kept from a list of channels, against which `FirstTwoTracksSnoc` and `FirstTwoTracksFull` are stated |
| `Session.LoadedTracks` | overtalk.py:42-77 | reference definition of the tracks a successful `Load` leaves, against which `Load`, `LoadedTracksShape` and the two-file lemmas are stated |
| `Session.LastRead` | overtalk.py:48-52 | reference definition of `regionobj` after a load, against which `Load` and `LastReadIsAFile` are stated |
| `Session.LastReadIsAFile` | overtalk.py:48-52 | after a load of at least one file, `regionobj` is one of the files given |
| `Session.ChannelOrder` | overtalk.py:48-55 | channel `c` of file `j` comes right after all channels of the earlier files: file order, then channel order |
| `Session.FirstTwoTracksSnoc` | overtalk.py:53-77 | a further channel adds its aligned track while fewer than two are held, and changes nothing once two are held |
| `Session.FirstTwoTracksFull` | overtalk.py:48-55 | once two channels are held, further files and channels leave the tracks unchanged |
| `Session.LoadedTracksShape` | overtalk.py:42-77 | a load keeps `min(channels, 2)` tracks, and track `i` is the alignment of channel `i` |
| `Session.LoadedTrackOfChannel` | overtalk.py:48-77 | channel `c` of file `j` gets a track exactly when fewer than two channels precede it in file-then-channel order, and that track sits right after the earlier files' tracks and is the alignment of that channel |
| `Session.StereoThenMonoSkipsMono` | overtalk.py:48-55 | after a stereo file, a mono file is skipped unread: both tracks come from the stereo file, which stays `regionobj` |
| `Session.TwoMonoFiles` | overtalk.py:48-77 | two mono files give one track each, in argument order, and `regionobj` is the second file |
| `Session.Overtalk.constructor` | overtalk.py:28-31 | a new session holds no tracks and no recording |
| `Session.Overtalk.AlignChannel` | overtalk.py:57-76 | the cursor loop and trailing pad compute exactly `Align` of the channel's intervals and duration |
| `Session.Overtalk.Load` | overtalk.py:42-77 | more than two files fails and changes nothing; otherwise the tracks become the first two channels aligned, `regionobj` the last file read, and at most two tracks are held |
| `Session.LoadStep` | overtalk.py:48-52 | one file of the outer loop: with two tracks held it is skipped and neither the tracks nor `regionobj` change; otherwise `regionobj` becomes that file and its channels are offered after the earlier ones |
| `Session.ChannelStep` | overtalk.py:53-77 | one channel of the inner loop: its track is appended while fewer than two are held, and nothing changes afterwards |
| `Session.Overtalk.OvertalkTime` | overtalk.py:90-101 | 0 with fewer than two tracks; otherwise `w` times the zipped both-active count, at most each channel's talk time |
| `Session.Overtalk.SilenceTime` | overtalk.py:103-115 | with one track, `w` times its `False` count; with two, `w` times the zipped both-silent count, at most each channel's silence |
| `Session.Overtalk.TalkTime` | overtalk.py:117-130 | fails exactly when nothing is loaded; the first value is track 1's talk time; the second is present exactly when there are two tracks |
| `Session.Overtalk.Duration` | overtalk.py:141-148 | absent before any file is read and when the file read last has no samples (a false `regionobj`); otherwise that file's duration |
| `Session.SingleTrackSession` | overtalk.py:98-130 | with one track, overtalk is 0, the second talk time is absent, and talk time plus silence is the whole track |
| `Session.TwoTrackPartition` | overtalk.py:98-114 | with two tracks, overtalk + silence + one-sided talk = `w` times the shorter track's length |
| `Session.IdenticalTracksOvertalk` | overtalk.py:98-127 | two identical tracks overtalk for exactly the first channel's talk time |

## Left out

- The speech detector (`auditok.load`, `auditok.split`) and WAV decoding
  are a foreign library. The model takes, per file, a `Recording` with the
  length in samples, the duration in ticks and the speech intervals of each
  channel. So the channel
  count is the number of interval lists. The detector options in `kwargs`
  are passed through opaquely and are not modelled.
- Floating point is not modelled. Time is integer ticks, so there is no
  `int()` truncation of inexact float quotients (2.9999 becomes 2). The
  multiplication by `aw` at the end is a multiplication by `w` ticks. The
  default window of 0.05 s has no tick equivalent: the constructor takes the
  window.
- The `sr` property is not modelled. It passes the detector's sampling rate
  through. `regionobj` is kept only for `duration`.
- The `bools` property is not a separate member. It returns `_bools`, which is
  the field `tracks`. The source hands out the live list, so a caller can
  share it and change it, for example append a third track. The value field
  `tracks` does not capture that aliasing.
- Session.Overtalk.constructor: takes a `Window`, a positive number of ticks.
  The source accepts `analysis_window <= 0`; `load` then fails with
  `ZeroDivisionError` (overtalk.py:59, 159) or rounds the wrong way. Those
  windows are not modelled.
- The command-line block (`__main__`) is not modelled. It parses arguments,
  prints and exits. `setup.py` is packaging metadata and is not modelled
  either.
- Python's errors are modelled as values. The `ValueError` for more than two
  files is `Fail(TooManyFiles)`. The `IndexError` of `talktime` with no tracks
  is `Failure(NothingLoaded)`.
- Concurrent use of a session is not modelled. The source is single-threaded.
