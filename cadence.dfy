/** The two cadence rules inside the transfer loop
    (video-tools/video.py:151-161): a status line every S clock ticks and a
    preview every P frames. Each is given as the record sequence it produces
    over a prefix of the run, frame by frame. */
module Cadence {
  import opened Wrappers
  import opened Arguments

  /** A status line: ticks since the start, and the number of frames counted
      before the current one (the counter is incremented after the report). */
  datatype StatusRecord = StatusRecord(elapsed: int, imagesProcessed: nat)

  /** The last status tick and the status lines emitted so far. */
  datatype StatusState = StatusState(last: int, records: seq<StatusRecord>)

  /** A previewed frame with its global 0-based index. */
  datatype PreviewRecord<F> = PreviewRecord(index: nat, frame: F)

  /** `_status and (current_time - last_status_time) > _status`: the test is
      truthiness, so a negative interval is as good as a positive one. */
  predicate StatusFires(s: Option<int>, last: int, current: int)
  {
    Enabled(s) && current - last > s.value
  }

  /** `_preview and total_image_count % _preview == 0`. */
  predicate PreviewFires(p: Option<int>, k: nat)
  {
    Enabled(p) && k % p.value == 0
  }

  /** One frame's status step, at global frame index `k` and clock reading `current`. */
  function StatusStep(s: Option<int>, start: int, st: StatusState, k: nat, current: int): StatusState
  {
    if StatusFires(s, st.last, current)
    then StatusState(current, st.records + [StatusRecord(current - start, k)])
    else st
  }

  /** The status state after the frames whose clock readings are `ticks`. */
  function StatusRun(s: Option<int>, start: int, ticks: seq<int>): StatusState
    decreases |ticks|
  {
    if ticks == [] then StatusState(start, [])
    else StatusStep(s, start, StatusRun(s, start, ticks[..|ticks| - 1]), |ticks| - 1, ticks[|ticks| - 1])
  }

  /** The previews shown while the frames `frames` pass, in order. */
  function PreviewRun<F>(p: Option<int>, frames: seq<F>): seq<PreviewRecord<F>>
    decreases |frames|
  {
    if frames == [] then []
    else
      var k := |frames| - 1;
      PreviewRun(p, frames[..k]) + (if PreviewFires(p, k) then [PreviewRecord(k, frames[k])] else [])
  }

  // ---------------------------------------------------------------------------
  // Status cadence

  /** The clock reading a status decision is measured against: the start for
      the first line, the previous line's reading after that. */
  function Anchor(start: int, recs: seq<StatusRecord>, j: nat): int
    requires j <= |recs|
  {
    if j == 0 then start else start + recs[j - 1].elapsed
  }

  /** Each line carries its frame's index and the ticks since the start. */
  ghost predicate LinesAtFrames(start: int, ticks: seq<int>, recs: seq<StatusRecord>)
  {
    forall j :: 0 <= j < |recs| ==>
      recs[j].imagesProcessed < |ticks| && recs[j].elapsed == ticks[recs[j].imagesProcessed] - start
  }

  /** Lines are in frame order, at most one per frame. */
  ghost predicate LinesInOrder(recs: seq<StatusRecord>)
  {
    forall i, j :: 0 <= i < j < |recs| ==> recs[i].imagesProcessed < recs[j].imagesProcessed
  }

  /** Each line's reading exceeds its anchor by more than S. */
  ghost predicate LinesSpaced(s: Option<int>, start: int, recs: seq<StatusRecord>)
  {
    forall j {:trigger Anchor(start, recs, j)} :: 0 <= j < |recs| ==>
      StatusFires(s, Anchor(start, recs, j), start + recs[j].elapsed)
  }

  /** The frame of the line before gap `j` (-1 for the gap before the first line). */
  function GapFrom(recs: seq<StatusRecord>, j: nat): int
    requires j <= |recs|
  {
    if j == 0 then -1 else recs[j - 1].imagesProcessed
  }

  /** The frame of the line after gap `j` (`n`, the frame count, after the last line). */
  function GapTo(recs: seq<StatusRecord>, j: nat, n: nat): int
    requires j <= |recs|
  {
    if j == |recs| then n else recs[j].imagesProcessed
  }

  /** No frame strictly inside a gap between lines exceeded the anchor in force there. */
  ghost predicate NoLineMissed(s: Option<int>, start: int, ticks: seq<int>, recs: seq<StatusRecord>)
  {
    forall j, k {:trigger Anchor(start, recs, j), ticks[k]} :: 0 <= j <= |recs| && 0 <= k < |ticks|
      && GapFrom(recs, j) < k < GapTo(recs, j, |ticks|)
      ==> !StatusFires(s, Anchor(start, recs, j), ticks[k])
  }

  /** `recs` is the greedy schedule over `ticks`: each line is at a frame whose
      reading exceeds its anchor by more than S, lines are in frame order, and
      no frame between two lines (or before the first, or after the last)
      exceeded the anchor then in force. */
  ghost predicate GreedySchedule(s: Option<int>, start: int, ticks: seq<int>, recs: seq<StatusRecord>)
  {
    && LinesAtFrames(start, ticks, recs)
    && LinesInOrder(recs)
    && LinesSpaced(s, start, recs)
    && NoLineMissed(s, start, ticks, recs)
  }

  /** Appending a line leaves the anchors and gap ends of earlier gaps alone. */
  lemma AppendLineGaps(start: int, recs: seq<StatusRecord>, line: StatusRecord, n: nat)
    ensures forall j :: 0 <= j <= |recs| ==> Anchor(start, recs + [line], j) == Anchor(start, recs, j)
    ensures forall j :: 0 <= j <= |recs| ==> GapFrom(recs + [line], j) == GapFrom(recs, j)
    ensures forall j :: 0 <= j < |recs| ==> GapTo(recs + [line], j, n + 1) == GapTo(recs, j, n)
    ensures GapTo(recs + [line], |recs|, n + 1) == line.imagesProcessed
    ensures GapFrom(recs + [line], |recs| + 1) == line.imagesProcessed
  {
  }

  /** A frame that emits a line keeps the schedule greedy. */
  lemma GreedyStepFires(s: Option<int>, start: int, ticks: seq<int>, recs: seq<StatusRecord>, c: int)
    requires GreedySchedule(s, start, ticks, recs)
    requires StatusFires(s, Anchor(start, recs, |recs|), c)
    ensures GreedySchedule(s, start, ticks + [c], recs + [StatusRecord(c - start, |ticks|)])
  {
    var n := |ticks|;
    var t := ticks + [c];
    var line := StatusRecord(c - start, n);
    var r := recs + [line];
    var m := |recs|;
    AppendLineGaps(start, recs, line, n);
    assert LinesAtFrames(start, t, r) by {
      forall j | 0 <= j < |r|
        ensures r[j].imagesProcessed < |t| && r[j].elapsed == t[r[j].imagesProcessed] - start
      {
        if j < m { assert r[j] == recs[j]; }
      }
    }
    assert LinesInOrder(r) by {
      forall i, j | 0 <= i < j < |r| ensures r[i].imagesProcessed < r[j].imagesProcessed {
        assert r[i] == recs[i];
        if j < m { assert r[j] == recs[j]; }
      }
    }
    assert LinesSpaced(s, start, r) by {
      forall j | 0 <= j < |r| ensures StatusFires(s, Anchor(start, r, j), start + r[j].elapsed) {
        if j < m { assert r[j] == recs[j]; }
      }
    }
    assert NoLineMissed(s, start, t, r) by {
      forall j, k | 0 <= j <= |r| && 0 <= k < |t| && GapFrom(r, j) < k < GapTo(r, j, |t|)
        ensures !StatusFires(s, Anchor(start, r, j), t[k])
      {
        if j < |r| {
          assert k < n && t[k] == ticks[k];
          assert GapFrom(recs, j) < k < GapTo(recs, j, n);
        }
      }
    }
  }

  /** A frame that emits nothing keeps the schedule greedy. */
  lemma GreedyStepQuiet(s: Option<int>, start: int, ticks: seq<int>, recs: seq<StatusRecord>, c: int)
    requires GreedySchedule(s, start, ticks, recs)
    requires !StatusFires(s, Anchor(start, recs, |recs|), c)
    ensures GreedySchedule(s, start, ticks + [c], recs)
  {
    var n := |ticks|;
    var t := ticks + [c];
    assert LinesAtFrames(start, t, recs) by {
      forall j | 0 <= j < |recs|
        ensures recs[j].imagesProcessed < |t| && recs[j].elapsed == t[recs[j].imagesProcessed] - start
      {
        assert t[recs[j].imagesProcessed] == ticks[recs[j].imagesProcessed];
      }
    }
    forall j, k | 0 <= j <= |recs| && 0 <= k < |t| && GapFrom(recs, j) < k < GapTo(recs, j, |t|)
      ensures !StatusFires(s, Anchor(start, recs, j), t[k])
    {
      if k == n {
        assert j == |recs|;
      } else if j == |recs| {
        assert t[k] == ticks[k];
      } else {
        assert t[k] == ticks[k];
        assert GapTo(recs, j, |t|) == GapTo(recs, j, n);
      }
    }
  }

  /** One more frame, with reading `c`, keeps the schedule greedy and the
      last status tick on the last line. */
  lemma GreedyStep(s: Option<int>, start: int, prev: seq<int>, st: StatusState, c: int, ticks: seq<int>)
    requires GreedySchedule(s, start, prev, st.records)
    requires st.last == Anchor(start, st.records, |st.records|)
    requires ticks == prev + [c]
    ensures GreedySchedule(s, start, ticks, StatusStep(s, start, st, |prev|, c).records)
    ensures StatusStep(s, start, st, |prev|, c).last
         == Anchor(start, StatusStep(s, start, st, |prev|, c).records, |StatusStep(s, start, st, |prev|, c).records|)
  {
    if StatusFires(s, st.last, c) {
      GreedyStepFires(s, start, prev, st.records, c);
    } else {
      GreedyStepQuiet(s, start, prev, st.records, c);
    }
  }

  /** The status lines the loop emits are exactly the greedy schedule, and the
      last status tick is the reading of the last line (the start if none). */
  lemma {:induction false} StatusRunIsGreedy(s: Option<int>, start: int, ticks: seq<int>)
    ensures GreedySchedule(s, start, ticks, StatusRun(s, start, ticks).records)
    ensures StatusRun(s, start, ticks).last
         == Anchor(start, StatusRun(s, start, ticks).records, |StatusRun(s, start, ticks).records|)
    decreases |ticks|
  {
    if ticks != [] {
      var n := |ticks| - 1;
      assert ticks[..n] + [ticks[n]] == ticks;
      StatusRunIsGreedy(s, start, ticks[..n]);
      GreedyStep(s, start, ticks[..n], StatusRun(s, start, ticks[..n]), ticks[n], ticks);
    }
  }

  /** Consecutive status lines are more than S ticks apart, and the first is
      more than S ticks after the start. */
  lemma StatusLinesSpaced(s: Option<int>, start: int, ticks: seq<int>)
    ensures var recs := StatusRun(s, start, ticks).records;
      && (recs != [] ==> Enabled(s) && recs[0].elapsed > s.value)
      && (forall j :: 0 < j < |recs| ==> recs[j].elapsed - recs[j - 1].elapsed > s.value)
  {
    var recs := StatusRun(s, start, ticks).records;
    StatusRunIsGreedy(s, start, ticks);
    if recs != [] {
      assert StatusFires(s, Anchor(start, recs, 0), start + recs[0].elapsed);
    }
    forall j | 0 < j < |recs| ensures recs[j].elapsed - recs[j - 1].elapsed > s.value {
      assert StatusFires(s, Anchor(start, recs, j), start + recs[j].elapsed);
    }
  }

  /** With the interval unset or zero no status line is ever emitted. */
  lemma {:induction false} StatusDisabled(s: Option<int>, start: int, ticks: seq<int>)
    requires !Enabled(s)
    ensures StatusRun(s, start, ticks).records == []
    ensures StatusRun(s, start, ticks).last == start
    decreases |ticks|
  {
    if ticks != [] {
      StatusDisabled(s, start, ticks[..|ticks| - 1]);
    }
  }

  /** The interval is tested for truthiness only: a negative interval on a
      clock that never runs backwards emits a status line at every frame. */
  lemma {:induction false} StatusEveryFrame(s: Option<int>, start: int, ticks: seq<int>)
    requires Enabled(s) && s.value < 0
    requires ticks != [] ==> start <= ticks[0]
    requires forall i, j :: 0 <= i <= j < |ticks| ==> ticks[i] <= ticks[j]
    ensures |StatusRun(s, start, ticks).records| == |ticks|
    ensures forall j :: 0 <= j < |ticks| ==> StatusRun(s, start, ticks).records[j].imagesProcessed == j
    ensures ticks != [] ==> StatusRun(s, start, ticks).last == ticks[|ticks| - 1]
    decreases |ticks|
  {
    if ticks != [] {
      var n := |ticks| - 1;
      StatusEveryFrame(s, start, ticks[..n]);
      var st := StatusRun(s, start, ticks[..n]);
      assert st.last <= ticks[n] by {
        if n > 0 { assert st.last == ticks[..n][n - 1] == ticks[n - 1]; }
      }
      assert StatusFires(s, st.last, ticks[n]);
    }
  }

  // ---------------------------------------------------------------------------
  // Preview cadence

  /** Each preview shows the frame at its index, which passes the preview test. */
  ghost predicate PreviewsAtFrames<F>(p: Option<int>, frames: seq<F>, recs: seq<PreviewRecord<F>>)
  {
    forall j :: 0 <= j < |recs| ==>
      recs[j].index < |frames| && recs[j].frame == frames[recs[j].index] && PreviewFires(p, recs[j].index)
  }

  /** Previews are in index order, at most one per frame. */
  ghost predicate PreviewsInOrder<F>(recs: seq<PreviewRecord<F>>)
  {
    forall i, j :: 0 <= i < j < |recs| ==> recs[i].index < recs[j].index
  }

  /** Every frame that passes the preview test is previewed. */
  ghost predicate PreviewsComplete<F>(p: Option<int>, frames: seq<F>, recs: seq<PreviewRecord<F>>)
  {
    forall k :: 0 <= k < |frames| && PreviewFires(p, k) ==> exists j :: 0 <= j < |recs| && recs[j].index == k
  }

  /** `recs` lists exactly the frames of `frames` that pass the preview test, in order. */
  ghost predicate PreviewFilter<F>(p: Option<int>, frames: seq<F>, recs: seq<PreviewRecord<F>>)
  {
    PreviewsAtFrames(p, frames, recs) && PreviewsInOrder(recs) && PreviewsComplete(p, frames, recs)
  }

  /** One more frame keeps the previews an exact filter. */
  lemma PreviewFilterStep<F>(p: Option<int>, frames: seq<F>, recs: seq<PreviewRecord<F>>, f: F)
    requires PreviewFilter(p, frames, recs)
    ensures PreviewFilter(p, frames + [f],
      recs + (if PreviewFires(p, |frames|) then [PreviewRecord(|frames|, f)] else []))
  {
    var n := |frames|;
    var t := frames + [f];
    var r := recs + (if PreviewFires(p, n) then [PreviewRecord(n, f)] else []);
    assert forall j :: 0 <= j < |recs| ==> r[j] == recs[j];
    assert PreviewsAtFrames(p, t, r) by {
      forall j | 0 <= j < |r|
        ensures r[j].index < |t| && r[j].frame == t[r[j].index] && PreviewFires(p, r[j].index)
      {
        if j < |recs| {
          assert t[recs[j].index] == frames[recs[j].index];
        }
      }
    }
    assert PreviewsInOrder(r);
    assert PreviewsComplete(p, t, r) by {
      forall k | 0 <= k < |t| && PreviewFires(p, k)
        ensures exists j :: 0 <= j < |r| && r[j].index == k
      {
        if k == n {
          assert r[|recs|].index == k;
        } else {
          var j :| 0 <= j < |recs| && recs[j].index == k;
          assert r[j].index == k;
        }
      }
    }
  }

  /** The previews are exactly the frames whose global index passes the
      preview test, each with its own frame, in index order. */
  lemma {:induction false} PreviewRunFilter<F>(p: Option<int>, frames: seq<F>)
    ensures PreviewFilter(p, frames, PreviewRun(p, frames))
    decreases |frames|
  {
    if frames != [] {
      var n := |frames| - 1;
      assert frames[..n] + [frames[n]] == frames;
      PreviewRunFilter(p, frames[..n]);
      PreviewFilterStep(p, frames[..n], PreviewRun(p, frames[..n]), frames[n]);
    }
  }

  /** With the interval unset or zero nothing is previewed. */
  lemma {:induction false} PreviewDisabled<F>(p: Option<int>, frames: seq<F>)
    requires !Enabled(p)
    ensures PreviewRun(p, frames) == []
    decreases |frames|
  {
    if frames != [] {
      PreviewDisabled(p, frames[..|frames| - 1]);
    }
  }

  /** Sign of a product with a positive factor. */
  lemma ProductSign(a: int, P: int)
    requires P > 0
    ensures a > 0 ==> a * P > 0
    ensures a <= 0 ==> a * P <= 0
  {
  }

  /** Counting step of the preview schedule: if the m previews so far cover
      the n frames so far, the (n + 1)-th frame adds a preview exactly when it
      is a multiple of P, and the cover still holds. */
  lemma ScheduleStep(n: nat, m: nat, P: int)
    requires P > 0
    requires n <= m * P
    requires m == 0 || (m - 1) * P < n
    ensures n % P == 0 ==> n == m * P && n + 1 <= (m + 1) * P
    ensures n % P != 0 ==> n + 1 <= m * P
  {
    var q, r := n / P, n % P;
    assert n == q * P + r && 0 <= r < P;
    assert (m - q) * P == m * P - q * P;
    assert (m + 1) * P == m * P + P;
    if r == 0 {
      ProductSign(q - m, P);
      assert (q - m) * P == q * P - m * P;
      if m > 0 {
        assert (q - (m - 1)) * P == q * P - (m - 1) * P;
        ProductSign(q - (m - 1), P);
      }
      assert q == m;
    } else {
      ProductSign(m - q, P);
      assert (m - q) * P >= r;
      assert m - q >= 1;
      ProductSign(m - q - 1, P);
      assert (m - q - 1) * P == (m - q) * P - P;
    }
  }

  /** With a positive interval P the previewed indices are 0, P, 2P, ... and
      every multiple of P below the frame count is among them. */
  lemma {:induction false} PreviewSchedule<F>(p: Option<int>, frames: seq<F>)
    requires Enabled(p) && p.value > 0
    ensures forall j :: 0 <= j < |PreviewRun(p, frames)| ==> PreviewRun(p, frames)[j].index == j * p.value
    ensures |frames| <= |PreviewRun(p, frames)| * p.value
    ensures PreviewRun(p, frames) != [] ==> (|PreviewRun(p, frames)| - 1) * p.value < |frames|
    decreases |frames|
  {
    var P := p.value;
    if frames != [] {
      var n := |frames| - 1;
      PreviewSchedule(p, frames[..n]);
      var before := PreviewRun(p, frames[..n]);
      var m := |before|;
      ScheduleStep(n, m, P);
    }
  }
}
