/** The concatenation run (`process`, video-tools/video.py:113-165): probe the
    first input, open the writer, then copy every frame of every input, in
    list order, to the writer, with the status and preview cadences
    interleaved. Frames are opaque values of type `F`; the clock is a
    supplied start reading plus one reading per frame. */
module Concat {
  import opened Wrappers
  import opened Arguments
  import opened Negotiation
  import opened Cadence
  import opened Resources

  /** An input file: its metadata record and its frames in decode order. */
  datatype Input<F> = Input(meta: Metadata, frames: seq<F>)

  /** The frames of all inputs, input after input. */
  function Flatten<F>(inputs: seq<Input<F>>): seq<F>
    decreases |inputs|
  {
    if inputs == [] then []
    else Flatten(inputs[..|inputs| - 1]) + inputs[|inputs| - 1].frames
  }

  /** The sum of the inputs' frame counts. */
  function TotalFrames<F>(inputs: seq<Input<F>>): nat
    decreases |inputs|
  {
    if inputs == [] then 0
    else TotalFrames(inputs[..|inputs| - 1]) + |inputs[|inputs| - 1].frames|
  }

  /** The concatenation holds exactly as many frames as the inputs together. */
  lemma {:induction false} FlattenLength<F>(inputs: seq<Input<F>>)
    ensures |Flatten(inputs)| == TotalFrames(inputs)
    decreases |inputs|
  {
    if inputs != [] {
      FlattenLength(inputs[..|inputs| - 1]);
    }
  }

  /** The inputs before position `i` hold no more frames than all of them. */
  lemma {:induction false} TotalFramesPrefix<F>(inputs: seq<Input<F>>, i: nat)
    requires i <= |inputs|
    ensures TotalFrames(inputs[..i]) <= TotalFrames(inputs)
    decreases |inputs|
  {
    if i == |inputs| {
      assert inputs[..i] == inputs;
    } else {
      var n := |inputs| - 1;
      assert inputs[..n][..i] == inputs[..i];
      TotalFramesPrefix(inputs[..n], i);
    }
  }

  /** Frame `m` of input `i` sits at global index (frames of the earlier
      inputs) + m of the concatenation: nothing is skipped, repeated or
      reordered. */
  lemma {:induction false} FlattenAt<F>(inputs: seq<Input<F>>, i: nat, m: nat)
    requires i < |inputs| && m < |inputs[i].frames|
    ensures TotalFrames(inputs[..i]) + m < |Flatten(inputs)|
    ensures Flatten(inputs)[TotalFrames(inputs[..i]) + m] == inputs[i].frames[m]
    decreases |inputs|
  {
    var n := |inputs| - 1;
    FlattenLength(inputs[..n]);
    FlattenLength(inputs);
    if i == n {
      assert Flatten(inputs) == Flatten(inputs[..n]) + inputs[n].frames;
    } else {
      assert inputs[..n][..i] == inputs[..i];
      assert inputs[..n][i] == inputs[i];
      FlattenAt(inputs[..n], i, m);
    }
  }

  // ---------------------------------------------------------------------------
  // The event log of a run

  /** One append event per frame, in order. */
  function Appends<F>(frames: seq<F>): seq<Event<F>>
    decreases |frames|
  {
    if frames == [] then []
    else Appends(frames[..|frames| - 1]) + [FrameAppended(frames[|frames| - 1])]
  }

  /** Input `i` is opening, all its frames are appended, and it is closing. */
  function InputEvents<F>(i: nat, frames: seq<F>): seq<Event<F>>
  {
    [ReaderOpened(i)] + Appends(frames) + [ReaderClosed(i)]
  }

  /** The transfer section: every input in list order. */
  function TransferEvents<F>(inputs: seq<Input<F>>): seq<Event<F>>
    decreases |inputs|
  {
    if inputs == [] then []
    else TransferEvents(inputs[..|inputs| - 1]) + InputEvents(|inputs| - 1, inputs[|inputs| - 1].frames)
  }

  /** The probe of the first input. */
  function ProbeEvents<F>(): seq<Event<F>>
  {
    [ReaderOpened(0), ReaderClosed(0)]
  }

  /** The writer is opened with the negotiated frame rate, pixel format and
      codec; the size is not passed to it. */
  function WriterOpening<F>(p: Params): Event<F>
  {
    WriterOpened(p.framerate, p.pixelFormat, p.codec)
  }

  /** The log of a run that negotiates `p` successfully. */
  function RunEvents<F>(inputs: seq<Input<F>>, p: Params): seq<Event<F>>
  {
    ProbeEvents() + [WriterOpening(p)] + TransferEvents(inputs) + [WriterClosed]
  }

  /** The probe and the writer's opening: no frame yet, one reader opened and
      closed again, the writer open with the negotiated settings. */
  lemma Prelude<F>(p: Params)
    ensures var prelude: seq<Event<F>> := ProbeEvents() + [WriterOpening(p)];
      && Replay(Initial, prelude) == Some(Handles(None, Writing))
      && AppendedFrames(prelude) == []
      && OpenedReaders(prelude) == [0]
      && WriterSettings(prelude) == [(p.framerate, p.pixelFormat, p.codec)]
  {
    var e0: seq<Event<F>> := [ReaderOpened(0)];
    var e1: seq<Event<F>> := ProbeEvents();
    var e2: seq<Event<F>> := ProbeEvents() + [WriterOpening(p)];
    assert e2[..2] == e1 && e1[..1] == e0 && e0[..0] == [];
  }

  /** A one-event log, replayed and projected. */
  lemma Singleton<F>(e: Event<F>)
    ensures AppendedFrames([e]) == (if e.FrameAppended? then [e.frame] else [])
    ensures OpenedReaders([e]) == (if e.ReaderOpened? then [e.input] else [])
    ensures WriterSettings([e]) == (if e.WriterOpened? then [(e.framerate, e.pixelFormat, e.codec)] else [])
  {
    var es: seq<Event<F>> := [e];
    assert es[..0] == [];
  }

  lemma {:induction false} ReplayAppends<F>(i: nat, frames: seq<F>)
    ensures Replay(Handles(Some(i), Writing), Appends(frames)) == Some(Handles(Some(i), Writing))
    decreases |frames|
  {
    if frames != [] {
      ReplayAppends(i, frames[..|frames| - 1]);
    }
  }

  lemma ReplayInput<F>(i: nat, frames: seq<F>)
    ensures Replay(Handles(None, Writing), InputEvents(i, frames)) == Some(Handles(None, Writing))
  {
    var h := Handles(None, Writing);
    var opening: seq<Event<F>> := [ReaderOpened(i)];
    assert Replay(h, opening) == Some(Handles(Some(i), Writing)) by {
      assert opening[..0] == [];
    }
    ReplayConcat(h, opening, Appends(frames));
    ReplayAppends(i, frames);
    ReplayConcat(h, opening + Appends(frames), [ReaderClosed(i)]);
  }

  lemma {:induction false} ReplayTransfer<F>(inputs: seq<Input<F>>)
    ensures Replay(Handles(None, Writing), TransferEvents(inputs)) == Some(Handles(None, Writing))
    decreases |inputs|
  {
    if inputs != [] {
      var n := |inputs| - 1;
      ReplayTransfer(inputs[..n]);
      ReplayConcat(Handles(None, Writing), TransferEvents(inputs[..n]), InputEvents(n, inputs[n].frames));
      ReplayInput(n, inputs[n].frames);
    }
  }

  /** A successful run follows the resource protocol from start to finish:
      the probe reader is closing before the writer opens, the writer is opening
      once before any append and closing after the last input, and each
      reader is closing before the next is opening. */
  lemma RunFollowsProtocol<F>(inputs: seq<Input<F>>, p: Params)
    ensures Replay(Initial, RunEvents(inputs, p)) == Some(Handles(None, Finished))
  {
    var prelude: seq<Event<F>> := ProbeEvents() + [WriterOpening(p)];
    Prelude<F>(p);
    ReplayConcat(Initial, prelude, TransferEvents(inputs));
    ReplayTransfer(inputs);
    ReplayConcat(Initial, prelude + TransferEvents(inputs), [WriterClosed]);
  }

  lemma {:induction false} AppendsCarryFrames<F>(frames: seq<F>)
    ensures AppendedFrames(Appends(frames)) == frames
    ensures OpenedReaders(Appends(frames)) == []
    ensures WriterSettings(Appends(frames)) == []
    decreases |frames|
  {
    if frames != [] {
      var n := |frames| - 1;
      AppendsCarryFrames(frames[..n]);
      assert frames[..n] + [frames[n]] == frames;
    }
  }

  lemma InputEventsCarry<F>(i: nat, frames: seq<F>)
    ensures AppendedFrames(InputEvents(i, frames)) == frames
    ensures OpenedReaders(InputEvents(i, frames)) == [i]
    ensures WriterSettings(InputEvents(i, frames)) == []
  {
    var opening: seq<Event<F>> := [ReaderOpened(i)];
    var closing: seq<Event<F>> := [ReaderClosed(i)];
    assert opening[..0] == [] && closing[..0] == [];
    AppendsCarryFrames(frames);
    AppendedFramesConcat(opening, Appends(frames));
    AppendedFramesConcat(opening + Appends(frames), closing);
    OpenedReadersConcat(opening, Appends(frames));
    OpenedReadersConcat(opening + Appends(frames), closing);
    WriterSettingsConcat(opening, Appends(frames));
    WriterSettingsConcat(opening + Appends(frames), closing);
  }

  /** 0, 1, ..., n - 1. */
  function Indices(n: nat): seq<nat>
  {
    seq(n, k => k)
  }

  lemma {:induction false} TransferCarries<F>(inputs: seq<Input<F>>)
    ensures AppendedFrames(TransferEvents(inputs)) == Flatten(inputs)
    ensures OpenedReaders(TransferEvents(inputs)) == Indices(|inputs|)
    ensures WriterSettings(TransferEvents(inputs)) == []
    decreases |inputs|
  {
    if inputs != [] {
      var n := |inputs| - 1;
      TransferCarries(inputs[..n]);
      InputEventsCarry(n, inputs[n].frames);
      AppendedFramesConcat(TransferEvents(inputs[..n]), InputEvents(n, inputs[n].frames));
      OpenedReadersConcat(TransferEvents(inputs[..n]), InputEvents(n, inputs[n].frames));
      WriterSettingsConcat(TransferEvents(inputs[..n]), InputEvents(n, inputs[n].frames));
      assert Indices(n) + [n] == Indices(n + 1);
    }
  }

  /** The frames a successful run appends to the writer are the concatenation
      of the inputs' frames, in list order. */
  lemma RunAppendsInOrder<F>(inputs: seq<Input<F>>, p: Params)
    ensures AppendedFrames(RunEvents(inputs, p)) == Flatten(inputs)
  {
    var prelude: seq<Event<F>> := ProbeEvents() + [WriterOpening(p)];
    Prelude<F>(p);
    TransferCarries(inputs);
    AppendedFramesConcat(prelude, TransferEvents(inputs));
    AppendedFramesConcat(prelude + TransferEvents(inputs), [WriterClosed]);
    Singleton<F>(WriterClosed);
  }

  /** Readers are opening for the first input (the probe) and then for every
      input once, in list order; only the first input is probed. */
  lemma RunReadersInOrder<F>(inputs: seq<Input<F>>, p: Params)
    ensures OpenedReaders(RunEvents(inputs, p)) == [0] + Indices(|inputs|)
  {
    var prelude: seq<Event<F>> := ProbeEvents() + [WriterOpening(p)];
    Prelude<F>(p);
    TransferCarries(inputs);
    OpenedReadersConcat(prelude, TransferEvents(inputs));
    OpenedReadersConcat(prelude + TransferEvents(inputs), [WriterClosed]);
    Singleton<F>(WriterClosed);
  }

  /** A successful run opens the writer exactly once, with the negotiated
      frame rate, pixel format and codec. */
  lemma RunOpensWriterWith<F>(inputs: seq<Input<F>>, p: Params)
    ensures WriterSettings(RunEvents(inputs, p)) == [(p.framerate, p.pixelFormat, p.codec)]
  {
    var prelude: seq<Event<F>> := ProbeEvents() + [WriterOpening(p)];
    Prelude<F>(p);
    TransferCarries(inputs);
    var closing: seq<Event<F>> := [WriterClosed];
    assert WriterSettings(closing) == [] by {
      assert closing[..0] == [];
    }
    WriterSettingsConcat(prelude, TransferEvents(inputs));
    WriterSettingsConcat(prelude + TransferEvents(inputs), closing);
    assert RunEvents(inputs, p) == prelude + TransferEvents(inputs) + closing;
  }

  /** The preview cadence counts frames across inputs: frame `m` of input `i`
      is previewed exactly when its global index is a multiple of P, and the
      preview shows that frame. */
  lemma PreviewAcrossInputs<F>(p: Option<int>, inputs: seq<Input<F>>, i: nat, m: nat)
    requires i < |inputs| && m < |inputs[i].frames|
    ensures var k := TotalFrames(inputs[..i]) + m;
      && ((exists j :: 0 <= j < |PreviewRun(p, Flatten(inputs))| && PreviewRun(p, Flatten(inputs))[j].index == k)
          <==> PreviewFires(p, k))
      && (forall j :: 0 <= j < |PreviewRun(p, Flatten(inputs))| && PreviewRun(p, Flatten(inputs))[j].index == k ==>
            PreviewRun(p, Flatten(inputs))[j].frame == inputs[i].frames[m])
  {
    FlattenAt(inputs, i, m);
    PreviewRunFilter(p, Flatten(inputs));
  }

  /** One more input extends the concatenation, the count and the log. */
  lemma InputsSnoc<F>(inputs: seq<Input<F>>, i: nat)
    requires i < |inputs|
    ensures Flatten(inputs[..i + 1]) == Flatten(inputs[..i]) + inputs[i].frames
    ensures TotalFrames(inputs[..i + 1]) == TotalFrames(inputs[..i]) + |inputs[i].frames|
    ensures TransferEvents(inputs[..i + 1]) == TransferEvents(inputs[..i]) + InputEvents(i, inputs[i].frames)
  {
    assert inputs[..i + 1][..i] == inputs[..i];
  }

  /** One more frame extends the appends. */
  lemma AppendsSnoc<F>(frames: seq<F>, j: nat)
    requires j < |frames|
    ensures frames[..j + 1] == frames[..j] + [frames[j]]
    ensures Appends(frames[..j + 1]) == Appends(frames[..j]) + [FrameAppended(frames[j])]
  {
    assert frames[..j + 1][..j] == frames[..j];
  }

  /** One more frame extends the status state and the previews by one step. */
  lemma CadenceSnoc<F>(c: Config, start: int, ticks: seq<int>, written: seq<F>, frame: F)
    requires |written| < |ticks|
    ensures StatusRun(c.status, start, ticks[..|written| + 1])
         == StatusStep(c.status, start, StatusRun(c.status, start, ticks[..|written|]), |written|, ticks[|written|])
    ensures PreviewRun(c.preview, written + [frame])
         == PreviewRun(c.preview, written)
            + (if PreviewFires(c.preview, |written|) then [PreviewRecord(|written|, frame)] else [])
  {
    var k := |written|;
    assert ticks[..k + 1][..k] == ticks[..k];
    assert (written + [frame])[..k] == written;
  }

  // ---------------------------------------------------------------------------
  // The run itself

  /** The state `process` updates as it goes: what the writer has received,
      the frame counter, the last status tick, and what was logged, reported
      and previewed. */
  class Processor<F> {
    var written: seq<F>
    var totalImageCount: nat
    var lastStatusTime: int
    var events: seq<Event<F>>
    var statuses: seq<StatusRecord>
    var previews: seq<PreviewRecord<F>>

    constructor ()
      ensures written == [] && totalImageCount == 0 && events == []
      ensures statuses == [] && previews == []
    {
      written, totalImageCount, lastStatusTime := [], 0, 0;
      events, statuses, previews := [], [], [];
    }

    /** The cadence fields agree with the frames seen so far. */
    ghost predicate CadenceInStep(c: Config, start: int, ticks: seq<int>)
      reads this
    {
      && totalImageCount == |written| <= |ticks|
      && statuses == StatusRun(c.status, start, ticks[..totalImageCount]).records
      && lastStatusTime == StatusRun(c.status, start, ticks[..totalImageCount]).last
      && previews == PreviewRun(c.preview, written)
    }

    /** The body of the inner loop: append one frame to the writer, emit a
        status line if the status cadence fires, preview the frame if the
        preview cadence fires, and count it. */
    method CopyFrame(frame: F, c: Config, start: int, ticks: seq<int>)
      requires CadenceInStep(c, start, ticks)
      requires totalImageCount < |ticks|
      modifies this
      ensures CadenceInStep(c, start, ticks)
      ensures written == old(written) + [frame]
      ensures totalImageCount == old(totalImageCount) + 1
      ensures events == old(events) + [FrameAppended(frame)]
    {
      CadenceSnoc(c, start, ticks, written, frame);
      written := written + [frame];
      events := events + [FrameAppended(frame)];
      // Status
      var current := ticks[totalImageCount];
      if StatusFires(c.status, lastStatusTime, current) {
        statuses := statuses + [StatusRecord(current - start, totalImageCount)];
        lastStatusTime := current;
      }
      // Preview
      if PreviewFires(c.preview, totalImageCount) {
        previews := previews + [PreviewRecord(totalImageCount, frame)];
      }
      totalImageCount := totalImageCount + 1;
    }

    /** One input of the transfer loop: open its reader, copy each of its
        frames in order, and close the reader. */
    method CopyInput(i: nat, frames: seq<F>, c: Config, start: int, ticks: seq<int>)
      requires CadenceInStep(c, start, ticks)
      requires totalImageCount + |frames| <= |ticks|
      modifies this
      ensures CadenceInStep(c, start, ticks)
      ensures written == old(written) + frames
      ensures totalImageCount == old(totalImageCount) + |frames|
      ensures events == old(events) + InputEvents(i, frames)
    {
      events := events + [ReaderOpened(i)];
      var j := 0;
      while j < |frames|
        invariant 0 <= j <= |frames|
        invariant written == old(written) + frames[..j]
        invariant totalImageCount == old(totalImageCount) + j
        invariant events == old(events) + [ReaderOpened(i)] + Appends(frames[..j])
        invariant CadenceInStep(c, start, ticks)
      {
        AppendsSnoc(frames, j);
        CopyFrame(frames[j], c, start, ticks);
        j := j + 1;
      }
      assert frames[..j] == frames;
      events := events + [ReaderClosed(i)];
    }

    /** The transfer loop: every input in list order, from a fresh counter
        and status timer. */
    method Transfer(inputs: seq<Input<F>>, c: Config, start: int, ticks: seq<int>)
      requires written == [] && totalImageCount == 0 && statuses == [] && previews == []
      requires lastStatusTime == start
      requires |ticks| == TotalFrames(inputs)
      modifies this
      ensures written == Flatten(inputs) && totalImageCount == TotalFrames(inputs)
      ensures events == old(events) + TransferEvents(inputs)
      ensures CadenceInStep(c, start, ticks)
    {
      assert ticks[..0] == [];
      var i := 0;
      while i < |inputs|
        invariant 0 <= i <= |inputs|
        invariant written == Flatten(inputs[..i])
        invariant totalImageCount == TotalFrames(inputs[..i])
        invariant events == old(events) + TransferEvents(inputs[..i])
        invariant CadenceInStep(c, start, ticks)
      {
        TotalFramesPrefix(inputs, i + 1);
        InputsSnoc(inputs, i);
        CopyInput(i, inputs[i].frames, c, start, ticks);
        i := i + 1;
      }
      assert inputs[..i] == inputs;
    }

    /** Negotiate from the first input, open the writer, copy every frame of
        every input in list order, and close the writer. `start` is the clock
        reading before the transfer and `ticks[k]` the reading taken after
        appending the frame with global index `k`. A pixel format the regex
        cannot match raises with the probe reader still open. */
    method Process(inputs: seq<Input<F>>, c: Config, start: int, ticks: seq<int>)
      returns (r: Result<Params, NegotiationError>)
      requires ArgumentsHold(c, |inputs|)
      requires |ticks| == TotalFrames(inputs)
      modifies this
      ensures r == Negotiate(c.framerate, inputs[0].meta)
      ensures r.Err? ==> events == [ReaderOpened(0)] && written == [] && totalImageCount == 0
      ensures r.Err? ==> statuses == [] && previews == []
      ensures r.Ok? ==> written == Flatten(inputs) && totalImageCount == TotalFrames(inputs)
      ensures r.Ok? ==> events == RunEvents(inputs, r.value)
      ensures r.Ok? ==> statuses == StatusRun(c.status, start, ticks).records
      ensures r.Ok? ==> lastStatusTime == StatusRun(c.status, start, ticks).last
      ensures r.Ok? ==> previews == PreviewRun(c.preview, written)
    {
      written, totalImageCount, statuses, previews := [], 0, [], [];
      events := [ReaderOpened(0)];
      r := Negotiate(c.framerate, inputs[0].meta);
      if r.Err? {
        return;
      }
      events := events + [ReaderClosed(0)];
      assert events == ProbeEvents();
      lastStatusTime := start;
      events := events + [WriterOpening(r.value)];
      Transfer(inputs, c, start, ticks);
      assert ticks[..|ticks|] == ticks;
      events := events + [WriterClosed];
    }
  }
}
