/** The order in which the run opens, uses and closes its readers and its
    writer (video-tools/video.py:119-126, 144-165), as an event log and a
    protocol that such a log must follow. */
module Resources {
  import opened Wrappers

  /** One reader or writer operation; readers are named by their input's
      position in the input list. */
  datatype Event<F> =
    | ReaderOpened(input: nat)
    | ReaderClosed(input: nat)
    | WriterOpened(framerate: real, pixelFormat: string, codec: string)
    | FrameAppended(frame: F)
    | WriterClosed

  datatype WriterPhase = Unopened | Writing | Finished

  /** The handles held at some point of the log: the open reader, if any, and
      the writer's phase. */
  datatype Handles = Handles(reader: Option<nat>, writer: WriterPhase)

  const Initial: Handles := Handles(None, Unopened)

  /** The protocol, one event at a time: at most one reader is open at once,
      only the open one is closed, and no reader is opened once the writer is
      closed; the writer is opened once, after the reader in use is closed; frames are appended only to the open writer
      while a reader is open; the writer is closed once, with no reader open.
      `None` means the event breaks the protocol. */
  function Step<F>(h: Handles, e: Event<F>): Option<Handles>
  {
    match e
    case ReaderOpened(i) =>
      if h.reader.None? && h.writer != Finished then Some(h.(reader := Some(i))) else None
    case ReaderClosed(i) =>
      if h.reader == Some(i) then Some(h.(reader := None)) else None
    case WriterOpened(_, _, _) =>
      if h.writer == Unopened && h.reader.None? then Some(h.(writer := Writing)) else None
    case FrameAppended(_) =>
      if h.writer == Writing && h.reader.Some? then Some(h) else None
    case WriterClosed =>
      if h.writer == Writing && h.reader.None? then Some(h.(writer := Finished)) else None
  }

  /** The handles after the whole log, or `None` if some event breaks the protocol. */
  function Replay<F>(h: Handles, events: seq<Event<F>>): Option<Handles>
    decreases |events|
  {
    if events == [] then Some(h)
    else match Replay(h, events[..|events| - 1])
      case None => None
      case Some(g) => Step(g, events[|events| - 1])
  }

  /** Replay of `rest` after an optional starting point. */
  function ReplayFrom<F>(o: Option<Handles>, rest: seq<Event<F>>): Option<Handles>
  {
    match o
    case None => None
    case Some(h) => Replay(h, rest)
  }

  /** Replaying two logs one after the other is replaying their concatenation. */
  lemma {:induction false} ReplayConcat<F>(h: Handles, a: seq<Event<F>>, b: seq<Event<F>>)
    ensures Replay(h, a + b) == ReplayFrom(Replay(h, a), b)
    decreases |b|
  {
    if b == [] {
      assert a + b == a;
    } else {
      var n := |b| - 1;
      assert (a + b)[..|a + b| - 1] == a + b[..n];
      ReplayConcat(h, a, b[..n]);
    }
  }

  /** The frames the log appends to the writer, in order. */
  function AppendedFrames<F>(events: seq<Event<F>>): seq<F>
    decreases |events|
  {
    if events == [] then []
    else
      var e := events[|events| - 1];
      AppendedFrames(events[..|events| - 1]) + (if e.FrameAppended? then [e.frame] else [])
  }

  /** The inputs whose readers the log opens, in order. */
  function OpenedReaders<F>(events: seq<Event<F>>): seq<nat>
    decreases |events|
  {
    if events == [] then []
    else
      var e := events[|events| - 1];
      OpenedReaders(events[..|events| - 1]) + (if e.ReaderOpened? then [e.input] else [])
  }

  /** The settings (frame rate, pixel format, codec) of each writer opening
      in the log, in order. */
  function WriterSettings<F>(events: seq<Event<F>>): seq<(real, string, string)>
    decreases |events|
  {
    if events == [] then []
    else
      var e := events[|events| - 1];
      WriterSettings(events[..|events| - 1])
        + (if e.WriterOpened? then [(e.framerate, e.pixelFormat, e.codec)] else [])
  }

  lemma {:induction false} AppendedFramesConcat<F>(a: seq<Event<F>>, b: seq<Event<F>>)
    ensures AppendedFrames(a + b) == AppendedFrames(a) + AppendedFrames(b)
    decreases |b|
  {
    if b == [] {
      assert a + b == a;
    } else {
      var n := |b| - 1;
      assert (a + b)[..|a + b| - 1] == a + b[..n];
      AppendedFramesConcat(a, b[..n]);
    }
  }

  lemma {:induction false} OpenedReadersConcat<F>(a: seq<Event<F>>, b: seq<Event<F>>)
    ensures OpenedReaders(a + b) == OpenedReaders(a) + OpenedReaders(b)
    decreases |b|
  {
    if b == [] {
      assert a + b == a;
    } else {
      var n := |b| - 1;
      assert (a + b)[..|a + b| - 1] == a + b[..n];
      OpenedReadersConcat(a, b[..n]);
    }
  }

  lemma {:induction false} WriterSettingsConcat<F>(a: seq<Event<F>>, b: seq<Event<F>>)
    ensures WriterSettings(a + b) == WriterSettings(a) + WriterSettings(b)
    decreases |b|
  {
    if b == [] {
      assert a + b == a;
    } else {
      var n := |b| - 1;
      assert (a + b)[..|a + b| - 1] == a + b[..n];
      WriterSettingsConcat(a, b[..n]);
    }
  }
}
