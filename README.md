# video-tools concatenation core, modelled in Dafny

`video-tools/video.py` concatenates video files: it probes the first input for
size, frame rate, pixel format and codec, opens one writer with the frame
rate, pixel format and codec (the size is only reported), and copies every frame of every input, in list order, to the
writer. While copying it prints a status line every S seconds and shows a
preview every P frames. Before any of that, `check_files` validates the input
and output paths.

This project models that core:

- `wrappers.dfy` (`Wrappers`): `Option` and `Result`.
- `arguments.dfy` (`Arguments`): the run configuration, Python truthiness of
  the optional options, and what `parse_arguments` asserts (`ArgumentsHold`).
  This is used as the precondition of the run.
- `negotiation.dfy` (`Negotiation`): the pixel-format token given by
  `^[0-9A-Za-z]+`, the frame-rate choice, and the negotiated parameters.
- `cadence.dfy` (`Cadence`): the status rule and the preview rule, each given
  as the records it produces frame by frame. Lemmas characterise them: the
  status lines form the greedy schedule, and with P > 0 the previews fall on
  0, P, 2P, ….
- `file_check.dfy` (`FileCheck`): `check_files` as a method with the same
  loop and early returns. Its contract states which check rejects, for every
  combination of file attributes.
- `resources.dfy` (`Resources`): an event log of reader and writer
  operations, and a protocol that replays a log and fails on a misuse.
- `concat.dfy` (`Concat`): the concatenation. It is a class `Processor` whose
  fields are the writer's received frames, the frame counter, the last status
  tick, the event log, the status lines and the previews. Its methods
  `Process`, `Transfer`, `CopyInput` and `CopyFrame` are the run, the outer
  loop, the inner loop and the inner loop's body. Lemmas state order
  preservation, the frame count, the resource protocol and the cross-input
  preview cadence.

Abstractions:

- Frames are values of an opaque type parameter `F`.
- Each input is its metadata record plus its frame sequence.
- Filesystem queries are boolean attributes of each path.
- The clock is a start reading plus one reading per frame, as integers. No
  monotonicity is assumed except in the lemma that needs it.
- Frame rates are `real`s.

Notes on behaviour, which the model follows from the code:

- The status interval is tested for truthiness only. It is never asserted
  positive, unlike the preview interval (video.py:72-73). So a negative
  interval emits a status line at every frame (`Cadence.StatusEveryFrame`).
  The option's help text (video.py:50) says status output is shown only for
  a positive interval; the test at video.py:153 does not do that.
- The frame-rate override applies whenever it is truthy. Parsing asserts that
  a truthy override is positive. A zero override therefore falls back to the
  probed rate.
- The status line reports the number of frames counted before the current
  one, because the counter is incremented after the report (video.py:161).
- If the pixel-format regex does not match, the program raises at video.py:124
  while the probe reader is still open. The model returns `Err` and its log
  is `[ReaderOpened(0)]`.
- The writer event records the frame rate, pixel format and codec passed to
  `get_writer` (video.py:144). The probed size is printed (video.py:128) but
  not passed to the writer.
- Python's `%` with a positive divisor agrees with Dafny's `%` on the
  non-negative frame index, so the preview test is written directly.

## Model

| member | source | states |
|---|---|---|
| `Negotiation.LeadingAlnum` | video-tools/video.py:124 | the result is a prefix of the input, is made only of `[0-9A-Za-z]`, and cannot be extended (the next character, if any, is not alphanumeric) |
| `Negotiation.PixelFormatToken` | video-tools/video.py:124 | no match exactly when the string is empty or starts with a non-alphanumeric character; otherwise the match is a non-empty maximal alphanumeric prefix |
| `Negotiation.LeadingAlnumUnique` | video-tools/video.py:124 | any alphanumeric prefix that cannot be extended is the regex match, so the token is the longest alphanumeric prefix |
| `Negotiation.PixelFormatTokenIdempotent` | video-tools/video.py:124 | taking the token of a token gives the same token |
| `Negotiation.PixelFormatTokenExample` | video-tools/video.py:124 | `yuv420p(tv)` gives `yuv420p` |
| `Negotiation.Framerate` | video-tools/video.py:115-123 | with a truthy override the rate is the override, and it is positive because parsing asserts so (video.py:70-71); otherwise it is the first input's `fps` |
| `Negotiation.Negotiate` | video-tools/video.py:115-125 | fails exactly when the first input's pixel format has no alphanumeric prefix; otherwise size and codec are the first input's, the rate is the negotiated one, and the pixel format is the token |
| `Cadence.StatusRunIsGreedy` | video-tools/video.py:140-161 | the status lines are exactly the greedy schedule: each is at a frame whose reading exceeds the previous line's reading (or the start) by more than S, in frame order, it reports that frame's index, and no frame in between exceeded the reading in force; the last status tick is the last line's reading |
| `Cadence.StatusLinesSpaced` | video-tools/video.py:153-155 | the first line is more than S ticks after the start, and consecutive lines are more than S ticks apart |
| `Cadence.StatusDisabled` | video-tools/video.py:153 | with S unset or zero no status line is emitted and the status tick stays at the start |
| `Cadence.StatusEveryFrame` | video-tools/video.py:153 | with a negative S and a clock that never runs backwards there is a status line at every frame, reporting that frame's index |
| `Cadence.PreviewRunFilter` | video-tools/video.py:157-161 | the previews are exactly the frames whose global index passes `index % P == 0` for a truthy P, each with its own frame, in index order |
| `Cadence.PreviewDisabled` | video-tools/video.py:157 | with P unset or zero nothing is previewed |
| `Cadence.PreviewSchedule` | video-tools/video.py:157-161 | with P > 0 the j-th preview is at index j*P, and the previews cover every multiple of P below the frame count and nothing beyond it |
| `FileCheck.CheckFiles` | video-tools/video.py:78-110 | accepts exactly when every input is a readable regular file, an existing output is allowed only with overwrite and only if it is a regular file, and the output's directory is writable; each rejection reason is returned exactly when the earlier checks passed and the check itself fails, with inputs checked in list order, existence before readability |
| `Arguments.ArgumentsHold` | video-tools/video.py:67-73 | what parsing asserts: at least one input, a truthy frame-rate override is positive, a truthy preview interval is positive; the status interval is not constrained |
| `Cadence.StatusFires` | video-tools/video.py:153 | the status test: the interval is truthy and the reading exceeds the last status reading by more than the interval |
| `Cadence.StatusStep` | video-tools/video.py:152-155 | one frame's status step: when the test fires, a line with the elapsed ticks and the pre-increment frame index is added and the last status reading becomes the current one; otherwise nothing changes |
| `Cadence.StatusRun` | video-tools/video.py:142-155 | the status state after a sequence of readings, starting from the start reading with no lines, one status step per frame in order |
| `Cadence.PreviewFires` | video-tools/video.py:157 | the preview test: the interval is truthy and the global frame index is a multiple of it |
| `Cadence.PreviewRun` | video-tools/video.py:157-161 | the previews shown over a frame sequence: one record (index, frame) for each index that passes the preview test, in index order |
| `Concat.Flatten` | video-tools/video.py:146-150 | the frames of all inputs, input after input in list order, each input's frames in decode order |
| `Concat.TotalFrames` | video-tools/video.py:140-161 | the sum of the inputs' frame counts, which is the final value of the frame counter |
| `Concat.RunEvents` | video-tools/video.py:119-165 | the reader and writer operations of a successful run: open and close the probe reader of input 0, open the writer with the negotiated settings, for each input in order open its reader, append its frames and close it, then close the writer |
| `Concat.FlattenLength` | video-tools/video.py:146-150 | the concatenated frames number the sum of the inputs' frame counts |
| `Concat.FlattenAt` | video-tools/video.py:146-150 | frame m of input i is at global index (frames of earlier inputs) + m of the output, so nothing is skipped, repeated or reordered |
| `Concat.RunFollowsProtocol` | video-tools/video.py:119-165 | a successful run's log obeys the resource protocol and ends with no reader open and the writer closed: the probe reader is closed before the writer opens, the writer opens once before any append and closes after the last input (no reader may open after it), and each reader closes before the next one opens |
| `Concat.RunAppendsInOrder` | video-tools/video.py:144-150 | the frames the log appends to the writer are the inputs' frames concatenated in list order |
| `Concat.RunReadersInOrder` | video-tools/video.py:119-148 | readers are opened for input 0 (the probe) and then once for each input in list order, so no input other than the first is probed |
| `Concat.RunOpensWriterWith` | video-tools/video.py:119-144 | a successful run opens the writer exactly once, with the negotiated frame rate, pixel format and codec |
| `Concat.PreviewAcrossInputs` | video-tools/video.py:146-161 | frame m of input i is previewed exactly when its global index is a multiple of P (counted across inputs, not per input), and the preview shows that frame |
| `Concat.Processor.CopyFrame` | video-tools/video.py:150-161 | appends the frame to the writer and the log, advances the status state and the previews by one frame, and counts the frame |
| `Concat.Processor.CopyInput` | video-tools/video.py:147-162 | opens the input's reader, appends all its frames in order, closes it, keeps the counter and cadences in step |
| `Concat.Processor.Transfer` | video-tools/video.py:140-163 | from a fresh counter and status tick, the writer receives the concatenation of all inputs, the counter is the total frame count, the log grows by each input's events in list order, and the cadence records match their schedules |
| `Concat.Processor.Process` | video-tools/video.py:113-165 | the result is the negotiation of the first input's metadata; on failure only the probe reader was opened and nothing was written; on success the writer holds the concatenation, the counter the total, the log is the run's log for the negotiated parameters (so the writer is opened with them), and the status lines, status tick and previews are their schedules over the supplied clock readings |

## Left out

- Command-line parsing, `main` and `sys.exit`: process plumbing. Only the invariants asserted at video.py:67-73 are kept, as `ArgumentsHold`. The output path is always given in the model (video.py:69).
- The order `parse_arguments`, then `check_files`, then `process` in `main`: the model has `FileCheck.CheckFiles` and `Concat.Processor.Process` as separate operations.
- Decoding, encoding and metadata extraction by `imageio`: foreign calls. Metadata is a supplied record that always has `size`, `fps`, `pix_fmt` and `codec`. Failures to open, decode or encode are not modelled.
- Writer options other than the negotiated parameters (mode, the quality constant 10): they configure the foreign encoder and do not affect the transfer.
- Preview rendering with `matplotlib` (figure, `imshow`, title, pause): UI. Only the choice of which frames are previewed is modelled.
- Wall-clock readings from `time.perf_counter`: replaced by a supplied start reading and one integer reading per frame. The end-of-run reading and the summary at video.py:167-173 are not modelled.
- Floating-point arithmetic and text formatting: the durations and the video time in the status line, the timestamp in the preview title, and the average rate. This includes the division by zero that a zero probed `fps` would cause there.
- Real filesystem queries (`Path.is_file`, `exists`, `os.access`): given as boolean attributes of each path.
- `iprint`, `eprint` and the quiet flag: output only. Each rejecting `eprint` in `check_files` is modelled as the rejection reason returned.
- Error propagation and cleanup: the program has no `try`/`finally`. Only the pixel-format failure path is modelled, and no claim is made that readers or the writer are closed on error paths.
- Compatibility of inputs 1..n with input 0: the program never checks it, and neither does the model.
- An output path that names one of the inputs: with `-w`, `check_files` accepts it (video.py:98-104 test only that it exists and is a file), and the writer then overwrites a file the loop later reads. The model's inputs are fixed values the writer cannot change, so `Concat.Processor.Process` does not describe that run.
