/** The run configuration that command-line parsing leaves behind
    (video-tools/video.py:59-73), and the facts it asserts about it. */
module Arguments {
  import opened Wrappers

  /** `-f FPS`, `-s N` and `-p N`; an absent option is `None`. The `-w`
      flag is read only by the file check and is its `overwrite` argument. */
  datatype Config = Config(
    framerate: Option<real>,
    status: Option<int>,
    preview: Option<int>)

  /** Python truthiness of an optional integer option (`if _status:`). */
  predicate Enabled(n: Option<int>)
  {
    n.Some? && n.value != 0
  }

  /** Python truthiness of the optional frame-rate override (`if not framerate:`). */
  predicate Overrides(f: Option<real>)
  {
    f.Some? && f.value != 0.0
  }

  /** What parsing asserts before anything else runs: at least one input, and a
      given frame rate or preview interval is positive. The status interval is
      not constrained. */
  predicate ArgumentsHold(c: Config, inputCount: nat)
  {
    && inputCount > 0
    && (Overrides(c.framerate) ==> c.framerate.value > 0.0)
    && (Enabled(c.preview) ==> c.preview.value > 0)
  }
}
