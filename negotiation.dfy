/** Parameter negotiation: the output's size, frame rate, pixel format and
    codec, all taken from the first input's metadata, with an optional
    frame-rate override (video-tools/video.py:115-125). */
module Negotiation {
  import opened Wrappers
  import opened Arguments

  /** The metadata record the decoder reports for an input. */
  datatype Metadata = Metadata(size: (int, int), fps: real, pixFmt: string, codec: string)

  /** The negotiated parameters. The writer is opened with the frame rate,
      pixel format and codec (video-tools/video.py:144); the size is only
      reported (video-tools/video.py:128) and is not given to the writer. */
  datatype Params = Params(size: (int, int), framerate: real, pixelFormat: string, codec: string)

  /** `re.search` finds no match, so indexing its `None` result raises. */
  datatype NegotiationError = NoPixelFormatToken

  /** The character class `[0-9A-Za-z]`. */
  predicate IsAlnum(c: char)
  {
    ('0' <= c <= '9') || ('A' <= c <= 'Z') || ('a' <= c <= 'z')
  }

  predicate AllAlnum(s: string)
  {
    forall i :: 0 <= i < |s| ==> IsAlnum(s[i])
  }

  /** The longest prefix of `s` made only of `[0-9A-Za-z]` (possibly empty). */
  function LeadingAlnum(s: string): (r: string)
    ensures r <= s
    ensures AllAlnum(r)
    ensures |r| < |s| ==> !IsAlnum(s[|r|])
  {
    if s == [] || !IsAlnum(s[0]) then [] else [s[0]] + LeadingAlnum(s[1..])
  }

  /** `re.search(r"^[0-9A-Za-z]+", pixFmt)[0]`: the leading alphanumeric run,
      or `None` when the regex has no match. */
  function PixelFormatToken(pixFmt: string): (r: Option<string>)
    ensures r.None? <==> (pixFmt == [] || !IsAlnum(pixFmt[0]))
    ensures r.Some? ==> r.value != [] && r.value <= pixFmt && AllAlnum(r.value)
    ensures r.Some? ==> |r.value| < |pixFmt| ==> !IsAlnum(pixFmt[|r.value|])
  {
    var t := LeadingAlnum(pixFmt);
    if t == [] then None else Some(t)
  }

  /** Any alphanumeric prefix that cannot be extended is the one the regex matches. */
  lemma {:induction false} LeadingAlnumUnique(s: string, t: string)
    requires t <= s && AllAlnum(t)
    requires |t| < |s| ==> !IsAlnum(s[|t|])
    ensures LeadingAlnum(s) == t
  {
    if t == [] {
      assert s == [] || !IsAlnum(s[0]);
    } else {
      assert IsAlnum(t[0]) && s[0] == t[0];
      assert t[1..] <= s[1..];
      assert AllAlnum(t[1..]) by {
        forall i | 0 <= i < |t[1..]| ensures IsAlnum(t[1..][i]) {
          assert t[1..][i] == t[i + 1];
        }
      }
      LeadingAlnumUnique(s[1..], t[1..]);
      assert [t[0]] + t[1..] == t;
    }
  }

  /** Taking the token of a token changes nothing. */
  lemma PixelFormatTokenIdempotent(pixFmt: string)
    requires PixelFormatToken(pixFmt).Some?
    ensures PixelFormatToken(PixelFormatToken(pixFmt).value) == PixelFormatToken(pixFmt)
  {
    var t := PixelFormatToken(pixFmt).value;
    LeadingAlnumUnique(t, t);
  }

  /** The documented example: `yuv420p(tv)` negotiates to `yuv420p`. */
  lemma PixelFormatTokenExample()
    ensures PixelFormatToken("yuv420p(tv)") == Some("yuv420p")
  {
    LeadingAlnumUnique("yuv420p(tv)", "yuv420p");
  }

  /** The override when one is given (truthy), otherwise the first input's fps. */
  function Framerate(override: Option<real>, fps: real): (r: real)
    requires Overrides(override) ==> override.value > 0.0
    ensures Overrides(override) ==> r == override.value && r > 0.0
    ensures !Overrides(override) ==> r == fps
  {
    if Overrides(override) then override.value else fps
  }

  /** All output parameters, read from the first input's metadata only. */
  function Negotiate(override: Option<real>, first: Metadata): (r: Result<Params, NegotiationError>)
    requires Overrides(override) ==> override.value > 0.0
    ensures r.Err? <==> (first.pixFmt == [] || !IsAlnum(first.pixFmt[0]))
    ensures r.Ok? ==> r.value.size == first.size && r.value.codec == first.codec
    ensures r.Ok? ==> r.value.framerate == Framerate(override, first.fps)
    ensures r.Ok? ==> Some(r.value.pixelFormat) == PixelFormatToken(first.pixFmt)
  {
    match PixelFormatToken(first.pixFmt)
    case None => Err(NoPixelFormatToken)
    case Some(token) => Ok(Params(first.size, Framerate(override, first.fps), token, first.codec))
  }
}
