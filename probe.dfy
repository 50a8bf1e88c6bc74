/**
 * `get_media_info`: what the tool learns about an input file from `ffprobe`. The probe
 * itself and the JSON decoding are outside the model; their outcome is the input here.
 */
module Probe {
  import opened Wrappers

  /** One entry of the probe's `streams` array; either key may be missing. */
  datatype Stream = Stream(codecType: Option<string>, codecName: Option<string>)

  /**
   * What decoding the probe's standard output gave: not JSON at all (`json.loads` raised,
   * which the function's `except` turns into `(None, None)`), or an object whose `streams`
   * key may be missing.
   */
  datatype Decoded = Malformed | Json(streams: Option<seq<Stream>>)

  /** A finished `ffprobe` run: its exit status and its decoded output. */
  datatype ProbeRun = ProbeRun(returnCode: int, output: Decoded)

  /** The stream types the scan stops at. */
  predicate IsMedia(s: Stream) {
    s.codecType == Some("video") || s.codecType == Some("audio")
  }

  /** `info.get('streams', [])`. */
  function Streams(output: Decoded): (streams: seq<Stream>)
    requires output.Json?
  {
    output.streams.GetOr([])
  }

  /** The first stream of the list that is a video or an audio stream, if any. */
  function FirstMedia(streams: seq<Stream>): (r: Option<Stream>)
    ensures r.Some? ==> IsMedia(r.value) && r.value in streams
  {
    if streams == [] then None
    else if IsMedia(streams[0]) then Some(streams[0])
    else FirstMedia(streams[1..])
  }

  /**
   * The `(codec_type, codec_name)` pair `get_media_info` returns: that of the first video
   * or audio stream, or `(None, None)` when the probe failed, its output did not decode,
   * or no stream is of either type.
   */
  function MediaInfo(run: ProbeRun): (r: (Option<string>, Option<string>))
    ensures r.0 == None || r.0 == Some("video") || r.0 == Some("audio")
    ensures r.0 == None ==> r.1 == None
    ensures run.returnCode != 0 || run.output.Malformed? ==> r == (None, None)
  {
    if run.returnCode != 0 || run.output.Malformed? then (None, None)
    else match FirstMedia(Streams(run.output))
      case Some(s) => (s.codecType, s.codecName)
      case None => (None, None)
  }

  /** `FirstMedia` returns the stream at the first index holding a video or audio stream. */
  lemma {:induction false} FirstMediaIsFirst(streams: seq<Stream>, i: int)
    requires 0 <= i < |streams| && IsMedia(streams[i])
    requires forall j :: 0 <= j < i ==> !IsMedia(streams[j])
    ensures FirstMedia(streams) == Some(streams[i])
  {
    if i > 0 {
      FirstMediaIsFirst(streams[1..], i - 1);
    }
  }

  /** `FirstMedia` finds nothing exactly when no stream is a video or audio stream. */
  lemma {:induction false} FirstMediaNone(streams: seq<Stream>)
    ensures FirstMedia(streams) == None <==> forall j :: 0 <= j < |streams| ==> !IsMedia(streams[j])
  {
    if streams != [] {
      FirstMediaNone(streams[1..]);
      assert forall j :: 1 <= j < |streams| ==> streams[j] == streams[1..][j - 1];
    }
  }

  /**
   * The scan of `get_media_info`: give up on a failed or undecodable probe, otherwise walk
   * the stream list and return at the first video or audio stream.
   */
  method GetMediaInfo(run: ProbeRun) returns (codecType: Option<string>, codecName: Option<string>)
    ensures (codecType, codecName) == MediaInfo(run)
  {
    if run.returnCode != 0 {
      return None, None;
    }
    if run.output.Malformed? {
      return None, None;
    }
    var streams := Streams(run.output);
    for i := 0 to |streams|
      invariant FirstMedia(streams[i..]) == FirstMedia(streams)
    {
      var stream := streams[i];
      if stream.codecType == Some("video") || stream.codecType == Some("audio") {
        return stream.codecType, stream.codecName;
      }
      assert streams[i..][1..] == streams[i + 1..];
    }
    return None, None;
  }

  /**
   * The scan reports the stream that comes first, whichever of the two types it is: a
   * "video" file whose first stream is audio is reported as audio.
   */
  lemma FirstOfEitherType(audio: Stream, video: Stream)
    requires audio.codecType == Some("audio") && video.codecType == Some("video")
    ensures MediaInfo(ProbeRun(0, Json(Some([audio, video])))) == (audio.codecType, audio.codecName)
  {
  }
}
