/**
 * The `ffmpeg` argument list `merge_m4s_to_mp4` builds: a fixed prefix that takes the
 * first video stream of the first input and the first audio stream of the second, a
 * video fragment, an audio fragment, and a fixed suffix that moves the index to the front
 * of the file and names the output. Paths are opaque strings here.
 */
module MergeCommand {
  import opened Wrappers
  import opened Text
  import Probe

  /** The original video codec needs the `hvc1` tag when copied: it is HEVC under either name. */
  predicate IsHevc(original: Option<string>) {
    original.Some? && (Lower(original.value) == "hevc" || Lower(original.value) == "h265")
  }

  /** The original audio codec needs the ADTS-to-ASC bitstream filter when copied: it is AAC. */
  predicate IsAac(original: Option<string>) {
    original.Some? && Lower(original.value) == "aac"
  }

  /** The arguments every merge starts with. */
  function Prefix(video: string, audio: string): (args: seq<string>) {
    ["ffmpeg", "-i", video, "-i", audio, "-map", "0:v:0", "-map", "1:a:0"]
  }

  /** The video fragment: stream copy (tagged for HEVC) or an encoder with its tuning. */
  function VideoArgs(original: Option<string>, target: string): (args: seq<string>) {
    if target == "copy" then
      ["-c:v", "copy"] + (if IsHevc(original) then ["-tag:v", "hvc1"] else [])
    else
      ["-c:v", target]
      + if target == "libx264" then ["-preset", "medium", "-crf", "23"]
        else if target == "libx265" then ["-preset", "medium", "-crf", "28", "-tag:v", "hvc1"]
        else if target == "libvpx-vp9" then ["-b:v", "0", "-crf", "30"]
        else []
  }

  /** The audio fragment: stream copy (filtered for AAC) or an encoder with its bitrate. */
  function AudioArgs(original: Option<string>, target: string): (args: seq<string>) {
    if target == "copy" then
      ["-c:a", "copy"] + (if IsAac(original) then ["-bsf:a", "aac_adtstoasc"] else [])
    else
      ["-c:a", target]
      + if target == "aac" then ["-b:a", "192k"]
        else if target == "libmp3lame" then ["-b:a", "192k"]
        else if target == "libopus" then ["-b:a", "128k"]
        else []
  }

  /** The arguments every merge ends with. */
  function Suffix(output: string): (args: seq<string>) {
    ["-movflags", "+faststart", output]
  }

  /** The whole argument list, in the order the source assembles it. */
  function Command(video: string, audio: string, output: string,
                   videoOriginal: Option<string>, audioOriginal: Option<string>,
                   videoTarget: string, audioTarget: string): (cmd: seq<string>)
  {
    Prefix(video, audio) + VideoArgs(videoOriginal, videoTarget)
    + AudioArgs(audioOriginal, audioTarget) + Suffix(output)
  }

  /** The video half of the building block: `cmd` extended with the video fragment. */
  method ExtendVideo(cmd: seq<string>, original: Option<string>, target: string) returns (r: seq<string>)
    ensures r == cmd + VideoArgs(original, target)
  {
    if target == "copy" {
      r := cmd + ["-c:v", "copy"];
      if original.Some? && (Lower(original.value) == "hevc" || Lower(original.value) == "h265") {
        r := r + ["-tag:v", "hvc1"];
      }
    } else {
      r := cmd + ["-c:v", target];
      if target == "libx264" {
        r := r + ["-preset", "medium", "-crf", "23"];
      } else if target == "libx265" {
        r := r + ["-preset", "medium", "-crf", "28", "-tag:v", "hvc1"];
      } else if target == "libvpx-vp9" {
        r := r + ["-b:v", "0", "-crf", "30"];
      }
    }
  }

  /** The audio half of the building block: `cmd` extended with the audio fragment. */
  method ExtendAudio(cmd: seq<string>, original: Option<string>, target: string) returns (r: seq<string>)
    ensures r == cmd + AudioArgs(original, target)
  {
    if target == "copy" {
      r := cmd + ["-c:a", "copy"];
      if original.Some? && Lower(original.value) == "aac" {
        r := r + ["-bsf:a", "aac_adtstoasc"];
      }
    } else {
      r := cmd + ["-c:a", target];
      if target == "aac" {
        r := r + ["-b:a", "192k"];
      } else if target == "libmp3lame" {
        r := r + ["-b:a", "192k"];
      } else if target == "libopus" {
        r := r + ["-b:a", "128k"];
      }
    }
  }

  /**
   * The building block of `merge_m4s_to_mp4`: one list grown by successive `extend`s.
   * It yields the prefix, the video fragment, the audio fragment and the suffix, in that
   * order; the container format plays no part.
   */
  method BuildCommand(video: string, audio: string, output: string,
                      videoOriginal: Option<string>, audioOriginal: Option<string>,
                      videoTarget: string, audioTarget: string) returns (cmd: seq<string>)
    ensures cmd == Command(video, audio, output, videoOriginal, audioOriginal, videoTarget, audioTarget)
    ensures cmd[..9] == Prefix(video, audio) && cmd[|cmd| - 3..] == Suffix(output)
  {
    cmd := ["ffmpeg", "-i", video, "-i", audio, "-map", "0:v:0", "-map", "1:a:0"];
    cmd := ExtendVideo(cmd, videoOriginal, videoTarget);
    cmd := ExtendAudio(cmd, audioOriginal, audioTarget);
    cmd := cmd + ["-movflags", "+faststart", output];
  }

  /** The encoder tuning table, keyed by the target video codec. */
  function VideoTuning(target: string): (args: seq<string>) {
    var table := map[
      "libx264" := ["-preset", "medium", "-crf", "23"],
      "libx265" := ["-preset", "medium", "-crf", "28", "-tag:v", "hvc1"],
      "libvpx-vp9" := ["-b:v", "0", "-crf", "30"]];
    if target in table then table[target] else []
  }

  /** The encoder bitrate table, keyed by the target audio codec. */
  function AudioTuning(target: string): (args: seq<string>) {
    var table := map["aac" := "192k", "libmp3lame" := "192k", "libopus" := "128k"];
    if target in table then ["-b:a", table[target]] else []
  }

  /**
   * Copying video selects the `copy` codec, and adds `-tag:v hvc1` exactly when the
   * original codec is HEVC (`hevc` or `h265` in any letter case).
   */
  lemma VideoCopy(original: Option<string>)
    ensures VideoArgs(original, "copy")[..2] == ["-c:v", "copy"]
    ensures "-tag:v" in VideoArgs(original, "copy") <==> IsHevc(original)
    ensures |VideoArgs(original, "copy")| <= 4
  {
    assert IsHevc(original) ==> VideoArgs(original, "copy")[2] == "-tag:v";
  }

  /** Re-encoding video selects the target as codec, followed by its row of the tuning table. */
  lemma VideoEncode(original: Option<string>, target: string)
    requires target != "copy"
    ensures VideoArgs(original, target) == ["-c:v", target] + VideoTuning(target)
  {
  }

  /**
   * Copying audio selects the `copy` codec, and adds `-bsf:a aac_adtstoasc` exactly when
   * the original codec is AAC (in any letter case).
   */
  lemma AudioCopy(original: Option<string>)
    ensures AudioArgs(original, "copy")[..2] == ["-c:a", "copy"]
    ensures "-bsf:a" in AudioArgs(original, "copy") <==> IsAac(original)
    ensures |AudioArgs(original, "copy")| <= 4
  {
    assert IsAac(original) ==> AudioArgs(original, "copy")[2] == "-bsf:a";
  }

  /** Re-encoding audio selects the target as codec, followed by its row of the bitrate table. */
  lemma AudioEncode(original: Option<string>, target: string)
    requires target != "copy"
    ensures AudioArgs(original, target) == ["-c:a", target] + AudioTuning(target)
  {
  }

  /** The codec-name test ignores letter case. */
  lemma IsHevcIgnoresCase(name: string)
    ensures IsHevc(Some(name)) <==> IsHevc(Some(Lower(name)))
    ensures IsAac(Some(name)) <==> IsAac(Some(Lower(name)))
  {
    LowerIdempotent(name);
  }

  /**
   * Among the video targets either interface offers, the output is tagged `hvc1` exactly
   * when an HEVC original is copied or the target encoder is `libx265`.
   */
  lemma Hvc1Tagging(original: Option<string>, target: string)
    requires target in {"copy", "libx264", "libx265", "libvpx-vp9"}
    ensures "hvc1" in VideoArgs(original, target) <==> (target == "copy" && IsHevc(original)) || target == "libx265"
  {
    if target == "copy" {
      VideoCopy(original);
      assert IsHevc(original) ==> VideoArgs(original, target)[3] == "hvc1";
    } else if target == "libx265" {
      assert VideoArgs(original, target)[7] == "hvc1";
    }
  }

  /** What can be read back from an argument list: the paths, the codecs and the two fix-ups. */
  datatype Invocation = Invocation(
    video: string, audio: string, output: string,
    videoCodec: string, hvc1Tagged: bool,
    audioCodec: string, adtsFiltered: bool)

  /** A fragment read from the front of an argument list: codec, fix-up present, width. */
  datatype Fragment = Fragment(codec: string, fixUp: bool, width: nat)

  /** Reads a codec fragment: `flag codec`, then the copy fix-up or the codec's tuning. */
  function ParseFragment(args: seq<string>, flag: string, fixUp: seq<string>, isVideo: bool): (r: Option<Fragment>)
    ensures r.Some? ==> r.value.width <= |args|
  {
    if |args| < 2 || args[0] != flag then None
    else if args[1] == "copy" then
      if |args| >= 2 + |fixUp| && args[2..2 + |fixUp|] == fixUp then Some(Fragment("copy", true, 2 + |fixUp|))
      else Some(Fragment("copy", false, 2))
    else
      var tuning := if isVideo then VideoTuning(args[1]) else AudioTuning(args[1]);
      if |args| >= 2 + |tuning| && args[2..2 + |tuning|] == tuning then
        Some(Fragment(args[1], false, 2 + |tuning|))
      else None
  }

  /** Reads the video fragment from the front of `args`: `-c:v`, then `hvc1` tag or tuning. */
  function ParseVideo(args: seq<string>): (r: Option<Fragment>)
    ensures r.Some? ==> r.value.width <= |args|
  {
    ParseFragment(args, "-c:v", ["-tag:v", "hvc1"], true)
  }

  /** Reads the audio fragment from the front of `args`: `-c:a`, then the filter or bitrate. */
  function ParseAudio(args: seq<string>): (r: Option<Fragment>)
    ensures r.Some? ==> r.value.width <= |args|
  {
    ParseFragment(args, "-c:a", ["-bsf:a", "aac_adtstoasc"], false)
  }

  /** Reads a merge argument list back into the plan it carries, if it is one. */
  function Parse(cmd: seq<string>): (plan: Option<Invocation>) {
    if |cmd| < 9 || cmd[..9] != Prefix(cmd[2], cmd[4]) then None
    else match ParseOptions(cmd[9..])
      case None => None
      case Some((v, a, output)) => Some(Invocation(cmd[2], cmd[4], output, v.codec, v.fixUp, a.codec, a.fixUp))
  }

  /** Reads what follows the stream maps: a video fragment, an audio fragment, the suffix. */
  function ParseOptions(args: seq<string>): (r: Option<(Fragment, Fragment, string)>) {
    match ParseVideo(args)
    case None => None
    case Some(v) =>
      match ParseAudio(args[v.width..])
      case None => None
      case Some(a) =>
        var tail := args[v.width..][a.width..];
        if |tail| == 3 && tail == Suffix(tail[2]) then Some((v, a, tail[2])) else None
  }

  /** The video fragment reads back as its target codec and whether it was tagged. */
  lemma ParseVideoArgs(original: Option<string>, target: string, rest: seq<string>)
    requires |rest| > 0 && rest[0] == "-c:a"
    ensures ParseVideo(VideoArgs(original, target) + rest)
            == Some(Fragment(target, target == "copy" && IsHevc(original), |VideoArgs(original, target)|))
  {
    var args := VideoArgs(original, target) + rest;
    if target == "copy" {
      if !IsHevc(original) {
        assert args[2] == "-c:a";
      } else {
        assert args[2..4] == ["-tag:v", "hvc1"];
      }
    } else {
      VideoEncode(original, target);
      assert args[2..2 + |VideoTuning(target)|] == VideoTuning(target);
    }
  }

  /** The audio fragment reads back as its target codec and whether it was filtered. */
  lemma ParseAudioArgs(original: Option<string>, target: string, rest: seq<string>)
    requires |rest| > 0 && rest[0] == "-movflags"
    ensures ParseAudio(AudioArgs(original, target) + rest)
            == Some(Fragment(target, target == "copy" && IsAac(original), |AudioArgs(original, target)|))
  {
    var args := AudioArgs(original, target) + rest;
    if target == "copy" {
      if !IsAac(original) {
        assert args[2] == "-movflags";
      } else {
        assert args[2..4] == ["-bsf:a", "aac_adtstoasc"];
      }
    } else {
      AudioEncode(original, target);
      assert args[2..2 + |AudioTuning(target)|] == AudioTuning(target);
    }
  }

  /** Fragments that read back, followed by the suffix, read back as the options. */
  lemma OptionsAssembled(output: string, v: seq<string>, a: seq<string>, fv: Fragment, fa: Fragment)
    requires ParseVideo(v + (a + Suffix(output))) == Some(fv) && fv.width == |v|
    requires ParseAudio(a + Suffix(output)) == Some(fa) && fa.width == |a|
    ensures ParseOptions(v + (a + Suffix(output))) == Some((fv, fa, output))
  {
    assert (v + (a + Suffix(output)))[fv.width..] == a + Suffix(output);
    assert (a + Suffix(output))[fa.width..] == Suffix(output);
  }

  /** Options that read back, after the prefix, read back as a whole plan. */
  lemma ParseAfterPrefix(video: string, audio: string, opts: seq<string>, fv: Fragment, fa: Fragment, output: string)
    requires ParseOptions(opts) == Some((fv, fa, output))
    ensures Parse(Prefix(video, audio) + opts)
            == Some(Invocation(video, audio, output, fv.codec, fv.fixUp, fa.codec, fa.fixUp))
  {
    var cmd := Prefix(video, audio) + opts;
    assert cmd[..9] == Prefix(video, audio);
    assert cmd[9..] == opts;
  }

  /**
   * Every argument list the builder produces reads back as the plan it was built from:
   * the three paths in their places, both target codecs, the `hvc1` tag exactly when an
   * HEVC original is copied, and the bitstream filter exactly when an AAC original is.
   */
  lemma ParseCommand(video: string, audio: string, output: string,
                     videoOriginal: Option<string>, audioOriginal: Option<string>,
                     videoTarget: string, audioTarget: string)
    ensures Parse(Command(video, audio, output, videoOriginal, audioOriginal, videoTarget, audioTarget))
            == Some(Invocation(video, audio, output,
                               videoTarget, videoTarget == "copy" && IsHevc(videoOriginal),
                               audioTarget, audioTarget == "copy" && IsAac(audioOriginal)))
  {
    var v := VideoArgs(videoOriginal, videoTarget);
    var a := AudioArgs(audioOriginal, audioTarget);
    var opts := v + (a + Suffix(output));
    ParseAudioArgs(audioOriginal, audioTarget, Suffix(output));
    ParseVideoArgs(videoOriginal, videoTarget, a + Suffix(output));
    var fv, fa := ParseVideo(opts).value, ParseAudio(a + Suffix(output)).value;
    OptionsAssembled(output, v, a, fv, fa);
    ParseAfterPrefix(video, audio, opts, fv, fa, output);
    CommandGrouped(video, audio, output, videoOriginal, audioOriginal, videoTarget, audioTarget);
  }

  /** The built list, grouped as the prefix followed by the options the reader takes apart. */
  lemma CommandGrouped(video: string, audio: string, output: string,
                       videoOriginal: Option<string>, audioOriginal: Option<string>,
                       videoTarget: string, audioTarget: string)
    ensures Command(video, audio, output, videoOriginal, audioOriginal, videoTarget, audioTarget)
            == Prefix(video, audio) + (VideoArgs(videoOriginal, videoTarget)
                                       + (AudioArgs(audioOriginal, audioTarget) + Suffix(output)))
  {
  }

  /** An original codec that makes the builder emit the given fix-up. */
  function HevcIf(tagged: bool): (original: Option<string>) {
    if tagged then Some("hevc") else None
  }

  /** An original codec that makes the builder emit the bitstream filter, or none. */
  function AacIf(filtered: bool): (original: Option<string>) {
    if filtered then Some("aac") else None
  }

  /** A video fragment that reads back is one the builder emits. */
  lemma ParsedVideoIsBuilt(args: seq<string>)
    requires ParseVideo(args).Some?
    ensures var f := ParseVideo(args).value;
            args[..f.width] == VideoArgs(HevcIf(f.fixUp), f.codec)
  {
    var f := ParseVideo(args).value;
    assert Lower("hevc") == "hevc";
    if f.codec != "copy" {
      VideoEncode(None, f.codec);
    }
    assert args[..f.width] == args[..2] + args[2..f.width];
  }

  /** An audio fragment that reads back is one the builder emits. */
  lemma ParsedAudioIsBuilt(args: seq<string>)
    requires ParseAudio(args).Some?
    ensures var f := ParseAudio(args).value;
            args[..f.width] == AudioArgs(AacIf(f.fixUp), f.codec)
  {
    var f := ParseAudio(args).value;
    assert Lower("aac") == "aac";
    if f.codec != "copy" {
      AudioEncode(None, f.codec);
    }
    assert args[..f.width] == args[..2] + args[2..f.width];
  }

  /** Options that read back split into the two fragments read and the suffix. */
  lemma OptionsSplit(args: seq<string>)
    requires ParseOptions(args).Some?
    ensures var (v, a, output) := ParseOptions(args).value;
            args == args[..v.width] + args[v.width..][..a.width] + Suffix(output)
  {
    var (v, a, output) := ParseOptions(args).value;
    var rest := args[v.width..];
    assert rest == rest[..a.width] + rest[a.width..];
    assert args == args[..v.width] + rest;
  }

  /** A list that reads back splits into the prefix, the two fragments read, and the suffix. */
  lemma ParsedSplits(cmd: seq<string>)
    requires Parse(cmd).Some?
    ensures var args := cmd[9..];
            var v := ParseVideo(args).value;
            var a := ParseAudio(args[v.width..]).value;
            cmd == Prefix(cmd[2], cmd[4]) + args[..v.width] + args[v.width..][..a.width]
                   + Suffix(Parse(cmd).value.output)
  {
    var args := cmd[9..];
    OptionsSplit(args);
    assert cmd == cmd[..9] + args;
  }

  /**
   * The converse of `ParseCommand`: an argument list that reads back as a plan is the one
   * the builder produces for that plan, so reading back loses nothing.
   */
  lemma ParsedCommandIsBuilt(cmd: seq<string>)
    requires Parse(cmd).Some?
    ensures var p := Parse(cmd).value;
            cmd == Command(p.video, p.audio, p.output, HevcIf(p.hvc1Tagged), AacIf(p.adtsFiltered),
                           p.videoCodec, p.audioCodec)
  {
    var args := cmd[9..];
    var v := ParseVideo(args).value;
    ParsedSplits(cmd);
    ParsedVideoIsBuilt(args);
    ParsedAudioIsBuilt(args[v.width..]);
  }

  /**
   * The planning part of `merge_m4s_to_mp4`: probe both inputs, keep the codec name each
   * probe reports (whatever its stream type), and build the argument list from them.
   */
  method PlanMerge(video: string, audio: string, output: string,
                   videoProbe: Probe.ProbeRun, audioProbe: Probe.ProbeRun,
                   videoTarget: string, audioTarget: string) returns (cmd: seq<string>)
    ensures cmd == Command(video, audio, output, Probe.MediaInfo(videoProbe).1,
                           Probe.MediaInfo(audioProbe).1, videoTarget, audioTarget)
  {
    var videoType, videoOriginal := Probe.GetMediaInfo(videoProbe);
    var audioType, audioOriginal := Probe.GetMediaInfo(audioProbe);
    cmd := BuildCommand(video, audio, output, videoOriginal, audioOriginal, videoTarget, audioTarget);
  }

  /**
   * A failed probe leaves the original codec unknown, and an unknown codec gets no fix-up:
   * copying then emits neither the `hvc1` tag nor the bitstream filter.
   */
  lemma FailedProbeNoFixUps(video: string, audio: string, output: string,
                            videoProbe: Probe.ProbeRun, audioProbe: Probe.ProbeRun)
    requires videoProbe.returnCode != 0 && audioProbe.returnCode != 0
    ensures var p := Parse(Command(video, audio, output, Probe.MediaInfo(videoProbe).1,
                                   Probe.MediaInfo(audioProbe).1, "copy", "copy"));
            p.Some? && !p.value.hvc1Tagged && !p.value.adtsFiltered
  {
    ParseCommand(video, audio, output, Probe.MediaInfo(videoProbe).1, Probe.MediaInfo(audioProbe).1, "copy", "copy");
  }

  /**
   * Copying both streams of an upper-case `HEVC` video and an `aac` audio: the options
   * between the stream maps and the output are exactly `-c:v copy -tag:v hvc1 -c:a copy
   * -bsf:a aac_adtstoasc -movflags +faststart`.
   */
  lemma CopyHevcAacExample(video: string, audio: string, output: string)
    ensures Command(video, audio, output, Some("HEVC"), Some("aac"), "copy", "copy")[9..]
            == ["-c:v", "copy", "-tag:v", "hvc1", "-c:a", "copy", "-bsf:a", "aac_adtstoasc",
                "-movflags", "+faststart", output]
  {
    assert Lower("HEVC") == "hevc";
    assert Lower("aac") == "aac";
  }
}
