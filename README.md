# 2M4STO1MP4 merge planner, modelled in Dafny

The tool merges a video-only and an audio-only fragmented-MP4 ("m4s") download into one
playable file by running `ffmpeg`. Everything it does besides running external programs
is deciding what to run and what to call the result. This project models that part:

- **MergeCommand**: the `ffmpeg` argument list `merge_m4s_to_mp4` builds. It has a fixed
  prefix that maps the first video stream of input 0 and the first audio stream of
  input 1. Then comes a video fragment: either a stream copy, tagged `hvc1` for an HEVC
  original, or an encoder with its fixed tuning. Then an audio fragment: either a stream
  copy, with the `aac_adtstoasc` filter for an AAC original, or an encoder with its fixed
  bitrate. It ends with `-movflags +faststart` and the output path. The builder is a
  method that grows one list, proved equal to a specification function. A reader function
  turns an argument list back into the plan it carries, and two lemmas prove it is an
  exact inverse of the builder.
- **Probe**: the stream scan of `get_media_info`, which works on the already-decoded
  `ffprobe` output. It returns `(codec_type, codec_name)` of the first stream that is
  video or audio. It returns `(None, None)` on a non-zero exit status, on undecodable
  output, or when no stream qualifies.
- **Menus**: the three interactive menus. A stripped answer that is empty gives the
  default, `1`..`4` look up the table, and anything else makes the menu ask again. The
  prompt loop is modelled over the finite sequence of lines the user types.
- **OutputName**: the two ways the output name gets its extension. The interactive path
  appends the dotted extension unless the lower-cased name already ends with it. The
  command line replaces the `os.path.splitext` extension with `'.' + format`.
- **Text** and **Wrappers**: the Python string operations used above (`strip`, `lower`,
  `endswith`) and `Option` for `None`.

Paths are opaque strings. Target codec names are arbitrary strings, as in the source:
a name outside the tables gets `-c:v <name>` or `-c:a <name>` and nothing more.

`get_media_info` (2m4sto1mp4_1.0.0.py:183-187) returns the first stream that is video or
audio, whichever type it has. A video input whose first stream is audio therefore reports
audio, with the audio codec's name. `Probe.FirstOfEitherType` states this.

## Model

| member | source | states |
|---|---|---|
| `MergeCommand.BuildCommand` | 2m4sto1mp4_1.0.0.py:247-291 | The list grown by the `extend` calls is exactly the prefix, then the video fragment, then the audio fragment, then the suffix. It starts with the nine prefix arguments and ends with `-movflags +faststart <output>`. The container format is not an input. |
| `MergeCommand.ExtendVideo` | 2m4sto1mp4_1.0.0.py:256-270 | The video branch appends exactly the video fragment to the list it is given. |
| `MergeCommand.ExtendAudio` | 2m4sto1mp4_1.0.0.py:272-285 | The audio branch appends exactly the audio fragment to the list it is given. |
| `MergeCommand.VideoCopy` | 2m4sto1mp4_1.0.0.py:257-261 | Copying video starts with `-c:v copy` and contains `-tag:v` if and only if the original codec is present and lower-cases to `hevc` or `h265`. |
| `MergeCommand.VideoEncode` | 2m4sto1mp4_1.0.0.py:262-270 | Re-encoding video is `-c:v <target>` followed by that target's row of the tuning table: `libx264` preset medium and crf 23, `libx265` preset medium, crf 28 and `-tag:v hvc1`, `libvpx-vp9` `-b:v 0 -crf 30`, any other name nothing. |
| `MergeCommand.AudioCopy` | 2m4sto1mp4_1.0.0.py:273-276 | Copying audio starts with `-c:a copy` and contains `-bsf:a` if and only if the original codec is present and lower-cases to exactly `aac`. |
| `MergeCommand.AudioEncode` | 2m4sto1mp4_1.0.0.py:277-285 | Re-encoding audio is `-c:a <target>` followed by that target's bitrate row: `aac` and `libmp3lame` 192k, `libopus` 128k, any other name nothing. |
| `MergeCommand.IsHevcIgnoresCase` | 2m4sto1mp4_1.0.0.py:260 | The HEVC and AAC tests on the original codec ignore letter case. |
| `MergeCommand.Hvc1Tagging` | 2m4sto1mp4_1.0.0.py:257-270 | For the four offered video targets, `hvc1` appears if and only if an HEVC original is copied or the target is `libx265`. |
| `MergeCommand.ParseVideoArgs` | 2m4sto1mp4_1.0.0.py:256-270 | The video fragment, followed by the audio fragment, reads back as its target codec, whether it was tagged, and its width. |
| `MergeCommand.ParseAudioArgs` | 2m4sto1mp4_1.0.0.py:272-285 | The audio fragment, followed by the suffix, reads back as its target codec, whether it was filtered, and its width. |
| `MergeCommand.ParseCommand` | 2m4sto1mp4_1.0.0.py:247-291 | Every built list reads back as its plan: the three paths in their places, both target codecs, the tag exactly when an HEVC original is copied, and the filter exactly when an AAC original is copied. |
| `MergeCommand.ParsedVideoIsBuilt` | 2m4sto1mp4_1.0.0.py:256-270 | A video fragment that reads back is one the video branch emits. |
| `MergeCommand.ParsedAudioIsBuilt` | 2m4sto1mp4_1.0.0.py:272-285 | An audio fragment that reads back is one the audio branch emits. |
| `MergeCommand.ParsedCommandIsBuilt` | 2m4sto1mp4_1.0.0.py:247-291 | Conversely, a list that reads back as a plan is exactly the list the builder produces for that plan, so the reading loses nothing. |
| `MergeCommand.PlanMerge` | 2m4sto1mp4_1.0.0.py:239-291 | Merging builds the list from the codec name each input's probe reports, with the user's targets. |
| `MergeCommand.FailedProbeNoFixUps` | 2m4sto1mp4_1.0.0.py:176-178 | When both probes fail, copying emits neither the `hvc1` tag nor the bitstream filter. |
| `MergeCommand.CopyHevcAacExample` | 2m4sto1mp4_1.0.0.py:257-291 | Copying an `HEVC` video and an `aac` audio yields `-c:v copy -tag:v hvc1 -c:a copy -bsf:a aac_adtstoasc -movflags +faststart <output>` after the stream maps. |
| `Probe.FirstMedia` | 2m4sto1mp4_1.0.0.py:183-187 | A stream the scan finds is of type video or audio and belongs to the list. |
| `Probe.FirstMediaIsFirst` | 2m4sto1mp4_1.0.0.py:183-187 | If index `i` holds a video or audio stream and no earlier index does, the scan returns the stream at `i`. Earlier streams of other types are skipped. |
| `Probe.FirstMediaNone` | 2m4sto1mp4_1.0.0.py:183-189 | The scan finds nothing if and only if no stream has type video or audio. |
| `Probe.MediaInfo` | 2m4sto1mp4_1.0.0.py:176-189 | The reported type is absent, `video` or `audio`. An absent type comes with an absent name. A non-zero exit status or undecodable output gives `(None, None)`. |
| `Probe.GetMediaInfo` | 2m4sto1mp4_1.0.0.py:166-192 | The loop with early return computes exactly `MediaInfo`. |
| `Probe.FirstOfEitherType` | 2m4sto1mp4_1.0.0.py:183-187 | A file whose streams are an audio stream and then a video stream is reported as audio, with the audio stream's codec. |
| `Menus.Choose` | 2m4sto1mp4_1.0.0.py:42-54 | An answer is accepted if and only if, stripped, it is empty or one of `1`..`4`. |
| `Menus.ChooseYieldsChoice` | 2m4sto1mp4_1.0.0.py:44-53 | An accepted answer yields a value in the menu's choice set: for the codec menus the values `-v` and `-a` offer, for the format menu the formats `-f` offers with a leading dot. Empty and `1` both yield the default. |
| `Menus.ChooseKeyOf` | 2m4sto1mp4_1.0.0.py:67-79 | Every value in the menu's choice set is selected by its own menu key. |
| `Menus.ChooseKey` | 2m4sto1mp4_1.0.0.py:92-104 | Each key selects its table entry, and distinct keys select distinct values. |
| `Menus.ChooseIgnoresWhitespace` | 2m4sto1mp4_1.0.0.py:43 | Whitespace around an answer does not change what it selects. |
| `Menus.Prompt` | 2m4sto1mp4_1.0.0.py:67-79 | The re-prompting loop returns the value of the first accepted line and how many lines it read. Every earlier line was rejected. When the input runs out first, it returns nothing. |
| `Text.Strip` | 2m4sto1mp4_1.0.0.py:43 | The result is a slice of the input with only whitespace before and after it. It is empty if and only if the input is all whitespace, and otherwise neither starts nor ends with whitespace. An input with no whitespace at either end is returned unchanged. |
| `OutputName.SplitExt` | 2m4sto1mp4_1.0.0.py:487 | Root and extension concatenate back to the path. The extension is empty or starts with a dot and has no further dot and no separator. |
| `OutputName.SplitExtFindsExtension` | 2m4sto1mp4_1.0.0.py:487 | `splitext` finds an extension if and only if the last path component has a dot with some non-dot character before it. |
| `OutputName.SplitExtSeparatorExamples` | 2m4sto1mp4_1.0.0.py:487 | On POSIX, `a/.bashrc` has no extension. On Windows, `d.x\b` has none because its dot comes before a backslash. On POSIX the same name splits as `d` and `.x\b`. |
| `OutputName.AppendExtension` | 2m4sto1mp4_1.0.0.py:120-121 | The name is unchanged if and only if its lower-cased form already ends with the extension. Otherwise the extension is appended. A lower-case extension always ends the lower-cased result. |
| `OutputName.AppendExtensionIdempotent` | 2m4sto1mp4_1.0.0.py:120-121 | Appending the extension twice is the same as appending it once. |
| `OutputName.ReplaceExtension` | 2m4sto1mp4_1.0.0.py:486-487 | A name already ending with `'.' + format`, ignoring case, is unchanged. Any other name loses its `splitext` extension and gains `'.' + format`. A lower-case format always ends the lower-cased result. |
| `OutputName.ReplaceExtensionIdempotent` | 2m4sto1mp4_1.0.0.py:486-487 | Replacing the extension twice is the same as replacing it once. |
| `OutputName.FormatChoicesDotted` | 2m4sto1mp4_1.0.0.py:433-436 | The format menu's choice set is exactly the formats `-f` accepts, each with a leading dot. |
| `OutputName.FormatsLowerCase` | 2m4sto1mp4_1.0.0.py:433-436 | Every container choice of the command line and of the format menu is lower case. |
| `OutputName.InteractiveNameHasChosenExtension` | 2m4sto1mp4_1.0.0.py:111-121 | Whatever extension the format menu returns, the interactive name ends with it, ignoring case, and normalising again changes nothing. |
| `OutputName.CliNameHasChosenExtension` | 2m4sto1mp4_1.0.0.py:485-487 | For every format `-f` accepts, the command-line name ends with `'.' + format`, ignoring case, and normalising again changes nothing. |

## Left out

- Running `ffmpeg` and `ffprobe` (`check_ffmpeg`, the probe, the merge run, the info run): these are external programs. A probe's outcome is an input to `Probe`.
- `json.loads`: `Probe` takes the decoded stream list, or the fact that decoding failed. A stream field of a non-string type, which would make `.lower()` raise, is not modelled.
- `Path(...).absolute()`: it depends on the working directory, so paths are passed through unchanged.
- The report scraped from `ffmpeg -i` with regular expressions (`get_output_file_info`): modelling it faithfully needs Python's regex search semantics, including non-greedy matching.
- The file size in megabytes: it is a floating-point figure from a filesystem query.
- File-system checks and effects: `os.path.exists`, `os.makedirs`, `get_valid_file_path`, and the overwrite confirmation.
- Printing, the `print_*` helpers, and quitting with `q` through `sys.exit`.
- `argparse` handling and the exit codes of `main` and `merge_m4s_to_mp4`. The accepted choice sets appear as `Menus.CliChoices` and `OutputName.CliFormats`. `OutputName.FormatChoicesDotted` relates the format sets.
- The Python 2 `Popen` fallback: it is unreachable under Python 3.
- Text.Lower: lower-cases ASCII letters only. Python's `str.lower` also maps other characters. Codec names, extensions and formats are ASCII, so their comparisons agree with the source. The user's output path can hold any text, and there the model diverges. For example, Python lower-cases U+212A KELVIN SIGN to `k`. `get_output_path` therefore keeps `out.m\u212Av` unchanged for `.mkv`, but `OutputName.AppendExtension` appends `.mkv`. The command-line path with `-f mkv` diverges in the same way.
- Menus.Prompt: reads a finite list of lines and returns nothing when they run out. The source would block for more input, or raise `EOFError` at end of input.
- OutputName.SplitExt: takes the separator set as a parameter (`/` for POSIX, `\` and `/` for Windows). It does not treat a Windows drive prefix specially, and neither does `splitext`.
