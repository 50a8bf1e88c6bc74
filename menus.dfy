/**
 * The three interactive menus (`get_output_format`, `get_video_codec`, `get_audio_codec`):
 * a line of input, stripped, is either empty (take the default), one of the keys
 * `1`..`4` (look up a fixed table), or rejected, in which case the menu asks again.
 */
module Menus {
  import opened Wrappers
  import opened Text

  datatype Menu = FormatMenu | VideoCodecMenu | AudioCodecMenu

  /** The value an empty answer selects. */
  function Default(m: Menu): (v: string)
    ensures v in CliChoices(m)
  {
    match m
    case FormatMenu => ".mp4"
    case VideoCodecMenu => "copy"
    case AudioCodecMenu => "copy"
  }

  /** The table the keys `1`..`4` are looked up in. */
  function Table(m: Menu): (t: map<string, string>) {
    match m
    case FormatMenu => map["1" := ".mp4", "2" := ".mkv", "3" := ".mov", "4" := ".avi"]
    case VideoCodecMenu => map["1" := "copy", "2" := "libx264", "3" := "libx265", "4" := "libvpx-vp9"]
    case AudioCodecMenu => map["1" := "copy", "2" := "aac", "3" := "libmp3lame", "4" := "libopus"]
  }

  /**
   * The values a menu can return: the `choices` of `-v` and `-a` for the codec menus, and
   * the `choices` of `-f` with a leading dot for the format menu (see
   * `OutputName.FormatChoicesDotted`).
   */
  function CliChoices(m: Menu): (choices: set<string>) {
    match m
    case FormatMenu => {".mp4", ".mkv", ".mov", ".avi"}
    case VideoCodecMenu => {"copy", "libx264", "libx265", "libvpx-vp9"}
    case AudioCodecMenu => {"copy", "aac", "libmp3lame", "libopus"}
  }

  /** The answers a menu accepts, once stripped. */
  predicate Accepted(answer: string) {
    answer == "" || answer == "1" || answer == "2" || answer == "3" || answer == "4"
  }

  /** The table entry of an accepted key; key `1` holds the default. */
  function Lookup(m: Menu, key: string): (v: string)
    requires Accepted(key) && key != ""
    ensures v in CliChoices(m)
    ensures key == "1" ==> v == Default(m)
  {
    Table(m)[key]
  }

  /**
   * One pass of a menu's prompt loop on the line the user typed: `Some(value)` ends the
   * loop with that value, `None` prints "invalid choice" and asks again.
   */
  function Choose(m: Menu, line: string): (r: Option<string>)
    ensures r.Some? <==> Accepted(Strip(line))
  {
    var choice := Strip(line);
    if choice == "" then Some(Default(m))
    else if Accepted(choice) then Some(Lookup(m, choice))
    else None
  }

  /**
   * An accepted answer yields one of the values the command line offers for the same
   * setting, and an empty answer or `1` yields the default.
   */
  lemma ChooseYieldsChoice(m: Menu, line: string)
    ensures Choose(m, line).Some? ==> Choose(m, line).value in CliChoices(m)
    ensures Strip(line) == "" || Strip(line) == "1" ==> Choose(m, line) == Some(Default(m))
  {
  }

  /** The key that selects `value` in menu `m`. */
  function KeyOf(m: Menu, value: string): (key: string) {
    if value == Table(m)["1"] then "1"
    else if value == Table(m)["2"] then "2"
    else if value == Table(m)["3"] then "3"
    else "4"
  }

  /** A menu key is its own stripped form. */
  lemma StripKey(key: string)
    requires Accepted(key)
    ensures Strip(key) == key
  {
    assert key == [] || !IsSpace(key[0]);
  }

  /** Every choice the command line offers is selected in the menu by its own key. */
  lemma ChooseKeyOf(m: Menu, value: string)
    requires value in CliChoices(m)
    ensures Choose(m, KeyOf(m, value)) == Some(value)
  {
    StripKey(KeyOf(m, value));
  }

  /**
   * Each key selects its table entry, and distinct keys select distinct values: the key
   * that selects a value is `KeyOf` that value.
   */
  lemma ChooseKey(m: Menu, key: string)
    requires key in Table(m)
    ensures Choose(m, key) == Some(Table(m)[key])
    ensures KeyOf(m, Table(m)[key]) == key
  {
    assert Accepted(key);
    StripKey(key);
    KeyOfTable(m, key);
  }

  /** The menu tables are injective: `KeyOf` recovers the key of each entry. */
  lemma KeyOfTable(m: Menu, key: string)
    requires key in Table(m)
    ensures KeyOf(m, Table(m)[key]) == key
  {
  }

  /** Surrounding whitespace does not change what an answer selects. */
  lemma ChooseIgnoresWhitespace(m: Menu, line: string)
    ensures Choose(m, Strip(line)) == Choose(m, line)
  {
    StripIdempotent(line);
  }

  /**
   * The `while True` loop of a menu, run on the lines the user types in order: it returns
   * the value of the first accepted line and how many lines it read, or `None` with every
   * line read when the input runs out before an accepted answer.
   */
  method Prompt(m: Menu, lines: seq<string>) returns (choice: Option<string>, used: nat)
    ensures used <= |lines|
    ensures forall j :: 0 <= j < used - 1 ==> Choose(m, lines[j]).None?
    ensures choice.Some? ==> used > 0 && Choose(m, lines[used - 1]) == choice
    ensures choice.Some? ==> choice.value in CliChoices(m)
    ensures choice.None? ==> used == |lines| && forall j :: 0 <= j < |lines| ==> Choose(m, lines[j]).None?
  {
    used := 0;
    while used < |lines|
      invariant used <= |lines|
      invariant forall j :: 0 <= j < used ==> Choose(m, lines[j]).None?
    {
      var step := Choose(m, lines[used]);
      used := used + 1;
      if step.Some? {
        ChooseYieldsChoice(m, lines[used - 1]);
        return step, used;
      }
    }
    return None, used;
  }
}
