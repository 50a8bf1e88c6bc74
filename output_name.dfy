/**
 * How the output file name is made to carry the container's extension. The interactive
 * path (`get_output_path`) appends the dotted extension unless the name already ends with
 * it; the command-line path (`main`) replaces the name's extension, as `os.path.splitext`
 * finds it, by `'.' + format`. Both comparisons ignore letter case.
 */
module OutputName {
  import opened Wrappers
  import opened Text
  import opened Menus

  /** The path separators of `posixpath` and of `ntpath` (which also accepts `/`). */
  const PosixSeparators: set<char> := {'/'}
  const WindowsSeparators: set<char> := {'\\', '/'}

  /** The container formats `-f/--format` accepts. */
  const CliFormats: set<string> := {"mp4", "mkv", "mov", "avi"}

  /** `s.rfind(c, 0, n)` for any character `c` of `cs`: the last index below `n` holding one, or -1. */
  function LastIndexBefore(s: string, cs: set<char>, n: nat): (i: int)
    requires n <= |s|
    ensures -1 <= i < n
    ensures i >= 0 ==> s[i] in cs
    ensures forall j :: i < j < n ==> s[j] !in cs
  {
    if n == 0 then -1
    else if s[n - 1] in cs then n - 1
    else LastIndexBefore(s, cs, n - 1)
  }

  /** `s.rfind(c)` for any character `c` of `cs`: the last index holding one, or -1. */
  function LastIndexIn(s: string, cs: set<char>): (i: int)
    ensures -1 <= i < |s|
    ensures i >= 0 ==> s[i] in cs
    ensures forall j :: i < j < |s| ==> s[j] !in cs
  {
    LastIndexBefore(s, cs, |s|)
  }

  /**
   * The path component that starts at `start` (and runs to the end) has an extension: one
   * of its dots has some other character before it. A name made of leading dots only
   * (`.bashrc`, `..`) has none.
   */
  predicate HasExtension(p: string, start: int) {
    exists i, j :: 0 <= start <= j < i < |p| && p[i] == '.' && p[j] != '.'
  }

  /** Some character of `p[lo..hi]` is not a dot. */
  predicate NotAllDots(p: string, lo: int, hi: int) {
    exists k :: lo <= k < hi && 0 <= k < |p| && p[k] != '.'
  }

  /**
   * `os.path.splitext(p)`: split at the last dot that comes after the last separator,
   * unless everything between that separator and the dot is dots.
   */
  function SplitExt(p: string, seps: set<char>): (r: (string, string))
    ensures r.0 + r.1 == p
    ensures r.1 == [] || r.1[0] == '.'
    ensures forall i :: 1 <= i < |r.1| ==> r.1[i] != '.' && r.1[i] !in seps
  {
    var sepIndex := LastIndexIn(p, seps);
    var dotIndex := LastIndexIn(p, {'.'});
    if sepIndex < dotIndex && NotAllDots(p, sepIndex + 1, dotIndex) then
      (p[..dotIndex], p[dotIndex..])
    else
      (p, [])
  }

  /**
   * The separator set decides which dots count: a POSIX leading-dot name has no
   * extension, and a Windows path whose last dot sits before a backslash has none, while
   * on POSIX that backslash is an ordinary character and the extension runs to the end.
   */
  lemma SplitExtSeparatorExamples()
    ensures SplitExt("a/.bashrc", PosixSeparators) == ("a/.bashrc", "")
    ensures SplitExt("d.x\\b", WindowsSeparators) == ("d.x\\b", "")
    ensures SplitExt("d.x\\b", PosixSeparators) == ("d", ".x\\b")
  {
    var hidden, windows := "a/.bashrc", "d.x\\b";
    LastIndexInIs(hidden, PosixSeparators, 1);
    LastIndexInIs(hidden, {'.'}, 2);
    LastIndexInIs(windows, WindowsSeparators, 3);
    LastIndexInIs(windows, {'.'}, 1);
    LastIndexInIs(windows, PosixSeparators, -1);
    assert !NotAllDots(hidden, 2, 2);
    assert NotAllDots(windows, 0, 1) by { assert windows[0] != '.'; }
    assert windows[..1] == "d" && windows[1..] == ".x\\b";
  }

  /** `rfind` returns `i` when `i` holds a character it looks for and no later index does. */
  lemma LastIndexInIs(s: string, cs: set<char>, i: int)
    requires -1 <= i < |s| && (i >= 0 ==> s[i] in cs)
    requires forall j :: i < j < |s| ==> s[j] !in cs
    ensures LastIndexIn(s, cs) == i
  {
    if i >= 0 {
      LastIndexInIsLast(s, cs, i);
    }
  }

  /** No index after the one `rfind` returns holds a character it looks for. */
  lemma LastIndexInIsLast(s: string, cs: set<char>, x: int)
    requires 0 <= x < |s| && s[x] in cs
    ensures x <= LastIndexIn(s, cs)
  {
  }

  /** When `splitext` finds an extension, the path's last component has one. */
  lemma SplitExtOnlyWhenExtension(p: string, seps: set<char>)
    requires SplitExt(p, seps).1 != []
    ensures HasExtension(p, LastIndexIn(p, seps) + 1)
  {
    var sepIndex := LastIndexIn(p, seps);
    var dotIndex := LastIndexIn(p, {'.'});
    assert sepIndex < dotIndex && NotAllDots(p, sepIndex + 1, dotIndex);
    var k :| sepIndex + 1 <= k < dotIndex && 0 <= k < |p| && p[k] != '.';
    assert p[dotIndex] in {'.'};
  }

  /** When the path's last component has an extension, `splitext` finds one. */
  lemma SplitExtWhenExtension(p: string, seps: set<char>)
    requires HasExtension(p, LastIndexIn(p, seps) + 1)
    ensures SplitExt(p, seps).1 != []
  {
    var sepIndex := LastIndexIn(p, seps);
    var i, j :| sepIndex + 1 <= j < i < |p| && p[i] == '.' && p[j] != '.';
    LastIndexInIsLast(p, {'.'}, i);
    assert NotAllDots(p, sepIndex + 1, LastIndexIn(p, {'.'}));
  }

  /**
   * `splitext` finds an extension exactly when the path's last component (what follows its
   * last separator) has one.
   */
  lemma SplitExtFindsExtension(p: string, seps: set<char>)
    ensures SplitExt(p, seps).1 != [] <==> HasExtension(p, LastIndexIn(p, seps) + 1)
  {
    if SplitExt(p, seps).1 != [] {
      SplitExtOnlyWhenExtension(p, seps);
    }
    if HasExtension(p, LastIndexIn(p, seps) + 1) {
      SplitExtWhenExtension(p, seps);
    }
  }

  /**
   * The interactive normalisation: append `ext` unless the lower-cased name already ends
   * with it. Afterwards the lower-cased name ends with `ext` (a lower-case extension, as
   * every format menu entry is).
   */
  function AppendExtension(path: string, ext: string): (r: string)
    ensures r == path <==> EndsWith(Lower(path), ext)
    ensures r != path ==> r == path + ext
    ensures Lower(ext) == ext ==> EndsWith(Lower(r), ext)
  {
    if EndsWith(Lower(path), ext) then path
    else
      LowerAppend(path, ext);
      EndsWithAppended(Lower(path), ext);
      path + ext
  }

  /** Normalising a name the interactive way a second time changes nothing. */
  lemma AppendExtensionIdempotent(path: string, ext: string)
    requires Lower(ext) == ext
    ensures AppendExtension(AppendExtension(path, ext), ext) == AppendExtension(path, ext)
  {
  }

  /**
   * The command-line normalisation: unless the lower-cased name already ends with
   * `'.' + format`, drop its extension and put `'.' + format` in its place.
   */
  function ReplaceExtension(path: string, format: string, seps: set<char>): (r: string)
    ensures EndsWith(Lower(path), "." + format) ==> r == path
    ensures !EndsWith(Lower(path), "." + format) ==>
              EndsWith(r, "." + format) && path == r[..|r| - |format| - 1] + SplitExt(path, seps).1
    ensures Lower(format) == format ==> EndsWith(Lower(r), "." + format)
  {
    var ext := "." + format;
    if EndsWith(Lower(path), ext) then path
    else
      var root := SplitExt(path, seps).0;
      LowerAppend(root, ext);
      EndsWithAppended(root, ext);
      EndsWithAppended(Lower(root), Lower(ext));
      assert Lower(ext) == "." + Lower(format) by { LowerAppend(".", format); }
      root + ext
  }

  /** Normalising a name the command-line way a second time changes nothing. */
  lemma ReplaceExtensionIdempotent(path: string, format: string, seps: set<char>)
    requires Lower(format) == format
    ensures ReplaceExtension(ReplaceExtension(path, format, seps), format, seps)
            == ReplaceExtension(path, format, seps)
  {
  }

  /** The format menu returns exactly the formats `-f` accepts, each with a leading dot. */
  lemma FormatChoicesDotted()
    ensures CliChoices(FormatMenu) == set f | f in CliFormats :: "." + f
  {
    var dotted := set f | f in CliFormats :: "." + f;
    assert "." + "mp4" in dotted && "." + "mkv" in dotted && "." + "mov" in dotted && "." + "avi" in dotted;
    assert "." + "mp4" == ".mp4" && "." + "mkv" == ".mkv" && "." + "mov" == ".mov" && "." + "avi" == ".avi";
  }

  /** Every container choice of either interface is already lower case. */
  lemma FormatsLowerCase(format: string)
    requires format in CliFormats || format in CliChoices(FormatMenu)
    ensures Lower(format) == format
  {
    assert forall i :: 0 <= i < |format| ==> !('A' <= format[i] <= 'Z');
  }

  /**
   * Whatever extension the format menu returns, the interactive name ends with it and a
   * second normalisation changes nothing.
   */
  lemma InteractiveNameHasChosenExtension(line: string, path: string, ext: string)
    requires Choose(FormatMenu, line) == Some(ext)
    ensures EndsWith(Lower(AppendExtension(path, ext)), ext)
    ensures AppendExtension(AppendExtension(path, ext), ext) == AppendExtension(path, ext)
  {
    FormatsLowerCase(ext);
    AppendExtensionIdempotent(path, ext);
  }

  /**
   * Whatever format the command line accepts, the normalised name ends with `'.' + format`
   * and a second normalisation changes nothing.
   */
  lemma CliNameHasChosenExtension(path: string, format: string, seps: set<char>)
    requires format in CliFormats
    ensures EndsWith(Lower(ReplaceExtension(path, format, seps)), "." + format)
    ensures ReplaceExtension(ReplaceExtension(path, format, seps), format, seps)
            == ReplaceExtension(path, format, seps)
  {
    FormatsLowerCase(format);
    ReplaceExtensionIdempotent(path, format, seps);
  }
}
