/**
 * The fetch record and the program's pipeline: choose the distribution name (the first
 * argument, else os-release), load the logo file line by line, and render it.
 * Files are given as their text (`None` when the stream cannot be opened), the asset
 * directory as a path, and `std::filesystem::exists` as a predicate on paths.
 */
module Fetch {
  import opened Wrappers
  import opened LineReader
  import opened OsRelease
  import opened LogoPath
  import opened Output

  /** The logo lines read from a file: none when it could not be opened. */
  function LoadedLogo(file: Option<string>): (r: seq<string>)
    ensures forall i :: 0 <= i < |r| ==> NoNewline(r[i])
    ensures file.None? ==> r == []
  {
    match file
    case None => []
    case Some(text) => LinesHaveNoNewline(text); Lines(text)
  }

  class FetchData {
    var distroName: string
    var distroLogo: seq<string>

    constructor ()
      ensures distroName == DefaultDistroName && distroLogo == []
    {
      distroName := DefaultDistroName;
      distroLogo := [];
    }

    /**
     * Scans os-release line by line and stops at the first `ID` line, whose value becomes
     * the name; with no such line, or no file, the name is left as it was.
     */
    method InitDistroName(osRelease: Option<string>)
      modifies this`distroName
      ensures distroLogo == old(distroLogo)
      ensures distroName == match osRelease
                            case None => old(distroName)
                            case Some(text) => FirstIdValue(Lines(text)).GetOr(old(distroName))
    {
      if osRelease.Some? {
        var text := osRelease.value;
        var pos := 0;
        while pos < |text|
          invariant pos <= |text|
          invariant FirstIdValue(Lines(text[pos..])) == FirstIdValue(Lines(text))
          invariant distroName == old(distroName)
          decreases |text| - pos
        {
          var (line, next) := NextLine(text, pos);
          var m := ParseIdLine(line);
          if m.Some? {
            distroName := m.value;
            return;
          }
          pos := next;
        }
        assert text[pos..] == [];
      }
    }

    /**
     * Picks the logo file for the current name and appends its lines, in order and
     * unchanged, to the logo; a file that cannot be opened adds nothing.
     */
    method InitDistroLogo(dir: string, pathExists: string -> bool, open: string -> Option<string>)
      modifies this`distroLogo
      ensures distroName == old(distroName)
      ensures distroLogo == old(distroLogo) + LoadedLogo(open(SelectLogoPath(dir, distroName, pathExists)))
    {
      var logoPath := SelectLogoPath(dir, distroName, pathExists);
      var logoArt := open(logoPath);
      if logoArt.Some? {
        var text := logoArt.value;
        var pos := 0;
        while pos < |text|
          invariant pos <= |text|
          invariant distroLogo + Lines(text[pos..]) == old(distroLogo) + Lines(text)
          decreases |text| - pos
        {
          var (line, next) := NextLine(text, pos);
          assert distroLogo + Lines(text[pos..]) == (distroLogo + [line]) + Lines(text[next..]);
          distroLogo := distroLogo + [line];
          pos := next;
        }
        assert text[pos..] == [];
      }
    }
  }

  /** Writes every logo line between ESC and ESC "[0m", one per output line. */
  method Render(data: FetchData) returns (out: string)
    ensures out == Rendered(data.distroLogo)
  {
    out := "";
    for i := 0 to |data.distroLogo|
      invariant out == Rendered(data.distroLogo[..i])
    {
      RenderedAppend(data.distroLogo[..i], data.distroLogo[i]);
      assert data.distroLogo[..i + 1] == data.distroLogo[..i] + [data.distroLogo[i]];
      out := out + Esc + data.distroLogo[i] + Reset + "\n";
    }
    assert data.distroLogo[..|data.distroLogo|] == data.distroLogo;
  }

  /** The name `main` settles on; `args` is argv, program name first. */
  function ChooseName(args: seq<string>, osRelease: Option<string>): (r: string)
    requires |args| >= 1
    ensures |args| != 1 ==> r == args[1]
    ensures |args| == 1 ==> r == DetectDistroName(osRelease) && IsIdValue(r)
  {
    if |args| != 1 then args[1] else DetectDistroName(osRelease)
  }

  /** `main`: settle the name, load the logo, render it; the result is what reaches stdout. */
  method Run(args: seq<string>, osRelease: Option<string>, dir: string,
             pathExists: string -> bool, open: string -> Option<string>) returns (output: string)
    requires |args| >= 1
    ensures output == Rendered(LoadedLogo(open(SelectLogoPath(dir, ChooseName(args, osRelease), pathExists))))
  {
    var data := new FetchData();
    if |args| != 1 {
      data.distroName := args[1];
    } else {
      data.InitDistroName(osRelease);
      if osRelease.Some? {
        assert data.distroName == ResolveDistroName(Lines(osRelease.value));
      }
    }
    ghost var name := ChooseName(args, osRelease);
    assert data.distroName == name;
    data.InitDistroLogo(dir, pathExists, open);
    assert [] + LoadedLogo(open(SelectLogoPath(dir, name, pathExists))) ==
           LoadedLogo(open(SelectLogoPath(dir, name, pathExists)));
    output := Render(data);
  }

  /** Any argument wins verbatim and os-release is not consulted. */
  lemma ArgumentOverrides(args: seq<string>, osRelease: Option<string>, other: Option<string>)
    requires |args| >= 2
    ensures ChooseName(args, osRelease) == args[1]
    ensures ChooseName(args, osRelease) == ChooseName(args, other)
  {
  }

  /** With no argument the name comes from os-release: never empty, never holding '"'. */
  lemma DetectedNameIsIdValue(args: seq<string>, osRelease: Option<string>)
    requires |args| == 1
    ensures ChooseName(args, osRelease) == DetectDistroName(osRelease)
    ensures IsIdValue(ChooseName(args, osRelease))
  {
  }

  /**
   * Asking for a distribution whose logo file does not exist shows the `linux` logo file's
   * lines verbatim.
   */
  lemma MissingLogoFallsBack(args: seq<string>, osRelease: Option<string>, dir: string,
                             pathExists: string -> bool, open: string -> Option<string>)
    requires |args| >= 2
    requires !pathExists(LogoFile(dir, args[1]))
    ensures LoadedLogo(open(SelectLogoPath(dir, ChooseName(args, osRelease), pathExists))) ==
            LoadedLogo(open(LogoFile(dir, FallbackLogo)))
  {
  }

  /**
   * What `main` prints read back line by line: one segment per line of the chosen logo file,
   * in order, and nothing at all when that file cannot be opened.
   */
  lemma OutputSegments(args: seq<string>, osRelease: Option<string>, dir: string,
                       pathExists: string -> bool, open: string -> Option<string>)
    requires |args| >= 1
    ensures var logo := LoadedLogo(open(SelectLogoPath(dir, ChooseName(args, osRelease), pathExists)));
            var out := Rendered(logo);
            |Lines(out)| == |logo| &&
            (forall i :: 0 <= i < |logo| ==> Lines(out)[i] == Esc + logo[i] + Reset) &&
            (open(SelectLogoPath(dir, ChooseName(args, osRelease), pathExists)).None? ==> out == "")
  {
    var logo := LoadedLogo(open(SelectLogoPath(dir, ChooseName(args, osRelease), pathExists)));
    RenderedSegments(logo);
  }
}
