/**
 * What `render` writes: for each logo line, in order, ESC, the line, ESC "[0m" and the
 * newline of `std::endl`.
 */
module Output {
  import opened LineReader

  const Esc: string := "\U{1B}"
  const Reset: string := "\U{1B}[0m"

  /** One logo line as it is printed, without its newline. */
  function Decorated(line: string): string
  {
    Esc + line + Reset
  }

  /** The whole text written to standard output for the logo `lines`. */
  function Rendered(lines: seq<string>): (r: string)
    ensures r == "" <==> lines == []
    ensures lines != [] ==> r[|r| - 1] == '\n'
  {
    if lines == [] then "" else Decorated(lines[0]) + "\n" + Rendered(lines[1..])
  }

  /** Rendering one more line appends exactly that line's segment. */
  lemma {:induction false} RenderedAppend(lines: seq<string>, line: string)
    ensures Rendered(lines + [line]) == Rendered(lines) + Decorated(line) + "\n"
  {
    if lines == [] {
      assert [] + [line] == [line];
      assert Rendered([line]) == Decorated(line) + "\n" + Rendered([]);
    } else {
      var longer := lines + [line];
      assert longer[0] == lines[0];
      assert longer[1..] == lines[1..] + [line];
      RenderedAppend(lines[1..], line);
      calc {
        Rendered(longer);
        Decorated(lines[0]) + "\n" + Rendered(lines[1..] + [line]);
        Decorated(lines[0]) + "\n" + (Rendered(lines[1..]) + Decorated(line) + "\n");
        (Decorated(lines[0]) + "\n" + Rendered(lines[1..])) + Decorated(line) + "\n";
      }
    }
  }

  /** The decorations add no newline, and stripping them gives the line back. */
  lemma DecoratedParts(line: string)
    requires NoNewline(line)
    ensures NoNewline(Decorated(line))
    ensures |Decorated(line)| == |line| + 5
    ensures Decorated(line)[1..|Decorated(line)| - 4] == line
  {
    var d := Decorated(line);
    assert d == "\U{1B}" + line + "\U{1B}[0m";
    assert forall j :: 0 <= j < |d| ==> d[j] != '\n' by {
      forall j | 0 <= j < |d| ensures d[j] != '\n' {
        if 1 <= j < |line| + 1 {
          assert d[j] == line[j - 1];
        }
      }
    }
  }

  /**
   * For lines without '\n', the output read back line by line is one segment per logo
   * line, in order, each the line between ESC and ESC "[0m"; no logo, no output.
   */
  lemma {:induction false} RenderedSegments(lines: seq<string>)
    requires forall i :: 0 <= i < |lines| ==> NoNewline(lines[i])
    ensures lines == [] <==> Rendered(lines) == ""
    ensures |Lines(Rendered(lines))| == |lines|
    ensures forall i :: 0 <= i < |lines| ==> Lines(Rendered(lines))[i] == Esc + lines[i] + Reset
  {
    var segments := seq(|lines|, i requires 0 <= i < |lines| => Decorated(lines[i]));
    forall i | 0 <= i < |lines| ensures NoNewline(segments[i]) {
      DecoratedParts(lines[i]);
    }
    RenderedIsJoin(lines);
    LinesOfJoin(segments);
    if lines != [] {
      assert Rendered(lines) == Decorated(lines[0]) + "\n" + Rendered(lines[1..]);
      assert |Rendered(lines)| > 0;
    }
  }

  lemma {:induction false} RenderedIsJoin(lines: seq<string>)
    ensures Rendered(lines) == JoinLines(seq(|lines|, i requires 0 <= i < |lines| => Decorated(lines[i])))
  {
    var segments := seq(|lines|, i requires 0 <= i < |lines| => Decorated(lines[i]));
    if lines != [] {
      RenderedIsJoin(lines[1..]);
      assert segments[1..] == seq(|lines[1..]|, i requires 0 <= i < |lines[1..]| => Decorated(lines[1..][i]));
    }
  }
}
