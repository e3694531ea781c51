/**
 * What repeated calls of `std::getline` extract from a file's text: the text is cut at
 * every '\n', the '\n' itself is dropped, every other character (a '\r' included) is kept,
 * and a final '\n' does not start one more, empty, line.
 */
module LineReader {

  /** Index of the first '\n' in `s`, or |s| when there is none. */
  function NewlineIndex(s: string): (k: nat)
    ensures k <= |s|
    ensures k < |s| ==> s[k] == '\n'
  {
    if s == [] then 0
    else if s[0] == '\n' then 0
    else 1 + NewlineIndex(s[1..])
  }

  /** Everything before `NewlineIndex(s)` is not a '\n'. */
  lemma {:induction false} NewlineIndexIsFirst(s: string)
    ensures NoNewline(s[..NewlineIndex(s)])
  {
    if s != [] && s[0] != '\n' {
      NewlineIndexIsFirst(s[1..]);
      assert s[..NewlineIndex(s)] == [s[0]] + s[1..][..NewlineIndex(s[1..])];
    }
  }

  /** The lines `getline` reads from `text`, in order. */
  function Lines(text: string): (r: seq<string>)
    ensures |r| <= |text|
    decreases |text|
  {
    if text == [] then []
    else
      var k := NewlineIndex(text);
      if k == |text| then [text]
      else [text[..k]] + Lines(text[k + 1..])
  }

  /** A file whose every line ends with '\n': the inverse of `Lines`. */
  function JoinLines(lines: seq<string>): string
  {
    if lines == [] then "" else lines[0] + "\n" + JoinLines(lines[1..])
  }

  predicate NoNewline(s: string)
  {
    forall j :: 0 <= j < |s| ==> s[j] != '\n'
  }

  /**
   * One call of `getline` on the stream positioned at `pos`: the line it extracts and
   * the position after it (past the '\n' when there was one).
   */
  function NextLine(text: string, pos: nat): (r: (string, nat))
    requires pos < |text|
    ensures pos < r.1 <= |text|
    ensures Lines(text[pos..]) == [r.0] + Lines(text[r.1..])
  {
    var rest := text[pos..];
    var k := NewlineIndex(rest);
    if k == |rest| then
      assert text[|text|..] == [];
      (rest, |text|)
    else
      assert rest[k + 1..] == text[pos + k + 1..];
      (rest[..k], pos + k + 1)
  }

  /** `Lines` on a non-empty text without '\n': the text is the only line. */
  lemma LinesOfLastLine(s: string)
    requires s != [] && NewlineIndex(s) == |s|
    ensures Lines(s) == [s]
  {
  }

  /** `Lines` on a text with a '\n': the part before it, then the lines after it. */
  lemma LinesOfCut(s: string, k: nat)
    requires k == NewlineIndex(s) && k < |s|
    ensures Lines(s) == [s[..k]] + Lines(s[k + 1..])
  {
    assert s != [] && NewlineIndex(s) != |s|;
    var tail := s[k + 1..];
    assert Lines(s) == [s[..k]] + Lines(tail);
  }

  /** No line that `getline` yields contains '\n'. */
  lemma {:induction false} LinesHaveNoNewline(text: string)
    ensures forall i :: 0 <= i < |Lines(text)| ==> NoNewline(Lines(text)[i])
    decreases |text|
  {
    if text != [] {
      var k := NewlineIndex(text);
      NewlineIndexIsFirst(text);
      if k < |text| {
        LinesOfCut(text, k);
        LinesHaveNoNewline(text[k + 1..]);
      } else {
        LinesOfLastLine(text);
        assert text[..k] == text;
      }
    }
  }

  /** Writing lines out one per '\n' and reading them back yields the same lines. */
  lemma {:induction false} LinesOfJoin(lines: seq<string>)
    requires forall i :: 0 <= i < |lines| ==> NoNewline(lines[i])
    ensures Lines(JoinLines(lines)) == lines
  {
    if lines != [] {
      var l := lines[0];
      var text := JoinLines(lines);
      assert text == l + "\n" + JoinLines(lines[1..]);
      NewlineIndexAfter(l, JoinLines(lines[1..]));
      assert text[..|l|] == l;
      assert text[|l| + 1..] == JoinLines(lines[1..]);
      LinesOfJoin(lines[1..]);
    }
  }

  lemma {:induction false} NewlineIndexAfter(l: string, rest: string)
    requires NoNewline(l)
    ensures NewlineIndex(l + "\n" + rest) == |l|
  {
    var s := l + "\n" + rest;
    if l != [] {
      assert s[0] == l[0];
      assert s[1..] == l[1..] + "\n" + rest;
      NewlineIndexAfter(l[1..], rest);
    }
  }

  /**
   * Reading a text line by line and writing every line back with a '\n' gives the
   * text itself, with a '\n' added only when the text did not already end in one:
   * nothing but the separators is dropped, and '\r' survives.
   */
  lemma {:induction false} JoinOfLines(text: string)
    ensures JoinLines(Lines(text)) ==
            if text == [] || text[|text| - 1] == '\n' then text else text + "\n"
    decreases |text|
  {
    if text != [] {
      var k := NewlineIndex(text);
      if k == |text| {
        JoinOfLastLine(text);
      } else {
        JoinOfLines(text[k + 1..]);
        JoinOfCut(text, k);
      }
    }
  }

  lemma JoinOfLastLine(text: string)
    requires text != [] && NewlineIndex(text) == |text|
    ensures text[|text| - 1] != '\n'
    ensures JoinLines(Lines(text)) == text + "\n"
  {
    LinesOfLastLine(text);
    NewlineIndexIsFirst(text);
    assert text[..|text|] == text;
    JoinCons(text, []);
    assert [text] + [] == [text];
  }

  lemma JoinOfCut(text: string, k: nat)
    requires k == NewlineIndex(text) && k < |text|
    requires var rest := text[k + 1..];
             JoinLines(Lines(rest)) == if rest == [] || rest[|rest| - 1] == '\n' then rest else rest + "\n"
    ensures JoinLines(Lines(text)) == if text[|text| - 1] == '\n' then text else text + "\n"
  {
    var head, rest := text[..k], text[k + 1..];
    LinesOfCut(text, k);
    JoinCons(head, Lines(rest));
    SplitAt(text, k);
    if rest != [] {
      assert text[|text| - 1] == rest[|rest| - 1];
    }
  }

  lemma SplitAt(text: string, k: nat)
    requires k < |text| && text[k] == '\n'
    ensures text == text[..k] + "\n" + text[k + 1..]
  {
  }

  lemma JoinCons(line: string, lines: seq<string>)
    ensures JoinLines([line] + lines) == line + "\n" + JoinLines(lines)
  {
    assert ([line] + lines)[1..] == lines;
  }

  /** `getline` keeps '\r', reads a last line that has no '\n', and yields no empty line after a final '\n'. */
  lemma CarriageReturnKept()
    ensures Lines("a\r\nb\n") == ["a\r", "b"]
    ensures Lines("a\n\n") == ["a", ""]
    ensures Lines("ab") == ["ab"]
  {
    assert JoinLines(["b"]) == "b\n" by { JoinCons("b", []); }
    assert JoinLines(["a\r", "b"]) == "a\r\nb\n" by { JoinCons("a\r", ["b"]); }
    LinesOfJoin(["a\r", "b"]);
    assert JoinLines([""]) == "\n" by { JoinCons("", []); }
    assert JoinLines(["a", ""]) == "a\n\n" by { JoinCons("a", [""]); }
    LinesOfJoin(["a", ""]);
    LinesOfLastLine("ab");
  }
}
