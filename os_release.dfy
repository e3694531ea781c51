/**
 * Recognising the distribution id in /etc/os-release. `initDistroName` matches every line, as a
 * whole, against the regular expression ^ID="?([^"\n]+)"? and takes the captured group of
 * the first line that matches; without such a line the name stays "linux". Only the
 * language of that one pattern is modelled here, not a regular-expression engine.
 */
module OsRelease {
  import opened Wrappers
  import opened LineReader

  /** The name the fetch record starts with. */
  const DefaultDistroName: string := "linux"

  /** A character that the bracket expression [^"\n] accepts. */
  predicate IsValueChar(c: char)
  {
    c != '"' && c != '\n'
  }

  /** A string the capture group ([^"\n]+) can hold. */
  predicate IsIdValue(x: string)
  {
    |x| > 0 && forall j :: 0 <= j < |x| ==> IsValueChar(x[j])
  }

  /**
   * Reference definition of the pattern's language: the whole line is `ID=`, an optional
   * '"', the capture `x`, and an optional '"'.
   */
  predicate MatchesIdLine(line: string, x: string)
  {
    IsIdValue(x) &&
    (line == "ID=" + x || line == "ID=\"" + x ||
     line == "ID=" + x + "\"" || line == "ID=\"" + x + "\"")
  }

  function DropLeadingQuote(s: string): string
  {
    if |s| > 0 && s[0] == '"' then s[1..] else s
  }

  function DropTrailingQuote(s: string): string
  {
    if |s| > 0 && s[|s| - 1] == '"' then s[..|s| - 1] else s
  }

  /**
   * `std::regex_match` of one line against the pattern: the captured value, or None when
   * the line does not match. Since the capture cannot contain '"', at most one leading
   * and one trailing '"' can belong to the optional parts, which fixes the capture.
   */
  function ParseIdLine(line: string): (r: Option<string>)
    ensures r.Some? ==> MatchesIdLine(line, r.value)
  {
    if |line| < 3 || line[..3] != "ID=" then None
    else
      var x := DropTrailingQuote(DropLeadingQuote(line[3..]));
      if IsIdValue(x) then
        assert line == "ID=" + line[3..];
        Some(x)
      else None
  }

  /** The parser accepts exactly the pattern's language, with exactly its capture. */
  lemma ParseIdLineExact(line: string, x: string)
    ensures ParseIdLine(line) == Some(x) <==> MatchesIdLine(line, x)
  {
    if MatchesIdLine(line, x) {
      var rest := line[3..];
      assert line[..3] == "ID=";
      assert x[|x| - 1] != '"';
      if line == "ID=" + x {
        assert rest == x;
      } else if line == "ID=\"" + x {
        assert rest == "\"" + x;
        assert DropLeadingQuote(rest) == x;
      } else if line == "ID=" + x + "\"" {
        assert rest == x + "\"";
        assert x[0] != '"';
        assert DropLeadingQuote(rest) == rest;
        assert DropTrailingQuote(rest) == x;
      } else {
        assert rest == "\"" + x + "\"";
        assert DropLeadingQuote(rest) == x + "\"";
        assert DropTrailingQuote(x + "\"") == x;
      }
    }
  }

  /** A line matches with at most one capture. */
  lemma CaptureUnique(line: string, x: string, y: string)
    requires MatchesIdLine(line, x) && MatchesIdLine(line, y)
    ensures x == y
  {
    ParseIdLineExact(line, x);
    ParseIdLineExact(line, y);
  }

  /** All four quotings of `ubuntu` give `ubuntu`. */
  lemma AcceptedExamples()
    ensures ParseIdLine("ID=\"ubuntu\"") == Some("ubuntu")
    ensures ParseIdLine("ID=ubuntu") == Some("ubuntu")
    ensures ParseIdLine("ID=\"ubuntu") == Some("ubuntu")
    ensures ParseIdLine("ID=ubuntu\"") == Some("ubuntu")
    ensures ParseIdLine("ID=ubuntu\r") == Some("ubuntu\r")
  {
    var u := "ubuntu";
    assert IsIdValue(u) by {
      forall j | 0 <= j < |u| ensures IsValueChar(u[j]) {
        assert u[j] in {'u', 'b', 'n', 't'};
      }
    }
    var ur := "ubuntu\r";
    assert IsIdValue(ur) by {
      forall j | 0 <= j < |ur| ensures IsValueChar(ur[j]) {
        assert ur[j] in {'u', 'b', 'n', 't', '\r'};
      }
    }
    assert ParseIdLine("ID=\"ubuntu\"") == Some("ubuntu") by {
      assert MatchesIdLine("ID=\"ubuntu\"", "ubuntu");
      ParseIdLineExact("ID=\"ubuntu\"", "ubuntu");
    }
    assert ParseIdLine("ID=ubuntu") == Some("ubuntu") by {
      assert MatchesIdLine("ID=ubuntu", "ubuntu");
      ParseIdLineExact("ID=ubuntu", "ubuntu");
    }
    assert ParseIdLine("ID=\"ubuntu") == Some("ubuntu") by {
      assert MatchesIdLine("ID=\"ubuntu", "ubuntu");
      ParseIdLineExact("ID=\"ubuntu", "ubuntu");
    }
    assert ParseIdLine("ID=ubuntu\"") == Some("ubuntu") by {
      assert MatchesIdLine("ID=ubuntu\"", "ubuntu");
      ParseIdLineExact("ID=ubuntu\"", "ubuntu");
    }
    assert ParseIdLine("ID=ubuntu\r") == Some("ubuntu\r") by {
      assert MatchesIdLine("ID=ubuntu\r", "ubuntu\r");
      ParseIdLineExact("ID=ubuntu\r", "ubuntu\r");
    }
  }

  /** The match is of the whole line: other keys, empty values and inner quotes do not match. */
  lemma RejectedExamples()
    ensures ParseIdLine("ID_LIKE=debian") == None
    ensures ParseIdLine("VERSION_ID=\"22.04\"") == None
    ensures ParseIdLine("ID=") == None
    ensures ParseIdLine("ID=\"\"") == None
    ensures ParseIdLine("ID=a\"b") == None
  {
    assert "ID_LIKE=debian"[..3] == "ID_";
    assert "VERSION_ID=\"22.04\""[..3] == "VER";
    assert "ID="[3..] == "";
    assert "ID=\"\""[3..] == "\"\"";
    assert DropLeadingQuote("\"\"") == "\"";
    assert "ID=a\"b"[3..] == "a\"b";
    assert "a\"b"[1] == '"';
  }

  /** A line that does not start with `ID=` (a leading space, say) never matches. */
  lemma RejectsWithoutIdPrefix(line: string)
    requires |line| < 3 || line[..3] != "ID="
    ensures ParseIdLine(line) == None
    ensures forall x :: !MatchesIdLine(line, x)
  {
    forall x ensures !MatchesIdLine(line, x) {
      ParseIdLineExact(line, x);
    }
  }

  /** The value of the first line that matches, if any line does. */
  function FirstIdValue(lines: seq<string>): (r: Option<string>)
    ensures r.Some? ==> IsIdValue(r.value)
  {
    if lines == [] then None
    else if ParseIdLine(lines[0]).Some? then ParseIdLine(lines[0])
    else FirstIdValue(lines[1..])
  }

  /** The distribution name os-release yields: the first match, else "linux". */
  function ResolveDistroName(lines: seq<string>): (r: string)
    ensures IsIdValue(r)
  {
    FirstIdValue(lines).GetOr(DefaultDistroName)
  }

  /** The name found when os-release opens with `text`, or "linux" when it cannot be opened. */
  function DetectDistroName(osRelease: Option<string>): (r: string)
    ensures IsIdValue(r)
    ensures osRelease.None? ==> r == DefaultDistroName
  {
    match osRelease
    case None => DefaultDistroName
    case Some(text) => ResolveDistroName(Lines(text))
  }

  /** The first line that matches decides the value. */
  lemma {:induction false} FirstMatchWins(lines: seq<string>, i: nat)
    requires i < |lines| && ParseIdLine(lines[i]).Some?
    requires forall j :: 0 <= j < i ==> ParseIdLine(lines[j]).None?
    ensures FirstIdValue(lines) == ParseIdLine(lines[i])
    ensures ResolveDistroName(lines) == ParseIdLine(lines[i]).value
  {
    if i > 0 {
      assert ParseIdLine(lines[0]).None?;
      FirstMatchWins(lines[1..], i - 1);
    }
  }

  /** A value found always comes from a line that matches with no earlier line matching. */
  lemma {:induction false} FirstIdValueHasWitness(lines: seq<string>)
    requires FirstIdValue(lines).Some?
    ensures exists i :: 0 <= i < |lines| && ParseIdLine(lines[i]) == FirstIdValue(lines) &&
                        forall j :: 0 <= j < i ==> ParseIdLine(lines[j]).None?
  {
    if ParseIdLine(lines[0]).None? {
      FirstIdValueHasWitness(lines[1..]);
      var i :| 0 <= i < |lines[1..]| && ParseIdLine(lines[1..][i]) == FirstIdValue(lines[1..]) &&
               forall j :: 0 <= j < i ==> ParseIdLine(lines[1..][j]).None?;
      assert ParseIdLine(lines[i + 1]) == FirstIdValue(lines);
      assert forall j :: 0 <= j < i + 1 ==> ParseIdLine(lines[j]).None? by {
        forall j | 0 <= j < i + 1 ensures ParseIdLine(lines[j]).None? {
          if j > 0 { assert lines[j] == lines[1..][j - 1]; }
        }
      }
    } else {
      assert ParseIdLine(lines[0]) == FirstIdValue(lines);
    }
  }

  /** With no matching line nothing is found, and the name stays "linux". */
  lemma {:induction false} NoMatchGivesDefault(lines: seq<string>)
    ensures FirstIdValue(lines).None? <==> forall i :: 0 <= i < |lines| ==> ParseIdLine(lines[i]).None?
    ensures (forall i :: 0 <= i < |lines| ==> ParseIdLine(lines[i]).None?) ==>
            ResolveDistroName(lines) == "linux"
  {
    if lines != [] {
      NoMatchGivesDefault(lines[1..]);
      assert forall i :: 1 <= i < |lines| ==> lines[i] == lines[1..][i - 1];
    }
  }

  /** Once a line has matched, lines after it cannot change the result. */
  lemma {:induction false} LaterLinesIgnored(front: seq<string>, back: seq<string>)
    ensures FirstIdValue(front).Some? ==> FirstIdValue(front + back) == FirstIdValue(front)
    ensures FirstIdValue(front).None? ==> FirstIdValue(front + back) == FirstIdValue(back)
  {
    if front == [] {
      assert front + back == back;
    } else {
      assert (front + back)[0] == front[0];
      assert (front + back)[1..] == front[1..] + back;
      LaterLinesIgnored(front[1..], back);
    }
  }

  /** An os-release of `ID="ubuntu"` then `VERSION="22.04"` names ubuntu; a missing one names linux. */
  lemma DetectExamples()
    ensures DetectDistroName(Some("ID=\"ubuntu\"\nVERSION=\"22.04\"\n")) == "ubuntu"
    ensures DetectDistroName(None) == "linux"
  {
    var lines := ["ID=\"ubuntu\"", "VERSION=\"22.04\""];
    assert "ID=\"ubuntu\"\nVERSION=\"22.04\"\n" == JoinLines(lines) by {
      JoinCons("VERSION=\"22.04\"", []);
      JoinCons("ID=\"ubuntu\"", ["VERSION=\"22.04\""]);
      assert [lines[0]] + [lines[1]] == lines;
    }
    LinesOfJoin(lines);
    AcceptedExamples();
  }
}
