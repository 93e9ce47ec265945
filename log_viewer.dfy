/**
 * read_log_tail: the last lines of the log file, for display while a long job runs. The file
 * is a parameter holding its text, or None when it does not exist yet.
 */
module LogViewer {
  import opened Wrappers
  import opened Text
  import opened Seqs

  const DefaultLogLines := 10

  /** lines[-m:] for m > 0: the last m lines, or all of them when there are fewer. */
  function LastLines(lines: seq<string>, m: nat): (tail: seq<string>)
    ensures |tail| == if m < |lines| then m else |lines|
    ensures tail == lines[|lines| - |tail|..]
  {
    if m < |lines| then lines[|lines| - m..] else lines
  }

  /** read_log_tail */
  function ReadLogTail(file: Option<string>, maxLines: int): Option<string> {
    var m := if maxLines < 0 then 0 else maxLines;
    match file
    case None => None
    case Some(text) =>
      if text == [] then Some("")
      else
        var lines := SplitLines(text);
        if m == 0 then Some("")
        else Some(Join("\n", LastLines(lines, m)))
  }

  /** A missing file gives None; a present one always gives a string. */
  lemma MissingFile(file: Option<string>, maxLines: int)
    ensures ReadLogTail(file, maxLines).None? <==> file.None?
  {
  }

  /** A limit of zero or below, or an empty file, gives the empty string. */
  lemma NoLinesWanted(text: string, maxLines: int)
    requires maxLines <= 0 || text == []
    ensures ReadLogTail(Some(text), maxLines) == Some("")
  {
  }

  /**
   * Asking for one more line can only add a line in front: the tail for m lines is a suffix
   * of the tail for m + 1 lines.
   */
  lemma MoreLines(text: string, m: nat)
    ensures var shorter, longer := ReadLogTail(Some(text), m), ReadLogTail(Some(text), m + 1);
      shorter.Some? && longer.Some? && EndsWith(longer.value, shorter.value)
  {
    if text != [] && m > 0 {
      var lines := SplitLines(text);
      var a, b := LastLines(lines, m), LastLines(lines, m + 1);
      if a != b {
        assert b[1..] == a;
        JoinSuffix(b);
      }
    }
  }

  /** Joining drops only the first line and its separator from the front. */
  lemma JoinSuffix(parts: seq<string>)
    requires |parts| >= 2
    ensures EndsWith(Join("\n", parts), Join("\n", parts[1..]))
  {
  }

  /**
   * Splitting the joined lines again gives back exactly the lines kept, provided the last of
   * them is not empty: a log tail shows the last min(max_lines, #lines) lines and no others.
   */
  lemma {:induction false} SplitJoin(lines: seq<string>)
    requires forall k :: 0 <= k < |lines| ==> NoLineBreak(lines[k])
    requires lines != [] ==> lines[|lines| - 1] != []
    ensures SplitLines(Join("\n", lines)) == lines
    decreases |lines|
  {
    if |lines| == 1 {
      SplitSingle(lines[0]);
    } else if |lines| > 1 {
      var rest := lines[1..];
      assert rest[|rest| - 1] == lines[|lines| - 1];
      SplitJoin(rest);
      SplitFirst(lines[0], Join("\n", rest));
      assert rest != [] ==> Join("\n", rest) != [] by {
        JoinLastNonEmpty(rest);
      }
    }
  }

  /** Joined lines whose last line is not empty are not empty. */
  lemma JoinLastNonEmpty(lines: seq<string>)
    requires lines != [] && lines[|lines| - 1] != []
    ensures Join("\n", lines) != []
  {
  }

  /** A non-empty line without a line break splits into itself. */
  lemma SplitSingle(line: string)
    requires NoLineBreak(line) && line != []
    ensures SplitLines(line) == [line]
  {
    LineEndAll(line);
  }

  /** Without a line break the first boundary is the end. */
  lemma LineEndAll(s: string)
    requires NoLineBreak(s)
    ensures LineEnd(s) == |s|
  {
  }

  /** A line, a newline and a non-empty rest split into the line followed by the rest's lines. */
  lemma SplitFirst(line: string, rest: string)
    requires NoLineBreak(line) && rest != []
    ensures SplitLines(line + "\n" + rest) == [line] + SplitLines(rest)
  {
    var s := line + "\n" + rest;
    var k := |line|;
    assert s == line + ("\n" + rest);
    assert LineEnd(s) == k by {
      LineEndBreak(line, "\n" + rest);
    }
    assert s[k] == '\n' && k < |s|;
    assert s[..k] == line;
    assert s[k + 1..] == rest;
    assert SplitLines(s) == [s[..k]] + SplitLines(s[k + 1..]);
  }

  /** The first boundary of a line followed by a break is the line's end. */
  lemma LineEndBreak(line: string, rest: string)
    requires NoLineBreak(line) && rest != [] && IsLineBreak(rest[0])
    ensures LineEnd(line + rest) == |line|
  {
    var s := line + rest;
    var k := LineEnd(s);
    assert s[|line|] == rest[0];
    assert s[..|line|] == line;
  }

  /** The kept lines, split again, are the last min(m, #lines) lines of the file, when the file's last line is not empty. */
  lemma TailLines(text: string, m: nat)
    requires text != [] && m > 0
    requires var lines := SplitLines(text); lines != [] && lines[|lines| - 1] != []
    ensures var lines := SplitLines(text);
      SplitLines(ReadLogTail(Some(text), m).value) == lines[|lines| - (if m < |lines| then m else |lines|)..]
  {
    var lines := SplitLines(text);
    ReadLogTailLines(text, m);
    LastLinesSplit(lines, m);
  }

  /** A non-empty file and a positive limit: the last lines, joined by newlines. */
  lemma ReadLogTailLines(text: string, m: nat)
    requires text != [] && m > 0
    ensures ReadLogTail(Some(text), m) == Some(Join("\n", LastLines(SplitLines(text), m)))
  {
  }

  /** The last lines of a split, joined and split again, are themselves. */
  lemma LastLinesSplit(lines: seq<string>, m: nat)
    requires forall k :: 0 <= k < |lines| ==> NoLineBreak(lines[k])
    requires lines != [] && lines[|lines| - 1] != [] && m > 0
    ensures SplitLines(Join("\n", LastLines(lines, m))) == LastLines(lines, m)
  {
    var tail := LastLines(lines, m);
    forall k | 0 <= k < |tail| ensures NoLineBreak(tail[k]) {
      assert tail[k] == lines[|lines| - |tail| + k];
    }
    assert tail[|tail| - 1] == lines[|lines| - 1];
    SplitJoin(tail);
  }

  /** A final newline closes the last line without opening another. */
  lemma SplitTrailing(line: string)
    requires NoLineBreak(line)
    ensures SplitLines(line + "\n") == [line]
  {
    var s := line + "\n";
    var k := |line|;
    assert LineEnd(s) == k by {
      LineEndBreak(line, "\n");
    }
    assert s[..k] == line && s[k + 1..] == [];
    assert SplitLines(s) == [s[..k]] + SplitLines(s[k + 1..]);
  }

  /** The last two of three lines. */
  lemma LogTailExampleTwo()
    ensures ReadLogTail(Some("a" + "\n" + "b" + "\n" + "c"), 2) == Some("b" + "\n" + "c")
  {
    var text := "a" + "\n" + "b" + "\n" + "c";
    var bc := "b" + "\n" + "c";
    assert text == "a" + "\n" + bc by {
      AppendAssoc("a" + "\n", "b" + "\n", "c");
      AppendAssoc("a" + "\n", "b", "\n");
    }
    assert SplitLines(bc) == ["b", "c"] by {
      SplitSingle("c");
      SplitFirst("b", "c");
    }
    assert SplitLines(text) == ["a", "b", "c"] by {
      SplitFirst("a", bc);
    }
    assert LastLines(["a", "b", "c"], 2) == ["b", "c"];
    assert Join("\n", ["b", "c"]) == bc by {
      assert ["b", "c"][1..] == ["c"];
    }
  }

  /** A trailing newline does not count as an empty last line. */
  lemma LogTailExampleTrailing()
    ensures ReadLogTail(Some("line1" + "\n" + "line2" + "\n"), 1) == Some("line2")
  {
    var text := "line1" + "\n" + "line2" + "\n";
    var rest := "line2" + "\n";
    assert text == "line1" + "\n" + rest;
    assert SplitLines(rest) == ["line2"] by {
      SplitTrailing("line2");
    }
    assert SplitLines(text) == ["line1", "line2"] by {
      SplitFirst("line1", rest);
    }
    assert LastLines(["line1", "line2"], 1) == ["line2"];
  }
}
