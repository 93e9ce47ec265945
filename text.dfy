/**
 * String helpers shared by the models: Python's notion of whitespace and line
 * boundaries, strip, split, join, find, the `\s*\n\s*` substitution used by the
 * TEI readers, and decimal integer conversion.
 */
module Text {
  import opened Wrappers

  /** Python's str.isspace(); `\s` in a str pattern, str.split() and str.strip() use the same set. */
  predicate IsSpace(c: char) {
    c == ' ' || '\t' <= c <= '\r' || '\U{1C}' <= c <= '\U{1F}' || c == '\U{85}' || c == '\U{A0}'
    || c == '\U{1680}' || '\U{2000}' <= c <= '\U{200A}' || c == '\U{2028}' || c == '\U{2029}'
    || c == '\U{202F}' || c == '\U{205F}' || c == '\U{3000}'
  }

  predicate AllSpace(s: string) {
    forall i :: 0 <= i < |s| ==> IsSpace(s[i])
  }

  predicate NoSpace(s: string) {
    forall i :: 0 <= i < |s| ==> !IsSpace(s[i])
  }

  /** The characters at which Python's str.splitlines() breaks a line. */
  predicate IsLineBreak(c: char) {
    '\n' <= c <= '\r' || '\U{1C}' <= c <= '\U{1E}' || c == '\U{85}' || c == '\U{2028}' || c == '\U{2029}'
  }

  predicate NoLineBreak(s: string) {
    forall i :: 0 <= i < |s| ==> !IsLineBreak(s[i])
  }

  /** str.lstrip(): drop leading whitespace. */
  function LStrip(s: string): (r: string)
    ensures |r| <= |s|
    ensures AllSpace(s[..|s| - |r|])
    ensures r != [] ==> !IsSpace(r[0])
  {
    if s != [] && IsSpace(s[0]) then
      var r := LStrip(s[1..]);
      assert s[1..][..|s| - 1 - |r|] == s[1..|s| - |r|];
      AllSpaceCons(s[..|s| - |r|]);
      r
    else s
  }

  /** What lstrip() leaves is a suffix of its input. */
  lemma {:induction false} LStripSuffix(s: string)
    ensures LStrip(s) == s[|s| - |LStrip(s)|..]
    decreases |s|
  {
    if s != [] && IsSpace(s[0]) {
      LStripSuffix(s[1..]);
    }
  }

  /** str.rstrip(): drop trailing whitespace. */
  function RStrip(s: string): (r: string)
    ensures |r| <= |s| && r == s[..|r|]
    ensures AllSpace(s[|r|..])
    ensures r != [] ==> !IsSpace(r[|r| - 1])
  {
    if s != [] && IsSpace(s[|s| - 1]) then
      var r := RStrip(s[..|s| - 1]);
      assert s[|r|..] == s[..|s| - 1][|r|..] + [s[|s| - 1]];
      r
    else s
  }

  /** str.strip(): drop whitespace at both ends. */
  function Strip(s: string): (r: string)
    ensures |r| <= |s|
    ensures r != [] ==> !IsSpace(r[0]) && !IsSpace(r[|r| - 1])
    ensures r == [] <==> AllSpace(s)
  {
    var l := LStrip(s);
    var r := RStrip(l);
    RStripEmpty(l);
    LStripEmpty(s);
    assert l != [] ==> !AllSpace(l);
    assert r != [] ==> r[0] == l[0];
    r
  }

  lemma {:induction false} LStripEmpty(x: string)
    ensures LStrip(x) == [] <==> AllSpace(x)
    decreases |x|
  {
    if x != [] {
      AllSpaceCons(x);
      if IsSpace(x[0]) {
        LStripEmpty(x[1..]);
      }
    }
  }

  lemma AllSpaceCons(x: string)
    requires x != []
    ensures AllSpace(x) <==> IsSpace(x[0]) && AllSpace(x[1..])
  {
    if IsSpace(x[0]) && AllSpace(x[1..]) {
      forall i | 0 < i < |x| ensures IsSpace(x[i]) {
        assert x[i] == x[1..][i - 1];
      }
    }
  }

  lemma RStripEmpty(x: string)
    ensures RStrip(x) == [] <==> AllSpace(x)
  {
    var r := RStrip(x);
    if r == [] {
      assert x[|r|..] == x;
    } else {
      assert r[|r| - 1] == x[|r| - 1];
    }
  }

  /** Length of the maximal run of whitespace at the start of s. */
  function SpaceRun(s: string): (n: nat)
    ensures n <= |s| && AllSpace(s[..n]) && (n < |s| ==> !IsSpace(s[n]))
  {
    if s != [] && IsSpace(s[0]) then 1 + SpaceRun(s[1..]) else 0
  }

  /** Length of the maximal run of non-whitespace at the start of s. */
  function WordLen(s: string): (n: nat)
    ensures n <= |s| && NoSpace(s[..n]) && (n < |s| ==> IsSpace(s[n]))
  {
    if s != [] && !IsSpace(s[0]) then 1 + WordLen(s[1..]) else 0
  }

  /**
   * re.sub(r"\s*\n\s*", rep, s). A match can only start at the first character of a
   * maximal whitespace run, and the greedy pattern then covers the whole run, so every
   * maximal whitespace run that holds a newline becomes rep and the rest is kept.
   */
  function CollapseNewlines(s: string, rep: string): string
    decreases |s|
  {
    if s == [] then []
    else if !IsSpace(s[0]) then [s[0]] + CollapseNewlines(s[1..], rep)
    else
      var n := SpaceRun(s);
      (if '\n' in s[..n] then rep else s[..n]) + CollapseNewlines(s[n..], rep)
  }

  /** re.sub(r"\s+", " ", s): every maximal whitespace run becomes one space. */
  function CollapseSpaces(s: string): (r: string)
    ensures forall i :: 0 <= i < |r| - 1 ==> !(IsSpace(r[i]) && IsSpace(r[i + 1]))
    ensures forall i :: 0 <= i < |r| && IsSpace(r[i]) ==> r[i] == ' '
    ensures s != [] && !IsSpace(s[0]) ==> r != [] && r[0] == s[0]
    decreases |s|
  {
    if s == [] then []
    else if !IsSpace(s[0]) then [s[0]] + CollapseSpaces(s[1..])
    else
      var n := SpaceRun(s);
      var rest := CollapseSpaces(s[n..]);
      assert n < |s| ==> !IsSpace(s[n..][0]);
      " " + rest
  }

  /** No whitespace character stands next to a newline. */
  predicate NewlinesTight(s: string) {
    forall i :: 0 <= i < |s| - 1 ==> !(s[i] == '\n' && IsSpace(s[i + 1])) && !(IsSpace(s[i]) && s[i + 1] == '\n')
  }

  lemma {:induction false} CollapseStartsWith(s: string, rep: string)
    requires s != [] && !IsSpace(s[0])
    ensures CollapseNewlines(s, rep) != [] && CollapseNewlines(s, rep)[0] == s[0]
  {
  }

  lemma {:induction false} CollapseEndsWith(s: string, rep: string)
    requires s != [] && !IsSpace(s[|s| - 1])
    ensures CollapseNewlines(s, rep) != [] && CollapseNewlines(s, rep)[|CollapseNewlines(s, rep)| - 1] == s[|s| - 1]
    decreases |s|
  {
    if !IsSpace(s[0]) {
      if |s| > 1 { CollapseEndsWith(s[1..], rep); }
    } else {
      var n := SpaceRun(s);
      assert n < |s|;
      CollapseEndsWith(s[n..], rep);
    }
  }

  /** A slice of a tight string is tight. */
  lemma TightSlice(s: string, a: nat, b: nat)
    requires NewlinesTight(s) && a <= b <= |s|
    ensures NewlinesTight(s[a..b])
  {
    forall i | 0 <= i < b - a - 1
      ensures !(s[a..b][i] == '\n' && IsSpace(s[a..b][i + 1])) && !(IsSpace(s[a..b][i]) && s[a..b][i + 1] == '\n')
    {
      assert s[a..b][i] == s[a + i] && s[a..b][i + 1] == s[a + i + 1];
    }
  }

  /** Stripping keeps a string tight. */
  lemma StripTight(s: string)
    requires NewlinesTight(s)
    ensures NewlinesTight(Strip(s))
  {
    var l := LStrip(s);
    LStripSuffix(s);
    TightSlice(s, |s| - |l|, |s|);
    TightSlice(l, 0, |RStrip(l)|);
  }

  /** With rep = "\n", the result has no whitespace next to any newline. */
  lemma {:induction false} CollapseNewlinesTight(s: string)
    ensures NewlinesTight(CollapseNewlines(s, "\n"))
    decreases |s|
  {
    var r := CollapseNewlines(s, "\n");
    if s == [] {
    } else if !IsSpace(s[0]) {
      var rest := CollapseNewlines(s[1..], "\n");
      CollapseNewlinesTight(s[1..]);
      assert r == [s[0]] + rest;
      forall i | 0 <= i < |r| - 1
        ensures !(r[i] == '\n' && IsSpace(r[i + 1])) && !(IsSpace(r[i]) && r[i + 1] == '\n')
      {
        if i > 0 { assert r[i] == rest[i - 1] && r[i + 1] == rest[i]; }
      }
    } else {
      var n := SpaceRun(s);
      var head := if '\n' in s[..n] then "\n" else s[..n];
      var rest := CollapseNewlines(s[n..], "\n");
      CollapseNewlinesTight(s[n..]);
      if n < |s| { CollapseStartsWith(s[n..], "\n"); }
      assert r == head + rest;
      assert forall k :: 0 <= k < |head| ==> IsSpace(head[k]);
      assert '\n' !in s[..n] ==> forall k :: 0 <= k < |head| ==> head[k] != '\n';
      forall i | 0 <= i < |r| - 1
        ensures !(r[i] == '\n' && IsSpace(r[i + 1])) && !(IsSpace(r[i]) && r[i + 1] == '\n')
      {
        if i >= |head| {
          assert r[i] == rest[i - |head|] && r[i + 1] == rest[i + 1 - |head|];
        } else if i == |head| - 1 {
          assert r[i + 1] == rest[0] == s[n];
        } else {
          assert r[i] == head[i] && r[i + 1] == head[i + 1];
        }
      }
    }
  }

  /** With rep = " ", no newline survives. */
  lemma {:induction false} CollapseToSpaceHasNoNewline(s: string)
    ensures '\n' !in CollapseNewlines(s, " ")
    decreases |s|
  {
    if s == [] {
    } else if !IsSpace(s[0]) {
      CollapseToSpaceHasNoNewline(s[1..]);
    } else {
      var n := SpaceRun(s);
      CollapseToSpaceHasNoNewline(s[n..]);
    }
  }

  /** The non-whitespace characters of s, in order. */
  function NonSpace(s: string): string {
    if s == [] then [] else (if IsSpace(s[0]) then [] else [s[0]]) + NonSpace(s[1..])
  }

  lemma {:induction false} NonSpaceAppend(a: string, b: string)
    ensures NonSpace(a + b) == NonSpace(a) + NonSpace(b)
    decreases |a|
  {
    if a == [] {
      assert a + b == b;
    } else {
      assert (a + b)[1..] == a[1..] + b;
      NonSpaceAppend(a[1..], b);
    }
  }

  lemma {:induction false} NonSpaceOfSpaces(s: string)
    requires AllSpace(s)
    ensures NonSpace(s) == []
    decreases |s|
  {
    if s != [] { NonSpaceOfSpaces(s[1..]); }
  }

  /** A string is all whitespace exactly when it has no non-whitespace text. */
  lemma {:induction false} AllSpaceIffNoText(s: string)
    ensures AllSpace(s) <==> NonSpace(s) == []
    decreases |s|
  {
    if s != [] {
      AllSpaceIffNoText(s[1..]);
      AllSpaceCons(s);
    }
  }

  /** Collapsing whitespace runs into whitespace keeps every other character, in order. */
  lemma {:induction false} CollapseKeepsText(s: string, rep: string)
    requires AllSpace(rep)
    ensures NonSpace(CollapseNewlines(s, rep)) == NonSpace(s)
    decreases |s|
  {
    if s == [] {
    } else if !IsSpace(s[0]) {
      CollapseKeepsText(s[1..], rep);
      NonSpaceAppend([s[0]], CollapseNewlines(s[1..], rep));
      NonSpaceAppend([s[0]], s[1..]);
      assert s == [s[0]] + s[1..];
    } else {
      var n := SpaceRun(s);
      var head := if '\n' in s[..n] then rep else s[..n];
      CollapseKeepsText(s[n..], rep);
      NonSpaceAppend(head, CollapseNewlines(s[n..], rep));
      NonSpaceAppend(s[..n], s[n..]);
      assert s == s[..n] + s[n..];
      NonSpaceOfSpaces(head);
      NonSpaceOfSpaces(s[..n]);
    }
  }

  /** str.split() with no separator: the maximal runs of non-whitespace, in order. */
  function Words(s: string): seq<string>
    decreases |s|
  {
    var t := LStrip(s);
    if t == [] then []
    else
      var n := WordLen(t);
      [t[..n]] + Words(t[n..])
  }

  /** sep.join(parts). */
  function Join(sep: string, parts: seq<string>): string {
    if parts == [] then [] else if |parts| == 1 then parts[0] else parts[0] + sep + Join(sep, parts[1..])
  }

  /** "".join(parts). */
  function Concat(parts: seq<string>): (r: string)
    ensures |r| == TotalLength(parts)
  {
    if parts == [] then [] else Concat(parts[..|parts| - 1]) + parts[|parts| - 1]
  }

  /** Joining one more part appends it. */
  lemma ConcatSnoc(parts: seq<string>, last: string)
    ensures Concat(parts + [last]) == Concat(parts) + last
  {
    assert (parts + [last])[..|parts|] == parts;
  }

  function TotalLength(parts: seq<string>): nat {
    if parts == [] then 0 else TotalLength(parts[..|parts| - 1]) + |parts[|parts| - 1]|
  }

  /**
   * The shape of " ".join(s.split()): every whitespace character is a single space
   * with a non-whitespace character on each side, so there is no leading or trailing
   * whitespace and no run of whitespace.
   */
  predicate SingleSpaced(s: string) {
    forall i :: 0 <= i < |s| && IsSpace(s[i]) ==> s[i] == ' ' && 0 < i < |s| - 1 && !IsSpace(s[i + 1])
  }

  predicate WordList(ws: seq<string>) {
    forall k :: 0 <= k < |ws| ==> ws[k] != [] && NoSpace(ws[k])
  }

  /** Every word is non-empty and holds no whitespace. */
  /** One step of str.split(): the first word, and the text after it. */
  lemma WordsStep(s: string) returns (w: string, rest: string)
    ensures LStrip(s) == [] ==> Words(s) == []
    ensures LStrip(s) != [] ==>
      w != [] && NoSpace(w) && LStrip(s) == w + rest && |rest| < |s| && Words(s) == [w] + Words(rest)
  {
    var t := LStrip(s);
    w, rest := [], [];
    if t != [] {
      var n := WordLen(t);
      w, rest := t[..n], t[n..];
      assert t == w + rest;
    }
  }

  lemma {:induction false} WordsAreWords(s: string)
    ensures WordList(Words(s))
    decreases |s|
  {
    var w, rest := WordsStep(s);
    if LStrip(s) != [] {
      WordsAreWords(rest);
      WordListCons(w, Words(rest));
    }
  }

  lemma WordListCons(w: string, ws: seq<string>)
    requires w != [] && NoSpace(w) && WordList(ws)
    ensures WordList([w] + ws)
  {
    forall k | 0 <= k < |ws| + 1
      ensures ([w] + ws)[k] != [] && NoSpace(([w] + ws)[k])
    {
      if k > 0 { assert ([w] + ws)[k] == ws[k - 1]; }
    }
  }

  lemma {:induction false} JoinWordsStart(ws: seq<string>)
    requires WordList(ws) && ws != []
    ensures Join(" ", ws) != [] && Join(" ", ws)[0] == ws[0][0]
  {
  }

  /** Joining words with single spaces gives a single-spaced string. */
  lemma {:induction false} JoinWordsSingleSpaced(ws: seq<string>)
    requires WordList(ws)
    ensures SingleSpaced(Join(" ", ws))
    decreases |ws|
  {
    if |ws| > 1 {
      var rest := Join(" ", ws[1..]);
      JoinWordsSingleSpaced(ws[1..]);
      JoinWordsStart(ws[1..]);
      var s := Join(" ", ws);
      var w := ws[0];
      assert s == w + " " + rest;
      forall i | 0 <= i < |s| && IsSpace(s[i])
        ensures s[i] == ' ' && 0 < i < |s| - 1 && !IsSpace(s[i + 1])
      {
        if i == |w| {
          assert s[i + 1] == rest[0];
        } else if i > |w| {
          assert s[i] == rest[i - |w| - 1];
          if i + 1 < |s| { assert s[i + 1] == rest[i - |w|]; }
        }
      }
    }
  }

  /** A word followed by nothing or by whitespace is measured exactly. */
  lemma {:induction false} WordLenOfWord(w: string, y: string)
    requires NoSpace(w) && (y == [] || IsSpace(y[0]))
    ensures WordLen(w + y) == |w|
    decreases |w|
  {
    if w == [] {
      assert w + y == y;
    } else {
      assert (w + y)[1..] == w[1..] + y;
      WordLenOfWord(w[1..], y);
    }
  }

  /** A leading word followed by nothing or by whitespace is the first word. */
  lemma WordsOfWordThen(w: string, y: string)
    requires w != [] && NoSpace(w) && (y == [] || IsSpace(y[0]))
    ensures Words(w + y) == [w] + Words(y)
  {
    var s := w + y;
    assert LStrip(s) == s;
    WordLenOfWord(w, y);
    assert s[..|w|] == w;
    assert s[|w|..] == y;
  }

  lemma WordsAfterSpace(rest: string)
    ensures Words([' '] + rest) == Words(rest)
  {
    assert ([' '] + rest)[1..] == rest;
    assert LStrip([' '] + rest) == LStrip(rest);
  }

  /** Splitting a space-joined word list gives the words back. */
  lemma {:induction false} WordsOfJoin(ws: seq<string>)
    requires WordList(ws)
    ensures Words(Join(" ", ws)) == ws
    decreases |ws|
  {
    if |ws| == 1 {
      assert Join(" ", ws) == ws[0] + [];
      WordsOfWordThen(ws[0], []);
      assert Words([]) == [];
      assert [ws[0]] == ws;
    } else if |ws| > 1 {
      var rest := Join(" ", ws[1..]);
      assert Join(" ", ws) == ws[0] + ([' '] + rest);
      WordsOfWordThen(ws[0], [' '] + rest);
      WordsAfterSpace(rest);
      WordListTail(ws);
      WordsOfJoin(ws[1..]);
      assert ws == [ws[0]] + ws[1..];
    }
  }

  lemma WordListTail(ws: seq<string>)
    requires WordList(ws) && ws != []
    ensures WordList(ws[1..])
  {
    forall k | 0 <= k < |ws| - 1
      ensures ws[1..][k] != [] && NoSpace(ws[1..][k])
    {
      assert ws[1..][k] == ws[k + 1];
    }
  }

  /** Strip leaves a single-spaced string alone. */
  lemma StripSingleSpaced(s: string)
    requires SingleSpaced(s)
    ensures Strip(s) == s
  {
    if s != [] {
      assert !IsSpace(s[0]);
      assert !IsSpace(s[|s| - 1]);
    }
  }

  /** The non-whitespace characters of each part, concatenated. */
  function NonSpaces(parts: seq<string>): string {
    if parts == [] then [] else NonSpace(parts[0]) + NonSpaces(parts[1..])
  }

  lemma {:induction false} NonSpacesSnoc(ps: seq<string>, p: string)
    ensures NonSpaces(ps + [p]) == NonSpaces(ps) + NonSpace(p)
    decreases |ps|
  {
    if ps == [] {
      assert NonSpaces([p]) == NonSpace(p) + NonSpaces([]);
    } else {
      assert (ps + [p])[1..] == ps[1..] + [p];
      NonSpacesSnoc(ps[1..], p);
    }
  }

  /** "".join adds no text: the non-whitespace text of the parts, in order. */
  lemma {:induction false} NonSpaceConcat(parts: seq<string>)
    ensures NonSpace(Concat(parts)) == NonSpaces(parts)
    decreases |parts|
  {
    if parts != [] {
      var init, last := parts[..|parts| - 1], parts[|parts| - 1];
      NonSpaceConcat(init);
      NonSpaceAppend(Concat(init), last);
      NonSpacesSnoc(init, last);
      assert init + [last] == parts;
    }
  }

  /** Strip every element. */
  function StripAll(lines: seq<string>): (r: seq<string>)
    ensures |r| == |lines| && forall k :: 0 <= k < |lines| ==> r[k] == Strip(lines[k])
  {
    seq(|lines|, k requires 0 <= k < |lines| => Strip(lines[k]))
  }

  lemma {:induction false} NonSpaceOfWord(w: string)
    requires NoSpace(w)
    ensures NonSpace(w) == w
    decreases |w|
  {
    if w != [] { NonSpaceOfWord(w[1..]); }
  }

  /** Joining with a whitespace separator adds no text. */
  lemma {:induction false} NonSpaceJoin(sep: string, parts: seq<string>)
    requires AllSpace(sep)
    ensures NonSpace(Join(sep, parts)) == NonSpaces(parts)
    decreases |parts|
  {
    if |parts| == 1 {
      assert NonSpaces(parts) == NonSpace(parts[0]) + NonSpaces([]);
    } else if |parts| > 1 {
      NonSpaceJoin(sep, parts[1..]);
      NonSpaceAppend(parts[0] + sep, Join(sep, parts[1..]));
      NonSpaceAppend(parts[0], sep);
      NonSpaceOfSpaces(sep);
    }
  }

  /** Splitting off all-whitespace prefix or suffix keeps the text. */
  lemma NonSpaceAroundSpaces(pre: string, mid: string, post: string)
    requires AllSpace(pre) && AllSpace(post)
    ensures NonSpace(pre + mid + post) == NonSpace(mid)
  {
    NonSpaceAppend(pre + mid, post);
    NonSpaceAppend(pre, mid);
    NonSpaceOfSpaces(pre);
    NonSpaceOfSpaces(post);
  }

  /** Stripping removes no text. */
  lemma {:induction false} NonSpaceLStrip(x: string)
    ensures NonSpace(LStrip(x)) == NonSpace(x)
    decreases |x|
  {
    if x != [] && IsSpace(x[0]) { NonSpaceLStrip(x[1..]); }
  }

  lemma {:induction false} NonSpaceRStrip(x: string)
    ensures NonSpace(RStrip(x)) == NonSpace(x)
    decreases |x|
  {
    if x != [] && IsSpace(x[|x| - 1]) {
      var init := x[..|x| - 1];
      NonSpaceRStrip(init);
      assert x == init + [x[|x| - 1]];
      NonSpaceAppend(init, [x[|x| - 1]]);
    }
  }

  lemma NonSpaceStrip(x: string)
    ensures NonSpace(Strip(x)) == NonSpace(x)
  {
    NonSpaceLStrip(x);
    NonSpaceRStrip(LStrip(x));
  }

  lemma {:induction false} NonSpacesStripAll(lines: seq<string>)
    ensures NonSpaces(StripAll(lines)) == NonSpaces(lines)
    decreases |lines|
  {
    if lines != [] {
      assert StripAll(lines)[1..] == StripAll(lines[1..]);
      NonSpacesStripAll(lines[1..]);
      NonSpaceStrip(lines[0]);
    }
  }

  lemma LineBreakIsSpace(c: char)
    requires IsLineBreak(c)
    ensures IsSpace(c)
  {
  }

  /** Dropping a run of whitespace between two strings keeps the text. */
  lemma NonSpaceSkip(a: string, b: string, c: string)
    requires AllSpace(b)
    ensures NonSpace(a + b + c) == NonSpace(a) + NonSpace(c)
  {
    NonSpaceAppend(a + b, c);
    NonSpaceAppend(a, b);
    NonSpaceOfSpaces(b);
  }

  /** Splitting into lines drops only line boundaries, which are whitespace. */
  lemma {:induction false} NonSpaceSplitLines(s: string)
    ensures NonSpaces(SplitLines(s)) == NonSpace(s)
    decreases |s|
  {
    if s != [] {
      var k := LineEnd(s);
      if k == |s| {
        assert SplitLines(s) == [s];
        assert NonSpaces([s]) == NonSpace(s) + NonSpaces([]);
      } else {
        var next := if s[k] == '\r' && k + 1 < |s| && s[k + 1] == '\n' then k + 2 else k + 1;
        var head, brk, tail := s[..k], s[k..next], s[next..];
        if next == k + 2 {
          assert brk == ['\r', '\n'];
        } else {
          assert brk == [s[k]];
          LineBreakIsSpace(s[k]);
        }
        assert s == head + brk + tail;
        NonSpaceSkip(head, brk, tail);
        NonSpaceSplitLines(tail);
        var lines := SplitLines(tail);
        assert SplitLines(s) == [head] + lines;
        assert ([head] + lines)[1..] == lines;
      }
    }
  }

  /** Splitting into words drops only whitespace. */
  lemma {:induction false} NonSpaceWords(s: string)
    ensures NonSpaces(Words(s)) == NonSpace(s)
    decreases |s|
  {
    NonSpaceLStrip(s);
    var w, rest := WordsStep(s);
    if LStrip(s) != [] {
      NonSpaceAppend(w, rest);
      NonSpaceOfWord(w);
      NonSpaceWords(rest);
      var ws := Words(rest);
      assert ([w] + ws)[1..] == ws;
    }
  }

  /** Index of the first line boundary in s, or |s| when there is none. */
  function LineEnd(s: string): (k: nat)
    ensures k <= |s| && NoLineBreak(s[..k]) && (k < |s| ==> IsLineBreak(s[k]))
  {
    if s == [] || IsLineBreak(s[0]) then 0 else 1 + LineEnd(s[1..])
  }

  /**
   * str.splitlines(): the lines of s without their boundaries; "\r\n" is one boundary
   * and a final boundary does not open an extra empty line.
   */
  function SplitLines(s: string): (lines: seq<string>)
    ensures forall k :: 0 <= k < |lines| ==> NoLineBreak(lines[k])
    decreases |s|
  {
    if s == [] then []
    else
      var k := LineEnd(s);
      if k == |s| then [s]
      else
        var next := if s[k] == '\r' && k + 1 < |s| && s[k + 1] == '\n' then k + 2 else k + 1;
        [s[..k]] + SplitLines(s[next..])
  }

  /** sub occurs in s at position i. */
  predicate OccursAt(s: string, sub: string, i: int) {
    0 <= i && i + |sub| <= |s| && s[i..i + |sub|] == sub
  }

  function FindFrom(s: string, sub: string, i: nat): (r: Option<nat>)
    ensures r.Some? ==> i <= r.value && OccursAt(s, sub, r.value) && forall j :: i <= j < r.value ==> !OccursAt(s, sub, j)
    ensures r.None? ==> forall j :: i <= j ==> !OccursAt(s, sub, j)
    decreases |s| - i
  {
    if i + |sub| > |s| then None
    else if s[i..i + |sub|] == sub then Some(i)
    else FindFrom(s, sub, i + 1)
  }

  /** str.find(sub), with None for Python's -1: the lowest index at which sub occurs. */
  function Find(s: string, sub: string): (r: Option<nat>)
    ensures r.Some? ==> OccursAt(s, sub, r.value) && forall j :: 0 <= j < r.value ==> !OccursAt(s, sub, j)
    ensures r.None? ==> forall j :: !OccursAt(s, sub, j)
  {
    FindFrom(s, sub, 0)
  }

  /** Python's `sub in s`. */
  predicate Contains(s: string, sub: string) {
    Find(s, sub).Some?
  }

  predicate StartsWith(s: string, prefix: string) {
    |prefix| <= |s| && s[..|prefix|] == prefix
  }

  predicate EndsWith(s: string, suffix: string) {
    |suffix| <= |s| && s[|s| - |suffix|..] == suffix
  }

  /** str.lower() on the ASCII letters. */
  function LowerChar(c: char): char {
    if 'A' <= c <= 'Z' then (c as int + 32) as char else c
  }

  function Lower(s: string): (r: string)
    ensures |r| == |s| && forall i :: 0 <= i < |s| ==> r[i] == LowerChar(s[i])
  {
    seq(|s|, i requires 0 <= i < |s| => LowerChar(s[i]))
  }

  /** s.replace(pat, rep) for a non-empty pat: left-to-right, non-overlapping. */
  function ReplaceAll(s: string, pat: string, rep: string): string
    requires pat != []
    decreases |s|
  {
    if s == [] then []
    else if StartsWith(s, pat) then rep + ReplaceAll(s[|pat|..], pat, rep)
    else [s[0]] + ReplaceAll(s[1..], pat, rep)
  }

  /** Without an occurrence of pat, replace changes nothing. */
  lemma {:induction false} ReplaceAbsent(s: string, pat: string, rep: string)
    requires pat != [] && !Contains(s, pat)
    ensures ReplaceAll(s, pat, rep) == s
    decreases |s|
  {
    if s != [] {
      assert !OccursAt(s, pat, 0);
      assert !StartsWith(s, pat);
      forall j | 0 <= j ensures !OccursAt(s[1..], pat, j) {
        assert !OccursAt(s, pat, j + 1);
      }
      ReplaceAbsent(s[1..], pat, rep);
    }
  }

  /** s.replace(c, rep) for a single character c. */
  function ReplaceChar(s: string, c: char, rep: string): string {
    if s == [] then [] else (if s[0] == c then rep else [s[0]]) + ReplaceChar(s[1..], c, rep)
  }

  lemma {:induction false} ReplaceCharAppend(a: string, b: string, c: char, rep: string)
    ensures ReplaceChar(a + b, c, rep) == ReplaceChar(a, c, rep) + ReplaceChar(b, c, rep)
    decreases |a|
  {
    if a == [] {
      assert a + b == b;
    } else {
      assert (a + b)[1..] == a[1..] + b;
      ReplaceCharAppend(a[1..], b, c, rep);
    }
  }

  /** Without an occurrence of c, replacing it changes nothing. */
  lemma {:induction false} ReplaceCharAbsent(s: string, c: char, rep: string)
    requires c !in s
    ensures ReplaceChar(s, c, rep) == s
    decreases |s|
  {
    if s != [] {
      ReplaceCharAbsent(s[1..], c, rep);
      assert [s[0]] + s[1..] == s;
    }
  }

  /** Replacing a character by a single character keeps the length and every other position. */
  lemma {:induction false} ReplaceCharAt(s: string, c: char, rep: string)
    requires |rep| == 1
    ensures |ReplaceChar(s, c, rep)| == |s|
    ensures forall k :: 0 <= k < |s| ==> ReplaceChar(s, c, rep)[k] == if s[k] == c then rep[0] else s[k]
    decreases |s|
  {
    if s != [] {
      ReplaceCharAt(s[1..], c, rep);
      var r := ReplaceChar(s, c, rep);
      assert r == (if s[0] == c then rep else [s[0]]) + ReplaceChar(s[1..], c, rep);
      forall k | 0 < k < |s| ensures r[k] == if s[k] == c then rep[0] else s[k] {
        assert r[k] == ReplaceChar(s[1..], c, rep)[k - 1];
      }
    }
  }

  /** s.split(sep) for a one-character separator; never empty. */
  function SplitOn(s: string, sep: char): (parts: seq<string>)
    ensures |parts| >= 1
    decreases |s|
  {
    if sep !in s then [s]
    else
      var k := IndexOf(s, sep);
      [s[..k]] + SplitOn(s[k + 1..], sep)
  }

  /** No part holds the separator. */
  lemma {:induction false} SplitOnParts(s: string, sep: char)
    ensures forall k :: 0 <= k < |SplitOn(s, sep)| ==> sep !in SplitOn(s, sep)[k]
    decreases |s|
  {
    if sep in s {
      var k := IndexOf(s, sep);
      SplitOnParts(s[k + 1..], sep);
      var ps := SplitOn(s[k + 1..], sep);
      assert SplitOn(s, sep) == [s[..k]] + ps;
      forall j | 0 <= j < |ps| + 1 ensures sep !in ([s[..k]] + ps)[j] {
        if j > 0 { assert ([s[..k]] + ps)[j] == ps[j - 1]; }
      }
    }
  }

  function IndexOf(s: string, c: char): (k: nat)
    requires c in s
    ensures k < |s| && s[k] == c && c !in s[..k]
  {
    if s[0] == c then 0 else 1 + IndexOf(s[1..], c)
  }

  /** str.zfill(width): pad with zeros on the left, after a leading sign. */
  function ZFill(s: string, width: nat): (r: string)
    ensures |r| == if |s| >= width then |s| else width
    ensures |s| >= width ==> r == s
    ensures |s| < width && (s == [] || (s[0] != '+' && s[0] != '-')) ==> r[width - |s|..] == s
  {
    if |s| >= width then s
    else
      var zeros := seq(width - |s|, _ => '0');
      if s != [] && (s[0] == '+' || s[0] == '-') then [s[0]] + zeros + s[1..] else zeros + s
  }

  predicate IsDigit(c: char) {
    '0' <= c <= '9'
  }

  predicate AllDigits(s: string) {
    forall i :: 0 <= i < |s| ==> IsDigit(s[i])
  }

  function DigitsValue(ds: string): nat
    requires AllDigits(ds)
  {
    if ds == [] then 0 else DigitsValue(ds[..|ds| - 1]) * 10 + (ds[|ds| - 1] as int - '0' as int)
  }

  /** Leading zeros do not change a digit string's value. */
  lemma {:induction false} LeadingZeros(zs: string, ds: string)
    requires forall i :: 0 <= i < |zs| ==> zs[i] == '0'
    requires AllDigits(ds)
    ensures AllDigits(zs + ds) && DigitsValue(zs + ds) == DigitsValue(ds)
    decreases |zs| + |ds|
  {
    var s := zs + ds;
    if ds == [] {
      assert s == zs;
      if zs != [] {
        LeadingZeros(zs[..|zs| - 1], []);
        assert zs[..|zs| - 1] + [] == s[..|s| - 1];
      }
    } else {
      LeadingZeros(zs, ds[..|ds| - 1]);
      assert s[..|s| - 1] == zs + ds[..|ds| - 1];
    }
  }

  /** int(s) for a decimal literal with optional sign and surrounding whitespace. */
  function ParseInt(s: string): Option<int> {
    var t := Strip(s);
    if t == [] then None
    else if t[0] == '-' || t[0] == '+' then
      if |t| > 1 && AllDigits(t[1..]) then
        var v: int := DigitsValue(t[1..]);
        Some(if t[0] == '-' then -v else v)
      else None
    else if AllDigits(t) then Some(DigitsValue(t))
    else None
  }

  function NatToString(n: nat): (r: string)
    ensures r != [] && AllDigits(r)
  {
    var d := ['0' + (n % 10) as char];
    if n < 10 then d else NatToString(n / 10) + d
  }

  /** str(n). */
  function IntToString(n: int): (r: string)
    ensures r != [] && !IsSpace(r[0]) && !IsSpace(r[|r| - 1])
  {
    if n < 0 then "-" + NatToString(-n) else NatToString(n)
  }

  lemma {:induction false} DigitsOfNat(n: nat)
    ensures DigitsValue(NatToString(n)) == n
    decreases n
  {
    var d := ['0' + (n % 10) as char];
    if n >= 10 {
      var r := NatToString(n / 10) + d;
      DigitsOfNat(n / 10);
      assert r[..|r| - 1] == NatToString(n / 10);
    }
  }

  lemma ParseIntUnsigned(t: string)
    requires t != [] && AllDigits(t) && Strip(t) == t
    ensures ParseInt(t) == Some(DigitsValue(t))
  {
    assert IsDigit(t[0]);
  }

  lemma ParseIntNegative(t: string)
    requires |t| > 1 && t[0] == '-' && AllDigits(t[1..]) && Strip(t) == t
    ensures ParseInt(t) == Some(0 - DigitsValue(t[1..]) as int)
  {
  }

  /** int(str(n)) == n. */
  lemma ParseIntToString(n: int)
    ensures ParseInt(IntToString(n)) == Some(n)
  {
    var r := IntToString(n);
    StripUntouched(r);
    if n < 0 {
      var ds := NatToString(-n);
      DigitsOfNat(-n);
      assert r[1..] == ds;
      ParseIntNegative(r);
    } else {
      DigitsOfNat(n);
      ParseIntUnsigned(r);
    }
  }

  /** A string with no whitespace at either end is its own strip. */
  lemma StripUntouched(s: string)
    requires s != [] && !IsSpace(s[0]) && !IsSpace(s[|s| - 1])
    ensures Strip(s) == s
  {
    assert LStrip(s) == s;
    assert RStrip(s) == s;
  }
}
