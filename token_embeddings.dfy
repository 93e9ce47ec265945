/**
 * Term embeddings, the string side: normalising a sentence so that it lines up with
 * its subtokens, finding a term's occurrences on word boundaries, and mapping each
 * term span to the subtokens that hold its characters. The tokenizer is foreign: its
 * output is a parameter.
 */
module TokenEmbeddings {
  import opened Wrappers
  import opened Text

  // ---- normalize_text ----

  /** normalize_text: one leading space, then the words of the stripped text joined by single spaces. */
  function NormalizeText(text: string): string {
    " " + Join(" ", Words(Strip(text)))
  }

  /**
   * The normal form: a leading space, after it every whitespace character is a single
   * space between two non-whitespace characters (so no trailing whitespace and no run
   * of whitespace), and no non-whitespace character is added, lost or reordered.
   */
  lemma NormalizeTextShape(text: string)
    ensures var r := NormalizeText(text);
      r != [] && r[0] == ' ' && SingleSpaced(r[1..]) && NonSpace(r) == NonSpace(text)
  {
    var ws := Words(Strip(text));
    var r := NormalizeText(text);
    WordsAreWords(Strip(text));
    JoinWordsSingleSpaced(ws);
    assert r[1..] == Join(" ", ws);
    NonSpaceAppend(" ", Join(" ", ws));
    NonSpaceJoin(" ", ws);
    NonSpaceWords(Strip(text));
    NonSpaceStrip(text);
  }

  /** A single-spaced string after one space strips back to itself. */
  lemma StripLeadingSpace(j: string)
    requires SingleSpaced(j)
    ensures Strip(" " + j) == j
  {
    assert (" " + j)[1..] == j;
    if j != [] {
      assert !IsSpace(j[0]) && !IsSpace(j[|j| - 1]);
    }
    assert LStrip(" " + j) == LStrip(j) == j;
  }

  /** An already-normalised string is left unchanged: normalize_text is idempotent. */
  lemma NormalizeTextIdempotent(text: string)
    ensures NormalizeText(NormalizeText(text)) == NormalizeText(text)
  {
    var ws := Words(Strip(text));
    var j := Join(" ", ws);
    WordsAreWords(Strip(text));
    JoinWordsSingleSpaced(ws);
    StripLeadingSpace(j);
    WordsOfJoin(ws);
  }

  // ---- get_term_spans ----

  /**
   * `\w` in a str pattern: letters, digits and the underscore. The letters and digits
   * modelled are ASCII and the Latin letters from U+00C0 to U+024F.
   */
  predicate IsWordChar(c: char) {
    'a' <= c <= 'z' || 'A' <= c <= 'Z' || '0' <= c <= '9' || c == '_'
    || ('\U{C0}' <= c <= '\U{24F}' && c != '\U{D7}' && c != '\U{F7}')
  }

  /** `\b` at position p: a word character on exactly one side. */
  predicate Boundary(text: string, p: nat)
    requires p <= |text|
  {
    (p > 0 && IsWordChar(text[p - 1])) != (p < |text| && IsWordChar(text[p]))
  }

  /** `(\b|^)term(\b|$)` matches at p; `$` also matches before a final newline. */
  predicate MatchAt(text: string, term: string, p: nat) {
    OccursAt(text, term, p)
    && (p == 0 || Boundary(text, p))
    && (Boundary(text, p + |term|) || p + |term| == |text| || (p + |term| == |text| - 1 && text[|text| - 1] == '\n'))
  }

  /** The leftmost match at or after from. */
  function FirstMatch(text: string, term: string, from: nat): (r: Option<nat>)
    ensures r.Some? ==> from <= r.value && MatchAt(text, term, r.value)
    decreases |text| + 1 - from
  {
    if from > |text| then None
    else if MatchAt(text, term, from) then Some(from)
    else FirstMatch(text, term, from + 1)
  }

  /** The match FirstMatch finds is the leftmost one, and None means there is none. */
  lemma {:induction false} FirstMatchLeftmost(text: string, term: string, from: nat, p: nat)
    requires from <= p && MatchAt(text, term, p)
    ensures FirstMatch(text, term, from).Some? && FirstMatch(text, term, from).value <= p
    decreases |text| + 1 - from
  {
    if from < p && !MatchAt(text, term, from) {
      FirstMatchLeftmost(text, term, from + 1, p);
    }
  }

  /** A reported span: at or after from, as long as the term, at a match position. */
  predicate SpanAt(text: string, term: string, from: nat, sp: (nat, nat)) {
    from <= sp.0 && sp.1 == sp.0 + |term| && MatchAt(text, term, sp.0)
  }

  /**
   * re.finditer from position from: each match's span, the search resuming at the end
   * of the match, or one further on after an empty match.
   */
  function SpansFrom(text: string, term: string, from: nat): seq<(nat, nat)>
    decreases |text| + 1 - from
  {
    var first := FirstMatch(text, term, from);
    if first.None? then []
    else
      var p := first.value;
      var next := if |term| > 0 then p + |term| else p + 1;
      [(p, p + |term|)] + SpansFrom(text, term, next)
  }

  /** Every span is a match at or after from, and spans are increasing and do not overlap. */
  predicate SoundSpans(text: string, term: string, from: nat, r: seq<(nat, nat)>) {
    (forall k :: 0 <= k < |r| ==> SpanAt(text, term, from, r[k]))
    && (forall k :: 0 < k < |r| ==> r[k - 1].1 <= r[k].0 && r[k - 1].0 < r[k].0)
  }

  /** The spans re.finditer reports are sound. */
  lemma {:induction false} SpansFromSound(text: string, term: string, from: nat)
    ensures SoundSpans(text, term, from, SpansFrom(text, term, from))
    decreases |text| + 1 - from
  {
    var first := FirstMatch(text, term, from);
    if first.Some? {
      var p := first.value;
      var next := if |term| > 0 then p + |term| else p + 1;
      var rest := SpansFrom(text, term, next);
      SpansFromSound(text, term, next);
      SpansCons(text, term, from, next, (p, p + |term|), rest);
      assert SpansFrom(text, term, from) == [(p, p + |term|)] + rest;
    }
  }

  /** A match before next, followed by matches from next on, gives matches from from on, still in order. */
  lemma SpansCons(text: string, term: string, from: nat, next: nat, head: (nat, nat), rest: seq<(nat, nat)>)
    requires SpanAt(text, term, from, head) && head.0 < next && head.1 <= next
    requires SoundSpans(text, term, next, rest)
    ensures SoundSpans(text, term, from, [head] + rest)
  {
    var r := [head] + rest;
    forall k | 0 <= k < |r|
      ensures SpanAt(text, term, from, r[k])
    {
      if k > 0 {
        assert r[k] == rest[k - 1];
      }
    }
    forall k | 0 < k < |r|
      ensures r[k - 1].1 <= r[k].0 && r[k - 1].0 < r[k].0
    {
      assert r[k] == rest[k - 1];
      if k > 1 {
        assert r[k - 1] == rest[k - 2];
      }
    }
  }

  /** get_term_spans */
  function TermSpans(text: string, term: string): seq<(nat, nat)> {
    SpansFrom(text, term, 0)
  }

  /** get_term_spans reports only whole-word occurrences of the term, in order and without overlap. */
  lemma TermSpansSound(text: string, term: string)
    ensures var r := TermSpans(text, term);
      (forall k :: 0 <= k < |r| ==> r[k].1 == r[k].0 + |term| && MatchAt(text, term, r[k].0))
      && (forall k :: 0 < k < |r| ==> r[k - 1].1 <= r[k].0)
  {
    SpansFromSound(text, term, 0);
  }

  /** One step of the scan: the first match, then the scan from where the search resumes. */
  lemma SpansFromStep(text: string, term: string, from: nat) returns (q: nat, next: nat)
    requires FirstMatch(text, term, from).Some?
    ensures q == FirstMatch(text, term, from).value && next == (if |term| > 0 then q + |term| else q + 1)
    ensures SpansFrom(text, term, from) == [(q, q + |term|)] + SpansFrom(text, term, next)
  {
    q := FirstMatch(text, term, from).value;
    next := if |term| > 0 then q + |term| else q + 1;
  }

  /** Every match position is reported, unless it lies inside an earlier reported match. */
  lemma {:induction false} SpansFromComplete(text: string, term: string, from: nat, p: nat)
    requires from <= p && MatchAt(text, term, p)
    ensures var r := SpansFrom(text, term, from);
      exists k :: 0 <= k < |r| && r[k].0 <= p && (p == r[k].0 || p < r[k].1)
    decreases |text| + 1 - from
  {
    FirstMatchLeftmost(text, term, from, p);
    var q, next := SpansFromStep(text, term, from);
    var r := SpansFrom(text, term, from);
    var rest := SpansFrom(text, term, next);
    assert r[0] == (q, q + |term|);
    if p >= next {
      SpansFromComplete(text, term, next, p);
      var k :| 0 <= k < |rest| && rest[k].0 <= p && (p == rest[k].0 || p < rest[k].1);
      assert r[k + 1] == rest[k];
    }
  }

  /** get_term_spans finds every occurrence of the term on word boundaries that does not overlap an earlier one. */
  lemma TermSpansComplete(text: string, term: string, p: nat)
    requires MatchAt(text, term, p)
    ensures var r := TermSpans(text, term);
      exists k :: 0 <= k < |r| && r[k].0 <= p && (p == r[k].0 || p < r[k].1)
  {
    SpansFromComplete(text, term, 0, p);
    assert TermSpans(text, term) == SpansFrom(text, term, 0);
  }

  /** "bar" in "foo bar" is found once, at 4 to 7. */
  lemma TermSpansExample()
    ensures TermSpans("foo bar", "bar") == [(4, 7)]
  {
    var text, term := "foo bar", "bar";
    forall p | 0 <= p < 4
      ensures !MatchAt(text, term, p)
    {
      assert text[p] != 'b' && text[p..p + 3][0] == text[p];
    }
    assert text[4..7] == term;
    assert MatchAt(text, term, 4);
    assert FirstMatch(text, term, 0) == Some(4);
    assert FirstMatch(text, term, 7) == None;
  }

  // ---- get_subtoken_alignment ----

  /**
   * subtoken_starts as the loop computes it: 0 for the first subtoken, then each start is
   * the previous start plus the length of the subtoken itself.
   */
  function SubtokenStarts(subtokens: seq<string>): (starts: seq<int>)
    ensures |starts| == |subtokens|
  {
    if subtokens == [] then []
    else if |subtokens| == 1 then [0]
    else
      var n := |subtokens| - 1;
      var init := SubtokenStarts(subtokens[..n]);
      init + [init[n - 1] + |subtokens[n]|]
  }

  /** Where each subtoken begins in the joined subtokens: the total length of those before it. */
  function TokenOffsets(subtokens: seq<string>): (offsets: seq<nat>)
    ensures |offsets| == |subtokens|
  {
    seq(|subtokens|, i requires 0 <= i < |subtokens| => |Concat(subtokens[..i])|)
  }

  /** Joining a prefix of the parts gives a prefix of the joined text. */
  lemma {:induction false} ConcatPrefix(parts: seq<string>, j: nat)
    requires j <= |parts|
    ensures Concat(parts[..j]) <= Concat(parts)
    decreases |parts|
  {
    if j < |parts| {
      var init := parts[..|parts| - 1];
      ConcatPrefix(init, j);
      assert init[..j] == parts[..j];
    } else {
      assert parts[..j] == parts;
    }
  }

  /** The joined text holds each subtoken at its offset. */
  lemma OffsetsLocate(subtokens: seq<string>, i: nat)
    requires i < |subtokens|
    ensures var offsets := TokenOffsets(subtokens);
      offsets[i] + |subtokens[i]| <= |Concat(subtokens)|
      && Concat(subtokens)[offsets[i]..offsets[i] + |subtokens[i]|] == subtokens[i]
  {
    var pre := subtokens[..i + 1];
    assert pre[..i] == subtokens[..i];
    var before := Concat(subtokens[..i]);
    assert Concat(pre) == before + subtokens[i];
    ConcatPrefix(subtokens, i + 1);
    var whole := Concat(subtokens);
    assert whole[|before|..|before| + |subtokens[i]|] == (before + subtokens[i])[|before|..];
  }

  /** The loop's state: the subtoken and span indices and the lists built so far. */
  datatype Cursor = Cursor(i: nat, j: nat, groups: seq<seq<nat>>)

  /** sub_end: the next subtoken's start, or the sentence length for the last subtoken. */
  function SubEnd(starts: seq<int>, len: int, i: nat): int
    requires i < |starts|
  {
    if i < |starts| - 1 then starts[i + 1] else len
  }

  /** The overlap test as written: the subtoken starts before the span ends, and the span is not empty. */
  predicate WrittenOverlap(subStart: int, subEnd: int, tokenStart: int, tokenEnd: int) {
    subStart < tokenEnd && tokenStart < tokenEnd
  }

  /** Half-open intervals [subStart, subEnd) and [tokenStart, tokenEnd) overlap: each starts before the other ends. */
  predicate Overlap(subStart: int, subEnd: int, tokenStart: int, tokenEnd: int) {
    subStart < tokenEnd && tokenStart < subEnd
  }

  /**
   * One pass of the while loop, with the overlap test as a parameter: record the subtoken
   * on the current span's list when they overlap, move past the subtoken when it ends
   * within the span, and move to the next span, opening its list, when the span ends
   * within the subtoken. One of the two always moves, so the loop terminates.
   */
  function Step(starts: seq<int>, len: int, spans: seq<(int, int)>, overlaps: (int, int, int, int) -> bool, c: Cursor): (d: Cursor)
    requires c.i < |starts| && c.j < |spans| && c.groups != []
    ensures c.i <= d.i <= c.i + 1 && c.j <= d.j <= c.j + 1 && c.i + c.j < d.i + d.j
  {
    var subStart, subEnd := starts[c.i], SubEnd(starts, len, c.i);
    var tokenStart, tokenEnd := spans[c.j].0, spans[c.j].1;
    var last := |c.groups| - 1;
    var groups := if overlaps(subStart, subEnd, tokenStart, tokenEnd) then c.groups[last := c.groups[last] + [c.i]] else c.groups;
    var i := if subEnd <= tokenEnd then c.i + 1 else c.i;
    if tokenEnd <= subEnd then Cursor(i, c.j + 1, groups + [[]]) else Cursor(i, c.j, groups)
  }

  /** The while loop, run from cursor c until the subtokens or the spans run out. */
  function Run(starts: seq<int>, len: int, spans: seq<(int, int)>, overlaps: (int, int, int, int) -> bool, c: Cursor): (d: Cursor)
    requires c.i <= |starts| && c.j <= |spans| && c.groups != []
    ensures d.i <= |starts| && d.j <= |spans| && (d.i == |starts| || d.j == |spans|)
    decreases |starts| - c.i + |spans| - c.j
  {
    if c.i < |starts| && c.j < |spans| then
      Run(starts, len, spans, overlaps, Step(starts, len, spans, overlaps, c))
    else c
  }

  lemma RunStep(starts: seq<int>, len: int, spans: seq<(int, int)>, overlaps: (int, int, int, int) -> bool, c: Cursor)
    requires c.i < |starts| && c.j < |spans| && c.groups != []
    ensures Run(starts, len, spans, overlaps, c) == Run(starts, len, spans, overlaps, Step(starts, len, spans, overlaps, c))
  {
  }

  /** The lists the loop builds, starting from [[]] with both indices at 0. */
  function Alignment(starts: seq<int>, len: int, spans: seq<(int, int)>, overlaps: (int, int, int, int) -> bool): seq<seq<nat>> {
    Run(starts, len, spans, overlaps, Cursor(0, 0, [[]])).groups
  }

  /** The first loop of get_subtoken_alignment: the start offsets it records for the subtokens. */
  method StartOffsets(subtokens: seq<string>) returns (subtokenStarts: seq<int>)
    ensures subtokenStarts == SubtokenStarts(subtokens)
  {
    subtokenStarts := [];
    var k := 0;
    while k < |subtokens|
      invariant 0 <= k <= |subtokens|
      invariant subtokenStarts == SubtokenStarts(subtokens[..k])
    {
      var start;
      if k == 0 {
        start := 0;
      } else {
        start := subtokenStarts[k - 1] + |subtokens[k]|;
      }
      assert subtokens[..k + 1][..k] == subtokens[..k];
      subtokenStarts := subtokenStarts + [start];
      k := k + 1;
    }
    assert subtokens[..k] == subtokens;
  }

  /** The ValueError raised when the subtokens do not line up with the sentence. */
  const MisalignedMessage := "Error: Tokenized sentence does not align with input. Trying applying normalize_text first."

  /**
   * get_subtoken_alignment, with the tokenizer's output for the sentence given: a ValueError
   * when the subtokens' total length differs from the sentence's, and otherwise the lists
   * the two-index loop builds over the start offsets and the spans.
   */
  method GetSubtokenAlignment(subtokens: seq<string>, sentence: string, spans: seq<(int, int)>)
    returns (r: Result<seq<seq<nat>>, string>)
    ensures |Concat(subtokens)| != |sentence| ==> r == Err(MisalignedMessage)
    ensures |Concat(subtokens)| == |sentence| ==>
      r == Ok(Alignment(SubtokenStarts(subtokens), |sentence|, spans, WrittenOverlap))
  {
    if |Concat(subtokens)| != |sentence| {
      return Err(MisalignedMessage);
    }
    var span2subtokens: seq<seq<nat>> := [[]];
    var subtokenStarts := StartOffsets(subtokens);
    var iSubtoken, jToken := 0, 0;
    while iSubtoken < |subtokens| && jToken < |spans|
      invariant iSubtoken <= |subtokens| && jToken <= |spans| && span2subtokens != []
      invariant Run(subtokenStarts, |sentence|, spans, WrittenOverlap, Cursor(iSubtoken, jToken, span2subtokens))
             == Run(subtokenStarts, |sentence|, spans, WrittenOverlap, Cursor(0, 0, [[]]))
      decreases |subtokens| - iSubtoken + |spans| - jToken
    {
      ghost var before := Cursor(iSubtoken, jToken, span2subtokens);
      RunStep(subtokenStarts, |sentence|, spans, WrittenOverlap, before);
      var subStart := subtokenStarts[iSubtoken];
      var subEnd := if iSubtoken < |subtokens| - 1 then subtokenStarts[iSubtoken + 1] else |sentence|;
      var tokenStart, tokenEnd := spans[jToken].0, spans[jToken].1;
      if subStart < tokenEnd && tokenStart < tokenEnd {
        var last := |span2subtokens| - 1;
        span2subtokens := span2subtokens[last := span2subtokens[last] + [iSubtoken]];
      }
      if subEnd <= tokenEnd {
        iSubtoken := iSubtoken + 1;
      }
      if tokenEnd <= subEnd {
        jToken := jToken + 1;
        span2subtokens := span2subtokens + [[]];
      }
      assert Cursor(iSubtoken, jToken, span2subtokens) == Step(subtokenStarts, |sentence|, spans, WrittenOverlap, before);
    }
    return Ok(span2subtokens);
  }

  // ---- what the loop guarantees, for any start offsets and overlap test ----

  predicate Increasing(xs: seq<nat>) {
    forall a, b :: 0 <= a < b < |xs| ==> xs[a] < xs[b]
  }

  /**
   * The loop's bookkeeping: one list per span reached so far, every recorded index a
   * subtoken, none past the subtoken index, none of the current list at that index
   * itself, and each list in increasing order.
   */
  predicate Recorded(c: Cursor, n: nat) {
    |c.groups| == c.j + 1
    && (forall k, x :: 0 <= k < |c.groups| && 0 <= x < |c.groups[k]| ==> c.groups[k][x] < n && c.groups[k][x] <= c.i)
    && (forall x :: 0 <= x < |c.groups[c.j]| ==> c.groups[c.j][x] < c.i)
    && (forall k :: 0 <= k < |c.groups| ==> Increasing(c.groups[k]))
  }

  lemma StepRecorded(starts: seq<int>, len: int, spans: seq<(int, int)>, overlaps: (int, int, int, int) -> bool, c: Cursor)
    requires c.i < |starts| && c.j < |spans| && Recorded(c, |starts|)
    ensures Recorded(Step(starts, len, spans, overlaps, c), |starts|)
  {
    var d := Step(starts, len, spans, overlaps, c);
    var subEnd, tokenEnd := SubEnd(starts, len, c.i), spans[c.j].1;
    var groups := if overlaps(starts[c.i], subEnd, spans[c.j].0, tokenEnd) then c.groups[c.j := c.groups[c.j] + [c.i]] else c.groups;
    assert forall k :: 0 <= k < |groups| ==> Increasing(groups[k]);
    assert forall k, x :: 0 <= k < |groups| && 0 <= x < |groups[k]| ==> groups[k][x] < |starts| && groups[k][x] <= c.i;
    if tokenEnd <= subEnd {
      assert d.groups == groups + [[]];
      assert forall k :: 0 <= k < |d.groups| ==> Increasing(d.groups[k]);
    } else {
      assert d.groups == groups && d.i == c.i + 1;
    }
  }

  lemma {:induction false} RunRecorded(starts: seq<int>, len: int, spans: seq<(int, int)>, overlaps: (int, int, int, int) -> bool, c: Cursor)
    requires c.i <= |starts| && c.j <= |spans| && Recorded(c, |starts|)
    ensures Recorded(Run(starts, len, spans, overlaps, c), |starts|)
    decreases |starts| - c.i + |spans| - c.j
  {
    if c.i < |starts| && c.j < |spans| {
      StepRecorded(starts, len, spans, overlaps, c);
      RunRecorded(starts, len, spans, overlaps, Step(starts, len, spans, overlaps, c));
    }
  }

  /**
   * Whatever the offsets and the overlap test, the result starts from [[]] and gains one
   * list per span passed, so it has between 1 and len(spans) + 1 lists; every recorded
   * index is a subtoken index, and each list is strictly increasing.
   */
  lemma AlignmentShape(starts: seq<int>, len: int, spans: seq<(int, int)>, overlaps: (int, int, int, int) -> bool)
    ensures var groups := Alignment(starts, len, spans, overlaps);
      1 <= |groups| <= |spans| + 1
      && (forall k, x :: 0 <= k < |groups| && 0 <= x < |groups[k]| ==> groups[k][x] < |starts|)
      && (forall k :: 0 <= k < |groups| ==> Increasing(groups[k]))
  {
    RunRecorded(starts, len, spans, overlaps, Cursor(0, 0, [[]]));
  }

  // ---- the start offsets: as written and as intended ----

  /** The start recorded for each subtoken is where that subtoken ends, less the length of the first one. */
  lemma {:induction false} StartsAsWritten(subtokens: seq<string>, i: nat)
    requires i < |subtokens|
    ensures SubtokenStarts(subtokens)[i] + |subtokens[0]| == TokenOffsets(subtokens)[i] + |subtokens[i]|
    decreases |subtokens|
  {
    var n := |subtokens| - 1;
    if n == 0 {
      assert subtokens[..0] == [];
    } else {
      var init := subtokens[..n];
      var starts := SubtokenStarts(init);
      assert SubtokenStarts(subtokens) == starts + [starts[n - 1] + |subtokens[n]|];
      assert init[0] == subtokens[0];
      if i < n {
        StartsAsWritten(init, i);
        assert init[..i] == subtokens[..i];
      } else {
        StartsAsWritten(init, n - 1);
        assert init[..n - 1] == subtokens[..n - 1];
        assert Concat(init) == Concat(init[..n - 1]) + init[n - 1];
      }
    }
  }

  /** ["ab", "c"]: the loop gives "c" the start 1, inside "ab"; it begins at 2. */
  lemma StartsMisplaced()
    ensures SubtokenStarts(["ab", "c"]) == [0, 1]
    ensures TokenOffsets(["ab", "c"]) == [0, 2]
  {
    assert ["ab", "c"][..1] == ["ab"];
    assert ["ab", "c"][..1][..0] == [];
  }

  /** The joined text's length bounds every offset, and offsets never decrease. */
  lemma {:induction false} OffsetsGrow(subtokens: seq<string>, a: nat, b: nat)
    requires a <= b <= |subtokens|
    ensures |Concat(subtokens[..a])| <= |Concat(subtokens[..b])|
    decreases b - a
  {
    if a < b {
      OffsetsGrow(subtokens, a, b - 1);
      var pre := subtokens[..b];
      assert pre[..b - 1] == subtokens[..b - 1];
      assert Concat(pre) == Concat(pre[..b - 1]) + pre[b - 1];
    }
  }

  /** With the true offsets, a subtoken ends where the next one starts, and the last ends the joined text. */
  lemma OffsetsEnd(subtokens: seq<string>, a: nat)
    requires a < |subtokens|
    ensures SubEnd(TokenOffsets(subtokens), |Concat(subtokens)|, a) == TokenOffsets(subtokens)[a] + |subtokens[a]|
  {
    var offsets := TokenOffsets(subtokens);
    if a + 1 < |subtokens| {
      var pre := subtokens[..a + 1];
      assert pre[..a] == subtokens[..a];
      assert Concat(pre) == Concat(pre[..a]) + pre[a];
    } else {
      assert subtokens[..a + 1] == subtokens;
      assert Concat(subtokens) == Concat(subtokens[..a]) + subtokens[a];
    }
  }

  // ---- the overlap test: as written and as intended ----

  /**
   * ["ab", "cd"] over "abcd" with the one span (2, 4), the characters "cd": the loop as
   * written also records "ab", which ends before the span begins, because its test only
   * asks that the subtoken start before the span ends.
   */
  lemma OverlapAsWritten()
    ensures Alignment(SubtokenStarts(["ab", "cd"]), 4, [(2, 4)], WrittenOverlap) == [[0, 1], []]
  {
    assert ["ab", "cd"][..1] == ["ab"];
    var starts := SubtokenStarts(["ab", "cd"]);
    assert starts == [0, 2];
    assert SubEnd(starts, 4, 0) == 2 && SubEnd(starts, 4, 1) == 4;
    assert WrittenOverlap(0, 2, 2, 4) && WrittenOverlap(2, 4, 2, 4);
    var g0: seq<seq<nat>> := [[]];
    var g1: seq<seq<nat>> := [[0]];
    assert g0[0] + [0] == [0];
    assert g0[0 := g0[0] + [0]] == g1;
    var c1 := Step(starts, 4, [(2, 4)], WrittenOverlap, Cursor(0, 0, g0));
    assert c1 == Cursor(1, 0, g1);
    var g2: seq<seq<nat>> := [[0, 1]];
    assert g1[0] + [1] == [0, 1];
    assert g1[0 := g1[0] + [1]] == g2;
    var c2 := Step(starts, 4, [(2, 4)], WrittenOverlap, c1);
    assert c2 == Cursor(2, 1, g2 + [[]]);
  }

  /** The same input with the true offsets and a two-sided overlap test records only "cd". */
  lemma OverlapIntended()
    ensures Alignment(TokenOffsets(["ab", "cd"]), 4, [(2, 4)], Overlap) == [[1], []]
  {
    assert ["ab", "cd"][..1] == ["ab"];
    assert ["ab", "cd"][..1][..0] == [];
    var starts: seq<int> := TokenOffsets(["ab", "cd"]);
    assert starts == [0, 2];
    assert SubEnd(starts, 4, 0) == 2 && SubEnd(starts, 4, 1) == 4;
    assert !Overlap(0, 2, 2, 4) && Overlap(2, 4, 2, 4);
    var g0: seq<seq<nat>> := [[]];
    var c1 := Step(starts, 4, [(2, 4)], Overlap, Cursor(0, 0, g0));
    assert c1 == Cursor(1, 0, g0);
    var g1: seq<seq<nat>> := [[1]];
    assert g0[0] + [1] == [1];
    assert g0[0 := g0[0] + [1]] == g1;
    var c2 := Step(starts, 4, [(2, 4)], Overlap, c1);
    assert c2 == Cursor(2, 1, g1 + [[]]);
  }

  // ---- the intended alignment ----

  /** The subtokens before m that share a character position with span, in order. */
  function Hits(starts: seq<int>, len: int, span: (int, int), m: nat): (hs: seq<nat>)
    requires m <= |starts|
  {
    if m == 0 then []
    else
      var a := m - 1;
      Hits(starts, len, span, a) + (if NoHit(starts, len, a, span) then [] else [a])
  }

  /** The hits are subtoken indices below m, and a subtoken below m is a hit exactly when it overlaps the span. */
  lemma {:induction false} HitsSpec(starts: seq<int>, len: int, span: (int, int), m: nat)
    requires m <= |starts|
    ensures forall a :: a in Hits(starts, len, span, m) ==> a < m
    ensures forall a :: 0 <= a < m ==> (a in Hits(starts, len, span, m) <==> !NoHit(starts, len, a, span))
    decreases m
  {
    if m > 0 {
      HitsSpec(starts, len, span, m - 1);
    }
  }

  /** Subtokens laid end to end: no subtoken starts before an earlier one ends. */
  predicate Laid(starts: seq<int>, len: int) {
    forall a, b :: 0 <= a < b < |starts| ==> SubEnd(starts, len, a) <= starts[b]
  }

  /** Spans in order and apart: each ends no later than any later one starts, and none is reversed. */
  predicate Consecutive(spans: seq<(int, int)>) {
    (forall k :: 0 <= k < |spans| ==> spans[k].0 <= spans[k].1)
    && (forall a, b :: 0 <= a < b < |spans| ==> spans[a].1 <= spans[b].0)
  }

  predicate NoHit(starts: seq<int>, len: int, a: nat, span: (int, int))
    requires a < |starts|
  {
    !Overlap(starts[a], SubEnd(starts, len, a), span.0, span.1)
  }

  /**
   * What the loop has established at cursor c: the lists of the spans passed are complete,
   * the current span's list holds its overlapping subtokens before the subtoken index, and no
   * subtoken before that index overlaps a span further on.
   */
  predicate Aligned(starts: seq<int>, len: int, spans: seq<(int, int)>, c: Cursor)
    requires c.i <= |starts| && c.j <= |spans|
  {
    |c.groups| == c.j + 1
    && (forall k :: 0 <= k < c.j ==> c.groups[k] == Hits(starts, len, spans[k], |starts|))
    && (c.j < |spans| ==> c.groups[c.j] == Hits(starts, len, spans[c.j], c.i))
    && (c.j == |spans| ==> c.groups[c.j] == [])
    && (forall a, k :: 0 <= a < c.i && c.j < k < |spans| ==> NoHit(starts, len, a, spans[k]))
  }

  /** Subtokens from m to n that miss the span add nothing to its hits. */
  lemma {:induction false} HitsNoneAfter(starts: seq<int>, len: int, span: (int, int), m: nat, n: nat)
    requires m <= n <= |starts|
    requires forall a :: m <= a < n ==> NoHit(starts, len, a, span)
    ensures Hits(starts, len, span, n) == Hits(starts, len, span, m)
    decreases n - m
  {
    if m < n {
      HitsNoneAfter(starts, len, span, m, n - 1);
    }
  }

  /** One pass with the two-sided test, spelled out: the new current list, then the indices move. */
  lemma StepOverlap(starts: seq<int>, len: int, spans: seq<(int, int)>, c: Cursor)
    requires c.i < |starts| && c.j < |spans| && |c.groups| == c.j + 1
    ensures var subEnd, span := SubEnd(starts, len, c.i), spans[c.j];
      var groups := c.groups[c.j := c.groups[c.j] + (if NoHit(starts, len, c.i, span) then [] else [c.i])];
      Step(starts, len, spans, Overlap, c)
      == if span.1 <= subEnd then Cursor(if subEnd <= span.1 then c.i + 1 else c.i, c.j + 1, groups + [[]])
         else Cursor(c.i + 1, c.j, groups)
  {
    if NoHit(starts, len, c.i, spans[c.j]) {
      assert c.groups[c.j] + [] == c.groups[c.j];
    }
  }

  /** Moving past a subtoken that ends before the current span does. */
  lemma AlignedNextSubtoken(starts: seq<int>, len: int, spans: seq<(int, int)>, c: Cursor)
    requires Consecutive(spans)
    requires c.i < |starts| && c.j < |spans| && Aligned(starts, len, spans, c)
    requires SubEnd(starts, len, c.i) < spans[c.j].1
    ensures Aligned(starts, len, spans, Cursor(c.i + 1, c.j, c.groups[c.j := Hits(starts, len, spans[c.j], c.i + 1)]))
  {
    var d := Cursor(c.i + 1, c.j, c.groups[c.j := Hits(starts, len, spans[c.j], c.i + 1)]);
    forall a, k | 0 <= a < d.i && d.j < k < |spans|
      ensures NoHit(starts, len, a, spans[k])
    {
      if a == c.i {
        assert spans[c.j].1 <= spans[k].0;
      }
    }
  }

  /** Moving to the next span, after one that ends within the current subtoken. */
  lemma AlignedNextSpan(starts: seq<int>, len: int, spans: seq<(int, int)>, c: Cursor, i: nat)
    requires Laid(starts, len) && Consecutive(spans)
    requires c.i < |starts| && c.j < |spans| && Aligned(starts, len, spans, c)
    requires spans[c.j].1 <= SubEnd(starts, len, c.i)
    requires i == if SubEnd(starts, len, c.i) <= spans[c.j].1 then c.i + 1 else c.i
    ensures Aligned(starts, len, spans, Cursor(i, c.j + 1, c.groups[c.j := Hits(starts, len, spans[c.j], c.i + 1)] + [[]]))
  {
    var j := c.j;
    var span := spans[j];
    var groups := c.groups[j := Hits(starts, len, span, c.i + 1)] + [[]];
    var d := Cursor(i, j + 1, groups);
    forall a | c.i + 1 <= a < |starts|
      ensures NoHit(starts, len, a, span)
    {
      assert SubEnd(starts, len, c.i) <= starts[a];
    }
    HitsNoneAfter(starts, len, span, c.i + 1, |starts|);
    assert groups[j] == Hits(starts, len, span, |starts|);
    forall a, k | 0 <= a < i && j + 1 < k < |spans|
      ensures NoHit(starts, len, a, spans[k])
    {
      if a == c.i {
        assert span.1 <= spans[k].0;
      }
    }
    if j + 1 < |spans| {
      var next := spans[j + 1];
      forall a | 0 <= a < i
        ensures NoHit(starts, len, a, next)
      {
        if a == c.i {
          assert span.1 <= next.0;
        }
      }
      HitsNoneAfter(starts, len, next, 0, i);
    }
  }

  lemma StepAligned(starts: seq<int>, len: int, spans: seq<(int, int)>, c: Cursor)
    requires Laid(starts, len) && Consecutive(spans)
    requires c.i < |starts| && c.j < |spans| && c.groups != [] && Aligned(starts, len, spans, c)
    ensures var d := Step(starts, len, spans, Overlap, c);
      d.i <= |starts| && d.j <= |spans| && Aligned(starts, len, spans, d)
  {
    var i, j := c.i, c.j;
    var span := spans[j];
    assert c.groups[j] + (if NoHit(starts, len, i, span) then [] else [i]) == Hits(starts, len, span, i + 1);
    StepOverlap(starts, len, spans, c);
    if span.1 <= SubEnd(starts, len, i) {
      AlignedNextSpan(starts, len, spans, c, if SubEnd(starts, len, i) <= span.1 then i + 1 else i);
    } else {
      AlignedNextSubtoken(starts, len, spans, c);
    }
  }

  lemma {:induction false} RunAligned(starts: seq<int>, len: int, spans: seq<(int, int)>, c: Cursor)
    requires Laid(starts, len) && Consecutive(spans)
    requires c.i <= |starts| && c.j <= |spans| && c.groups != [] && Aligned(starts, len, spans, c)
    ensures Aligned(starts, len, spans, Run(starts, len, spans, Overlap, c))
    decreases |starts| - c.i + |spans| - c.j
  {
    if c.i < |starts| && c.j < |spans| {
      StepAligned(starts, len, spans, c);
      RunAligned(starts, len, spans, Step(starts, len, spans, Overlap, c));
    }
  }

  /**
   * With subtokens laid end to end and consecutive, non-overlapping spans, the two-sided
   * test makes each span's list exactly the subtokens holding a character of the span, in
   * order; a span the loop never reaches overlaps no subtoken, and a final extra list is empty.
   */
  lemma AlignmentOverlaps(starts: seq<int>, len: int, spans: seq<(int, int)>)
    requires Laid(starts, len) && Consecutive(spans)
    ensures var groups := Alignment(starts, len, spans, Overlap);
      (forall k :: 0 <= k < |spans| && k < |groups| ==> groups[k] == Hits(starts, len, spans[k], |starts|))
      && (forall k :: |groups| <= k < |spans| ==> Hits(starts, len, spans[k], |starts|) == [])
      && (|groups| == |spans| + 1 ==> groups[|spans|] == [])
  {
    var c0 := Cursor(0, 0, [[]]);
    if spans != [] {
      assert Hits(starts, len, spans[0], 0) == [];
    }
    RunAligned(starts, len, spans, c0);
    var d := Run(starts, len, spans, Overlap, c0);
    forall k | |d.groups| <= k < |spans|
      ensures Hits(starts, len, spans[k], |starts|) == []
    {
      assert forall a :: 0 <= a < |starts| ==> NoHit(starts, len, a, spans[k]);
      HitsNoneAfter(starts, len, spans[k], 0, |starts|);
    }
  }

  /** The true offsets lay the subtokens end to end over the joined text. */
  lemma OffsetsLaid(subtokens: seq<string>)
    ensures Laid(TokenOffsets(subtokens), |Concat(subtokens)|)
  {
    var offsets := TokenOffsets(subtokens);
    forall a, b | 0 <= a < b < |offsets|
      ensures SubEnd(offsets, |Concat(subtokens)|, a) <= offsets[b]
    {
      OffsetsEnd(subtokens, a);
      OffsetsGrow(subtokens, a + 1, b);
      var pre := subtokens[..a + 1];
      assert pre[..a] == subtokens[..a];
      assert Concat(pre) == Concat(pre[..a]) + pre[a];
    }
  }

  /**
   * get_subtoken_alignment as evidently intended: the same length check and loop, over the
   * true start offsets and with a test that the subtoken and the span share a position.
   */
  function IntendedAlignment(subtokens: seq<string>, sentence: string, spans: seq<(int, int)>): Result<seq<seq<nat>>, string> {
    if |Concat(subtokens)| != |sentence| then Err(MisalignedMessage)
    else Ok(Alignment(TokenOffsets(subtokens), |sentence|, spans, Overlap))
  }

  /** The list membership AlignmentOverlaps gives, read through the hits' characterisation. */
  lemma AlignmentMembers(starts: seq<int>, len: int, spans: seq<(int, int)>)
    requires Laid(starts, len) && Consecutive(spans)
    ensures var groups := Alignment(starts, len, spans, Overlap);
      (forall k, a :: 0 <= k < |spans| && k < |groups| && 0 <= a < |starts| ==>
         (a in groups[k] <==> !NoHit(starts, len, a, spans[k])))
      && (forall k, a :: |groups| <= k < |spans| && 0 <= a < |starts| ==> NoHit(starts, len, a, spans[k]))
  {
    AlignmentOverlaps(starts, len, spans);
    var groups := Alignment(starts, len, spans, Overlap);
    forall k | 0 <= k < |spans|
      ensures forall a :: 0 <= a < |starts| ==> (a in Hits(starts, len, spans[k], |starts|) <==> !NoHit(starts, len, a, spans[k]))
    {
      HitsSpec(starts, len, spans[k], |starts|);
    }
  }

  /** Subtoken a holds a character of span: the two share a position. */
  predicate Covers(subtokens: seq<string>, a: nat, span: (int, int))
    requires a < |subtokens|
  {
    var offsets := TokenOffsets(subtokens);
    Overlap(offsets[a], offsets[a] + |subtokens[a]|, span.0, span.1)
  }

  /**
   * The intended promise: for consecutive, non-overlapping spans, each span's list holds, in
   * increasing order, exactly the subtokens that contain a character of the span; a span
   * without a list has no such subtoken.
   */
  lemma IntendedAlignmentSpec(subtokens: seq<string>, sentence: string, spans: seq<(int, int)>)
    requires |Concat(subtokens)| == |sentence| && Consecutive(spans)
    ensures var groups := IntendedAlignment(subtokens, sentence, spans).value;
      1 <= |groups| <= |spans| + 1
      && (forall k :: 0 <= k < |groups| ==> Increasing(groups[k]))
      && (forall k, x :: 0 <= k < |groups| && 0 <= x < |groups[k]| ==> groups[k][x] < |subtokens|)
      && (forall k, a :: 0 <= k < |spans| && k < |groups| && 0 <= a < |subtokens| ==>
            (a in groups[k] <==> Covers(subtokens, a, spans[k])))
      && (forall k, a :: |groups| <= k < |spans| && 0 <= a < |subtokens| ==> !Covers(subtokens, a, spans[k]))
  {
    var offsets: seq<int> := TokenOffsets(subtokens);
    var len := |sentence|;
    OffsetsLaid(subtokens);
    AlignmentShape(offsets, len, spans, Overlap);
    AlignmentMembers(offsets, len, spans);
    forall a, span | 0 <= a < |subtokens|
      ensures NoHit(offsets, len, a, span) <==> !Covers(subtokens, a, span)
    {
      OffsetsEnd(subtokens, a);
    }
  }
}
