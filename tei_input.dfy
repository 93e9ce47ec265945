/**
 * The TEI reader of the sentence corpus. Each standard page yields its body text as
 * one chunk and each of its footnotes as a chunk of its own. While the body text is
 * built, the reader records the character offset at which each numbered line break's
 * text starts, so that a sentence's offset can be mapped back to a TEI line number.
 */
module TeiInput {
  import opened Wrappers
  import opened Text
  import opened Seqs
  import opened BaseInput
  import opened TeiXml

  /** Field names of sentences read from TEI: the common ones, then page, section and line. */
  const TeiFieldNames: seq<string> := FieldNames + ["page_number", "section_type", "line_number"]

  /** What int() raises on a line-number attribute: a malformed value, or no value at all. */
  datatype TeiError = InvalidLineNumber(value: string) | MissingLineNumber

  // ---------------------------------------------------------------------------
  // Footnotes

  /**
   * TEIFootnote.get_text: strip every line of the footnote's text, join the lines with
   * spaces, then split into words and join them with single spaces.
   */
  function FootnoteText(f: Footnote): string {
    Join(" ", Words(Join(" ", StripAll(SplitLines(f.itertext)))))
  }

  /** A footnote chunk is single-spaced, already stripped, and keeps every non-whitespace character in order. */
  lemma FootnoteTextClean(f: Footnote)
    ensures SingleSpaced(FootnoteText(f))
    ensures Strip(FootnoteText(f)) == FootnoteText(f)
    ensures NonSpace(FootnoteText(f)) == NonSpace(f.itertext)
  {
    var lines := SplitLines(f.itertext);
    var joined := Join(" ", StripAll(lines));
    WordsAreWords(joined);
    JoinWordsSingleSpaced(Words(joined));
    StripSingleSpaced(FootnoteText(f));
    NonSpaceJoin(" ", Words(joined));
    NonSpaceWords(joined);
    NonSpaceJoin(" ", StripAll(lines));
    NonSpacesStripAll(lines);
    NonSpaceSplitLines(f.itertext);
  }

  /** TEIFootnote.get_first_line_number: int() of the n of the footnote's first numbered lb. */
  function FirstLineNumber(f: Footnote): (r: Result<int, TeiError>)
    ensures f.firstLineBreak.None? ==> r == Err(MissingLineNumber)
    ensures f.firstLineBreak.Some? ==>
      (r.Ok? <==> ParseInt(f.firstLineBreak.value).Some?)
      && (r.Ok? ==> r.value == ParseInt(f.firstLineBreak.value).value)
      && (r.Err? ==> r == Err(InvalidLineNumber(f.firstLineBreak.value)))
  {
    match f.firstLineBreak
    case None => Err(MissingLineNumber)
    case Some(n) =>
      match ParseInt(n)
      case None => Err(InvalidLineNumber(n))
      case Some(v) => Ok(v)
  }

  /** `get_first_line_number() or 1`: a zero line number falls back to 1. */
  function FootnoteLine(f: Footnote): (r: Result<int, TeiError>)
    ensures r.Ok? <==> FirstLineNumber(f).Ok?
    ensures r.Ok? ==> r.value != 0
    ensures r.Ok? && FirstLineNumber(f).value != 0 ==> r.value == FirstLineNumber(f).value
    ensures r.Err? ==> r.error == FirstLineNumber(f).error
  {
    match FirstLineNumber(f)
    case Err(e) => Err(e)
    case Ok(v) => Ok(if v == 0 then 1 else v)
  }

  /** Index of the first footnote from i on whose line number cannot be read, or |fs|. */
  function FirstBadFootnote(fs: seq<Footnote>, i: nat): (k: nat)
    requires i <= |fs|
    ensures i <= k <= |fs|
    ensures forall j :: i <= j < k ==> FootnoteLine(fs[j]).Ok?
    ensures k < |fs| ==> FootnoteLine(fs[k]).Err?
    decreases |fs| - i
  {
    if i == |fs| || FootnoteLine(fs[i]).Err? then i else FirstBadFootnote(fs, i + 1)
  }

  /** The map holds exactly the first n footnotes' positions, each with that footnote's line number. */
  ghost predicate RecordsFirst(m: map<nat, int>, fs: seq<Footnote>, n: nat) {
    n <= |fs|
    && (forall k: nat :: k in m <==> k < n)
    && (forall k :: k in m ==> k < |fs| && FootnoteLine(fs[k]) == Ok(m[k]))
  }

  /** The texts of the page's footnotes, in order. */
  function FootnoteTexts(fs: seq<Footnote>): (ts: seq<string>)
    ensures |ts| == |fs| && forall k :: 0 <= k < |fs| ==> ts[k] == FootnoteText(fs[k])
  {
    seq(|fs|, k requires 0 <= k < |fs| => FootnoteText(fs[k]))
  }

  lemma FootnoteTextsSnoc(fs: seq<Footnote>, i: nat)
    requires i < |fs|
    ensures FootnoteTexts(fs[..i + 1]) == FootnoteTexts(fs[..i]) + [FootnoteText(fs[i])]
  {
  }

  /** What get_individual_footnotes produces for a page once consumed: all texts, or the first error. */
  function PageFootnoteTexts(page: Page): Result<seq<string>, TeiError> {
    var fs := PageFootnotes(page);
    var n := FirstBadFootnote(fs, 0);
    if n < |fs| then Err(FootnoteLine(fs[n]).error) else Ok(FootnoteTexts(fs))
  }

  /** The first footnote whose line number cannot be read is the one after a run of readable ones. */
  lemma FirstBadIs(fs: seq<Footnote>, n: nat)
    requires n <= |fs| && forall j :: 0 <= j < n ==> FootnoteLine(fs[j]).Ok?
    requires n < |fs| ==> FootnoteLine(fs[n]).Err?
    ensures FirstBadFootnote(fs, 0) == n
  {
  }

  /** Every entry of the map is the line number of the page's footnote at that position. */
  predicate GoodFootnoteMap(page: Page, m: map<nat, int>) {
    forall k :: k in m ==> k < |PageFootnotes(page)| && FootnoteLine(PageFootnotes(page)[k]) == Ok(m[k])
  }

  /** The loop stops at a footnote whose line number cannot be read: that error is the outcome. */
  lemma FootnotesStop(page: Page, m: map<nat, int>, i: nat)
    requires RecordsFirst(m, PageFootnotes(page), i)
    requires i < |PageFootnotes(page)| && FootnoteLine(PageFootnotes(page)[i]).Err?
    ensures FirstBadFootnote(PageFootnotes(page), 0) == i
    ensures PageFootnoteTexts(page) == Err(FootnoteLine(PageFootnotes(page)[i]).error)
    ensures GoodFootnoteMap(page, m)
  {
    var fs := PageFootnotes(page);
    assert forall j :: 0 <= j < i ==> j in m;
    FirstBadIs(fs, i);
  }

  /** The loop runs through every footnote: all texts are the outcome. */
  lemma FootnotesDone(page: Page, m: map<nat, int>, texts: seq<string>)
    requires RecordsFirst(m, PageFootnotes(page), |PageFootnotes(page)|)
    requires texts == FootnoteTexts(PageFootnotes(page)[..|PageFootnotes(page)|])
    ensures FirstBadFootnote(PageFootnotes(page), 0) == |PageFootnotes(page)|
    ensures PageFootnoteTexts(page) == Ok(texts)
    ensures GoodFootnoteMap(page, m)
  {
    var fs := PageFootnotes(page);
    assert fs[..|fs|] == fs;
    assert forall j :: 0 <= j < |fs| ==> j in m;
    FirstBadIs(fs, |fs|);
  }

  /** Recording the next footnote's line number extends the map by one position. */
  lemma RecordsNext(m: map<nat, int>, fs: seq<Footnote>, i: nat)
    requires RecordsFirst(m, fs, i) && i < |fs| && FootnoteLine(fs[i]).Ok?
    ensures RecordsFirst(m[i := FootnoteLine(fs[i]).value], fs, i + 1)
  {
  }

  // ---------------------------------------------------------------------------
  // Body text and its line index

  /** The state of get_body_text's loop: kept fragments, line index, its offsets in order, and the running offset. */
  datatype BodyState = BodyState(parts: seq<string>, lineIndex: map<nat, int>, offsets: seq<nat>, charOffset: nat)

  const EmptyBody: BodyState := BodyState([], map[], [], 0)

  /** A body fragment after cleaning: newline runs collapsed, and left-stripped while nothing is kept yet. */
  function Cleaned(st: BodyState, t: TextNode): string {
    var c := CollapseNewlines(t.text, "\n");
    if st.parts == [] then LStrip(c) else c
  }

  /** The n attribute of the lb a node follows, when it is present and non-empty. */
  function LineAttr(t: TextNode): (r: Option<string>)
    ensures r.Some? <==> t.parent.tag == Lb && "n" in t.parent.attrs && t.parent.attrs["n"] != []
  {
    if t.parent.tag == Lb && Attr(t.parent, "n").Some? && Attr(t.parent, "n").value != [] then Attr(t.parent, "n") else None
  }

  /** One pass of get_body_text's loop, for a node before the next standard page break. */
  function BodyStep(st: BodyState, t: TextNode): Result<BodyState, TeiError> {
    if !IsBodyText(t) then Ok(st)
    else
      var c := Cleaned(st, t);
      if c == [] then Ok(st)
      else
        var next := st.(parts := st.parts + [c], charOffset := st.charOffset + |c|);
        match LineAttr(t)
        case None => Ok(next)
        case Some(n) =>
          match ParseInt(n)
          case None => Err(InvalidLineNumber(n))
          case Some(line) =>
            if st.charOffset in st.lineIndex then Ok(next)
            else Ok(next.(lineIndex := st.lineIndex[st.charOffset := line], offsets := st.offsets + [st.charOffset]))
  }

  /** The loop run over a sequence of nodes. */
  function BodyScan(nodes: seq<TextNode>): Result<BodyState, TeiError> {
    Scan(nodes, EmptyBody, BodyStep)
  }

  /** A loop that updates a state with each element in turn and stops at the first error. */
  function Scan<S, T, E>(xs: seq<T>, init: S, step: (S, T) -> Result<S, E>): Result<S, E> {
    if xs == [] then Ok(init)
    else
      match Scan(xs[..|xs| - 1], init, step)
      case Err(e) => Err(e)
      case Ok(st) => step(st, xs[|xs| - 1])
  }

  /** The body text of a finished state: the fragments joined, trailing whitespace dropped. */
  function BodyTextOf(st: BodyState): string {
    RStrip(Concat(st.parts))
  }

  /** get_body_text of a page. */
  function PageBodyText(page: Page): Result<string, TeiError> {
    match BodyScan(PageNodes(page))
    case Err(e) => Err(e)
    case Ok(st) => Ok(BodyTextOf(st))
  }

  /** A step keeps the cleaned fragment of a body-text node when it is non-empty, and nothing else. */
  lemma BodyStepParts(st: BodyState, t: TextNode)
    requires BodyStep(st, t).Ok?
    ensures BodyStep(st, t).value.parts == (if IsBodyText(t) && Cleaned(st, t) != [] then st.parts + [Cleaned(st, t)] else st.parts)
  {
  }

  /** The offset at which each kept fragment starts. */
  function Starts(parts: seq<string>): (r: seq<nat>)
    ensures |r| == |parts|
  {
    if parts == [] then [] else Starts(parts[..|parts| - 1]) + [TotalLength(parts[..|parts| - 1])]
  }

  predicate Increasing(xs: seq<nat>) {
    forall i, j :: 0 <= i < j < |xs| ==> xs[i] < xs[j]
  }

  /** Every recorded offset is in the index and every index key is a recorded offset. */
  predicate IndexMatches(index: map<nat, int>, offsets: seq<nat>) {
    (forall k :: 0 <= k < |offsets| ==> offsets[k] in index)
    && (forall o :: o in index ==> o in offsets)
  }

  /** The kept fragments: none empty, the first not starting with whitespace, and charOffset their total length. */
  predicate GoodParts(st: BodyState) {
    st.charOffset == TotalLength(st.parts)
    && (forall k :: 0 <= k < |st.parts| ==> st.parts[k] != [])
    && (st.parts != [] ==> !IsSpace(st.parts[0][0]))
  }

  /** The recorded offsets increase, lie before charOffset and each starts a kept fragment. */
  predicate GoodOffsets(st: BodyState) {
    Increasing(st.offsets)
    && (forall k :: 0 <= k < |st.offsets| ==> st.offsets[k] < st.charOffset)
    && (forall k :: 0 <= k < |st.offsets| ==> st.offsets[k] in Starts(st.parts))
  }

  /** What the loop keeps true of its state. */
  predicate GoodState(st: BodyState) {
    GoodParts(st) && GoodOffsets(st) && IndexMatches(st.lineIndex, st.offsets)
  }

  lemma StartsSnoc(parts: seq<string>, c: string)
    ensures Starts(parts + [c]) == Starts(parts) + [TotalLength(parts)]
  {
    assert (parts + [c])[..|parts|] == parts;
  }

  lemma ConcatSnoc(parts: seq<string>, c: string)
    ensures Concat(parts + [c]) == Concat(parts) + c
  {
    assert (parts + [c])[..|parts|] == parts;
  }

  lemma TotalLengthSnoc(parts: seq<string>, c: string)
    ensures TotalLength(parts + [c]) == TotalLength(parts) + |c|
  {
    assert (parts + [c])[..|parts|] == parts;
  }

  /** The running offset is never yet in the index. */
  lemma FreshOffset(st: BodyState)
    requires GoodState(st)
    ensures st.charOffset !in st.lineIndex
  {
    assert forall k :: 0 <= k < |st.offsets| ==> st.offsets[k] != st.charOffset;
  }

  /** Keeping a non-empty fragment keeps the invariant, and the old offset now starts a fragment. */
  lemma AppendPart(st: BodyState, c: string)
    requires GoodState(st) && c != [] && (st.parts == [] ==> !IsSpace(c[0]))
    ensures var nx := st.(parts := st.parts + [c], charOffset := st.charOffset + |c|);
      GoodState(nx) && st.charOffset < nx.charOffset && st.charOffset in Starts(nx.parts)
  {
    AppendKeepsParts(st, c);
    AppendKeepsOffsets(st, c);
  }

  lemma AppendKeepsParts(st: BodyState, c: string)
    requires GoodParts(st) && c != [] && (st.parts == [] ==> !IsSpace(c[0]))
    ensures GoodParts(st.(parts := st.parts + [c], charOffset := st.charOffset + |c|))
  {
    TotalLengthSnoc(st.parts, c);
  }

  lemma AppendKeepsOffsets(st: BodyState, c: string)
    requires GoodParts(st) && GoodOffsets(st)
    ensures var nx := st.(parts := st.parts + [c], charOffset := st.charOffset + |c|);
      GoodOffsets(nx) && st.charOffset in Starts(nx.parts)
  {
    var starts := Starts(st.parts + [c]);
    StartsSnoc(st.parts, c);
    assert starts[|st.parts|] == st.charOffset;
    forall k | 0 <= k < |st.offsets|
      ensures st.offsets[k] in starts
    {
      var j :| 0 <= j < |Starts(st.parts)| && Starts(st.parts)[j] == st.offsets[k];
      assert starts[j] == st.offsets[k];
    }
  }

  /** Recording a new offset past every recorded one keeps the invariant. */
  lemma RecordOffset(nx: BodyState, o: nat, line: int)
    requires GoodState(nx) && o < nx.charOffset && o in Starts(nx.parts) && o !in nx.lineIndex
    requires forall k :: 0 <= k < |nx.offsets| ==> nx.offsets[k] < o
    ensures GoodState(nx.(lineIndex := nx.lineIndex[o := line], offsets := nx.offsets + [o]))
  {
    var r := nx.(lineIndex := nx.lineIndex[o := line], offsets := nx.offsets + [o]);
    assert GoodOffsets(r);
    forall p | p in r.lineIndex
      ensures p in r.offsets
    {
      if p != o {
        var k :| 0 <= k < |nx.offsets| && nx.offsets[k] == p;
        assert r.offsets[k] == p;
      } else {
        assert r.offsets[|nx.offsets|] == o;
      }
    }
    assert IndexMatches(r.lineIndex, r.offsets);
  }

  /** One step keeps the loop's invariant, and never meets an offset it has already recorded. */
  lemma BodyStepGood(st: BodyState, t: TextNode)
    requires GoodState(st)
    ensures st.charOffset !in st.lineIndex
    ensures BodyStep(st, t).Ok? ==> GoodState(BodyStep(st, t).value)
  {
    FreshOffset(st);
    if IsBodyText(t) && Cleaned(st, t) != [] {
      var c := Cleaned(st, t);
      var nx := st.(parts := st.parts + [c], charOffset := st.charOffset + |c|);
      AppendPart(st, c);
      if LineAttr(t).Some? && ParseInt(LineAttr(t).value).Some? {
        RecordOffset(nx, st.charOffset, ParseInt(LineAttr(t).value).value);
      }
    }
  }

  /** The scan's state satisfies the invariant at every step. */
  lemma {:induction false} BodyScanGood(nodes: seq<TextNode>)
    ensures BodyScan(nodes).Ok? ==> GoodState(BodyScan(nodes).value)
    decreases |nodes|
  {
    if nodes != [] {
      BodyScanGood(nodes[..|nodes| - 1]);
      if BodyScan(nodes[..|nodes| - 1]).Ok? {
        BodyStepGood(BodyScan(nodes[..|nodes| - 1]).value, nodes[|nodes| - 1]);
      }
    }
  }

  /** A kept body fragment, with the n attribute of the lb whose tail it is, if any. */
  datatype Fragment = Fragment(text: string, line: Option<string>)

  /** The fragment list after one more node: its cleaned text is kept when it is body text and not empty. */
  function KeepNext(kept: seq<Fragment>, t: TextNode): (r: seq<Fragment>)
    ensures kept <= r && |r| <= |kept| + 1
  {
    var c := CollapseNewlines(t.text, "\n");
    var cleaned := if kept == [] then LStrip(c) else c;
    if IsBodyText(t) && cleaned != [] then kept + [Fragment(cleaned, LineAttr(t))] else kept
  }

  /** The fragments get_body_text keeps from the nodes, in order, described without any line index. */
  function KeptFragments(nodes: seq<TextNode>): seq<Fragment> {
    if nodes == [] then [] else KeepNext(KeptFragments(nodes[..|nodes| - 1]), nodes[|nodes| - 1])
  }

  function Texts(fs: seq<Fragment>): (r: seq<string>)
    ensures |r| == |fs| && forall j :: 0 <= j < |fs| ==> r[j] == fs[j].text
  {
    seq(|fs|, j requires 0 <= j < |fs| => fs[j].text)
  }

  /**
   * For each fragment that is the tail of a numbered lb, in order: the offset at which the
   * fragment starts (the length of the fragments before it) and that lb's n.
   */
  function LineEntries(fs: seq<Fragment>): seq<(nat, string)> {
    if fs == [] then []
    else
      var init := fs[..|fs| - 1];
      var f := fs[|fs| - 1];
      LineEntries(init) + (if f.line.Some? then [(TotalLength(Texts(init)), f.line.value)] else [])
  }

  /** A fragment whose lb number int() rejects. */
  predicate BadLine(f: Fragment) {
    f.line.Some? && ParseInt(f.line.value).None?
  }

  predicate AllGood(fs: seq<Fragment>) {
    forall j :: 0 <= j < |fs| ==> !BadLine(fs[j])
  }

  /** j is the first fragment whose lb number int() rejects. */
  predicate FirstBad(fs: seq<Fragment>, j: nat) {
    j < |fs| && BadLine(fs[j]) && forall i :: 0 <= i < j ==> !BadLine(fs[i])
  }

  /**
   * The state holds exactly the kept fragments; its k-th offset is the k-th line entry's
   * offset, which the index maps to int() of that entry's n.
   */
  predicate IndexedFrom(st: BodyState, fs: seq<Fragment>) {
    st.parts == Texts(fs) && |st.offsets| == |LineEntries(fs)|
    && forall k :: 0 <= k < |st.offsets| ==>
      st.offsets[k] == LineEntries(fs)[k].0 && st.offsets[k] in st.lineIndex
      && Some(st.lineIndex[st.offsets[k]]) == ParseInt(LineEntries(fs)[k].1)
  }

  lemma LineEntriesSnoc(fs: seq<Fragment>, f: Fragment)
    ensures Texts(fs + [f]) == Texts(fs) + [f.text]
    ensures LineEntries(fs + [f]) == LineEntries(fs) + (if f.line.Some? then [(TotalLength(Texts(fs)), f.line.value)] else [])
  {
    assert (fs + [f])[..|fs|] == fs;
  }

  /** Keeping a fragment that follows no numbered lb leaves the offsets and the index alone. */
  lemma KeepUnnumbered(st: BodyState, fs: seq<Fragment>, f: Fragment)
    requires IndexedFrom(st, fs) && f.line.None?
    ensures IndexedFrom(st.(parts := st.parts + [f.text], charOffset := st.charOffset + |f.text|), fs + [f])
  {
    LineEntriesSnoc(fs, f);
  }

  /** Keeping a fragment that follows lb n records its start, the old running offset, under int(n). */
  lemma KeepNumbered(st: BodyState, fs: seq<Fragment>, f: Fragment, line: int)
    requires GoodState(st) && IndexedFrom(st, fs) && f.line.Some? && ParseInt(f.line.value) == Some(line)
    ensures var nx := st.(parts := st.parts + [f.text], charOffset := st.charOffset + |f.text|);
      IndexedFrom(nx.(lineIndex := st.lineIndex[st.charOffset := line], offsets := st.offsets + [st.charOffset]), fs + [f])
  {
    LineEntriesSnoc(fs, f);
    var e := LineEntries(fs + [f]);
    var offsets := st.offsets + [st.charOffset];
    var index := st.lineIndex[st.charOffset := line];
    assert e == LineEntries(fs) + [(st.charOffset, f.line.value)];
    forall k | 0 <= k < |offsets|
      ensures offsets[k] == e[k].0 && offsets[k] in index && Some(index[offsets[k]]) == ParseInt(e[k].1)
    {
      if k < |st.offsets| {
        assert st.offsets[k] < st.charOffset;
        assert e[k] == LineEntries(fs)[k];
      }
    }
  }

  /** One step of the walk against one step of the fragment list. */
  lemma StepIndexed(st: BodyState, fs: seq<Fragment>, t: TextNode)
    requires GoodState(st) && IndexedFrom(st, fs) && AllGood(fs)
    ensures var next := KeepNext(fs, t);
      (BodyStep(st, t).Ok? <==> AllGood(next))
      && (BodyStep(st, t).Ok? ==> IndexedFrom(BodyStep(st, t).value, next))
      && (BodyStep(st, t).Err? ==> FirstBad(next, |fs|) && BodyStep(st, t).error == InvalidLineNumber(next[|fs|].line.value))
  {
    KeepNextCleaned(st, fs, t);
    if IsBodyText(t) && Cleaned(st, t) != [] {
      StepKeeps(st, fs, t);
    }
  }

  /** The fragment list grows exactly when the walk keeps a fragment, and by that fragment. */
  lemma KeepNextCleaned(st: BodyState, fs: seq<Fragment>, t: TextNode)
    requires st.parts == Texts(fs)
    ensures KeepNext(fs, t) == if IsBodyText(t) && Cleaned(st, t) != [] then fs + [Fragment(Cleaned(st, t), LineAttr(t))] else fs
  {
    assert st.parts == [] <==> fs == [];
  }

  lemma StepKeeps(st: BodyState, fs: seq<Fragment>, t: TextNode)
    requires GoodState(st) && IndexedFrom(st, fs) && AllGood(fs) && IsBodyText(t) && Cleaned(st, t) != []
    ensures var next := fs + [Fragment(Cleaned(st, t), LineAttr(t))];
      (BodyStep(st, t).Ok? <==> AllGood(next))
      && (BodyStep(st, t).Ok? ==> IndexedFrom(BodyStep(st, t).value, next))
      && (BodyStep(st, t).Err? ==> FirstBad(next, |fs|) && BodyStep(st, t).error == InvalidLineNumber(next[|fs|].line.value))
  {
    FreshOffset(st);
    var f := Fragment(Cleaned(st, t), LineAttr(t));
    if LineAttr(t).None? {
      KeepUnnumbered(st, fs, f);
    } else if ParseInt(LineAttr(t).value).Some? {
      KeepNumbered(st, fs, f, ParseInt(LineAttr(t).value).value);
    }
  }

  lemma BodyScanSnoc(nodes: seq<TextNode>)
    requires nodes != []
    ensures var init := BodyScan(nodes[..|nodes| - 1]);
      BodyScan(nodes) == if init.Err? then Err(init.error) else BodyStep(init.value, nodes[|nodes| - 1])
  {
  }

  /**
   * A walk's outcome against the fragment list: it fails exactly when some fragment's lb number
   * is rejected, with the first such n, and otherwise holds the index the fragments call for.
   */
  predicate ScanMatches(r: Result<BodyState, TeiError>, fs: seq<Fragment>) {
    && (r.Ok? <==> AllGood(fs))
    && (r.Ok? ==> IndexedFrom(r.value, fs))
    && (r.Err? ==> exists j: nat :: j < |fs| && FirstBad(fs, j) && r.error == InvalidLineNumber(fs[j].line.value))
  }

  /**
   * get_body_text's line index: the walk fails exactly when some kept fragment follows an lb
   * whose n int() rejects, with the first such n. Otherwise its offsets are the starts of the
   * fragments that follow a numbered lb, in order, and the index maps each to int() of that n.
   */
  lemma {:induction false} BodyLineIndex(nodes: seq<TextNode>)
    ensures var fs := KeptFragments(nodes);
      && (BodyScan(nodes).Ok? <==> AllGood(fs))
      && (BodyScan(nodes).Ok? ==> IndexedFrom(BodyScan(nodes).value, fs))
      && (BodyScan(nodes).Err? ==>
        exists j: nat :: FirstBad(fs, j) && BodyScan(nodes).error == InvalidLineNumber(fs[j].line.value))
  {
    BodyScanMatches(nodes);
  }

  lemma {:induction false} BodyScanMatches(nodes: seq<TextNode>)
    ensures ScanMatches(BodyScan(nodes), KeptFragments(nodes))
    decreases |nodes|
  {
    if nodes != [] {
      BodyScanMatches(nodes[..|nodes| - 1]);
      BodyLineStep(nodes);
    }
  }

  /** The walk over one more node matches the fragment list over one more node. */
  lemma BodyLineStep(nodes: seq<TextNode>)
    requires nodes != [] && ScanMatches(BodyScan(nodes[..|nodes| - 1]), KeptFragments(nodes[..|nodes| - 1]))
    ensures ScanMatches(BodyScan(nodes), KeptFragments(nodes))
  {
    BodyScanSnoc(nodes);
    if BodyScan(nodes[..|nodes| - 1]).Ok? {
      BodyStepIndexed(nodes);
    } else {
      BodyErrKept(nodes, KeptFragments(nodes[..|nodes| - 1]));
    }
  }

  lemma BodyStepIndexed(nodes: seq<TextNode>)
    requires nodes != [] && var init := nodes[..|nodes| - 1];
      BodyScan(init).Ok? && AllGood(KeptFragments(init)) && IndexedFrom(BodyScan(init).value, KeptFragments(init))
    ensures var init := nodes[..|nodes| - 1];
      var fs := KeptFragments(nodes);
      var r := BodyStep(BodyScan(init).value, nodes[|nodes| - 1]);
      && (r.Ok? <==> AllGood(fs))
      && (r.Ok? ==> IndexedFrom(r.value, fs))
      && (r.Err? ==> FirstBad(fs, |KeptFragments(init)|) && r.error == InvalidLineNumber(fs[|KeptFragments(init)|].line.value))
  {
    var init := nodes[..|nodes| - 1];
    BodyScanGood(init);
    StepIndexed(BodyScan(init).value, KeptFragments(init), nodes[|nodes| - 1]);
  }

  lemma BodyErrKept(nodes: seq<TextNode>, fs0: seq<Fragment>)
    requires nodes != [] && fs0 == KeptFragments(nodes[..|nodes| - 1]) && exists j: nat :: FirstBad(fs0, j)
    ensures var fs := KeptFragments(nodes);
      !AllGood(fs) && forall j: nat :: FirstBad(fs0, j) ==> FirstBad(fs, j) && fs[j] == fs0[j]
  {
    KeptGrows(nodes);
    FirstBadPrefix(fs0, KeptFragments(nodes));
  }

  lemma KeptGrows(nodes: seq<TextNode>)
    requires nodes != []
    ensures KeptFragments(nodes[..|nodes| - 1]) <= KeptFragments(nodes)
  {
  }

  /** The first rejected fragment of a list is still the first in any extension of it. */
  lemma FirstBadPrefix(fs0: seq<Fragment>, fs: seq<Fragment>)
    requires fs0 <= fs
    ensures forall j: nat :: FirstBad(fs0, j) ==> FirstBad(fs, j) && fs[j] == fs0[j]
    ensures (exists j: nat :: FirstBad(fs0, j)) ==> !AllGood(fs)
  {
    forall j: nat | FirstBad(fs0, j)
      ensures FirstBad(fs, j) && fs[j] == fs0[j] && !AllGood(fs)
    {
      assert forall i :: 0 <= i <= j ==> fs[i] == fs0[i];
    }
  }

  /** Once the scan of a prefix fails, the scan of the whole fails with the same error. */
  lemma {:induction false} ScanPrefixErr<S, T, E>(xs: seq<T>, init: S, step: (S, T) -> Result<S, E>, i: nat)
    requires i <= |xs| && Scan(xs[..i], init, step).Err?
    ensures Scan(xs, init, step) == Scan(xs[..i], init, step)
    decreases |xs| - i
  {
    if i < |xs| {
      assert xs[..i + 1][..i] == xs[..i];
      ScanPrefixErr(xs, init, step, i + 1);
    } else {
      assert xs[..i] == xs;
    }
  }

  /** One more element: the scan of the longer prefix is the step from the shorter one's state. */
  lemma ScanNext<S, T, E>(xs: seq<T>, init: S, step: (S, T) -> Result<S, E>, i: nat, st: S)
    requires i < |xs| && Scan(xs[..i], init, step) == Ok(st)
    ensures Scan(xs[..i + 1], init, step) == step(st, xs[i])
  {
    assert xs[..i + 1][..i] == xs[..i];
  }

  lemma BodyScanNext(nodes: seq<TextNode>, i: nat, st: BodyState)
    requires i < |nodes| && BodyScan(nodes[..i]) == Ok(st)
    ensures BodyScan(nodes[..i + 1]) == BodyStep(st, nodes[i])
  {
    ScanNext(nodes, EmptyBody, BodyStep, i, st);
  }

  /** A step that fails on a node ends the page's body text with that error. */
  lemma PageBodyTextStop(page: Page, i: nat, st: BodyState)
    requires i < |PageNodes(page)| && BodyScan(PageNodes(page)[..i]) == Ok(st)
    requires BodyStep(st, PageNodes(page)[i]).Err?
    ensures BodyScan(PageNodes(page)).Err?
    ensures PageBodyText(page) == Err(BodyStep(st, PageNodes(page)[i]).error)
  {
    BodyScanNext(PageNodes(page), i, st);
    ScanPrefixErr(PageNodes(page), EmptyBody, BodyStep, i + 1);
  }

  lemma PageBodyTextDone(page: Page, st: BodyState)
    requires BodyScan(PageNodes(page)) == Ok(st)
    ensures PageBodyText(page) == Ok(BodyTextOf(st))
  {
  }

  lemma ConcatFirst(parts: seq<string>)
    requires parts != [] && parts[0] != []
    ensures Concat(parts) != [] && Concat(parts)[0] == parts[0][0]
    decreases |parts|
  {
    if |parts| > 1 {
      ConcatFirst(parts[..|parts| - 1]);
    }
  }

  /**
   * The body text has no whitespace at either end: the first kept fragment was left-stripped
   * and the joined text is right-stripped.
   */
  lemma BodyTextTrimmed(page: Page)
    requires PageBodyText(page).Ok?
    ensures var b := PageBodyText(page).value;
      b != [] ==> !IsSpace(b[0]) && !IsSpace(b[|b| - 1])
  {
    var st := BodyScan(PageNodes(page)).value;
    BodyScanGood(PageNodes(page));
    if st.parts != [] {
      ConcatFirst(st.parts);
    }
  }

  /** The kept fragments hold exactly the non-whitespace text of the page's body-text nodes. */
  lemma {:induction false} BodyScanKeepsText(nodes: seq<TextNode>)
    requires BodyScan(nodes).Ok?
    ensures NonSpace(Concat(BodyScan(nodes).value.parts)) == NonSpaces(BodyFragments(nodes))
    decreases |nodes|
  {
    if nodes != [] {
      var init := nodes[..|nodes| - 1];
      var t := nodes[|nodes| - 1];
      BodyScanKeepsText(init);
      var st := BodyScan(init).value;
      BodyStepParts(st, t);
      if IsBodyText(t) {
        NonSpacesSnoc(BodyFragments(init), t.text);
        var c0 := CollapseNewlines(t.text, "\n");
        CollapseKeepsText(t.text, "\n");
        NonSpaceLStrip(c0);
        var c := Cleaned(st, t);
        assert NonSpace(c) == NonSpace(t.text);
        if c != [] {
          ConcatSnoc(st.parts, c);
          NonSpaceAppend(Concat(st.parts), c);
        }
      } else {
        assert BodyFragments(nodes) == BodyFragments(init) + [];
        assert BodyFragments(nodes) == BodyFragments(init);
      }
    }
  }

  /** get_body_text keeps, in order, every non-whitespace character of the page's body-text nodes. */
  lemma BodyTextKeepsText(page: Page)
    requires PageBodyText(page).Ok?
    ensures NonSpace(PageBodyText(page).value) == NonSpaces(BodyFragments(PageNodes(page)))
  {
    BodyScanKeepsText(PageNodes(page));
    NonSpaceRStrip(Concat(BodyScan(PageNodes(page)).value.parts));
  }

  // ---------------------------------------------------------------------------
  // Line lookup

  /** Index of the first offset from i on that lies past pos, or |offsets|. */
  function FirstPast(offsets: seq<nat>, pos: nat, i: nat): (k: nat)
    requires i <= |offsets|
    ensures i <= k <= |offsets|
    ensures forall j :: i <= j < k ==> offsets[j] <= pos
    ensures k < |offsets| ==> offsets[k] > pos
    decreases |offsets| - i
  {
    if i == |offsets| || offsets[i] > pos then i else FirstPast(offsets, pos, i + 1)
  }

  /**
   * The line get_body_text_line_number returns for a clamped position: 1 without offsets,
   * else the line of the last offset not past pos, or of the first offset when all are past it.
   */
  function LineAt(index: map<nat, int>, offsets: seq<nat>, pos: nat): int
    requires forall k :: 0 <= k < |offsets| ==> offsets[k] in index
  {
    if offsets == [] then 1
    else
      var n := FirstPast(offsets, pos, 0);
      index[offsets[if n == 0 then 0 else n - 1]]
  }

  /** The lookup loop: start from the first offset's line, take each offset's line until one lies past pos. */
  method LineNumberAt(index: map<nat, int>, offsets: seq<nat>, pos: nat) returns (line: int)
    requires forall k :: 0 <= k < |offsets| ==> offsets[k] in index
    ensures line == LineAt(index, offsets, pos)
  {
    if offsets == [] {
      return 1;
    }
    line := index[offsets[0]];
    var i := 0;
    while i < |offsets|
      invariant 0 <= i <= FirstPast(offsets, pos, 0)
      invariant line == index[offsets[if i == 0 then 0 else i - 1]]
    {
      var offset := offsets[i];
      if offset > pos {
        break;
      }
      line := index[offset];
      i := i + 1;
    }
  }

  /**
   * With increasing offsets, the line found is that of the greatest offset at or before pos,
   * or that of the first offset when every offset lies past pos.
   */
  lemma LineAtGreatest(index: map<nat, int>, offsets: seq<nat>, pos: nat)
    requires offsets != [] && Increasing(offsets)
    requires forall k :: 0 <= k < |offsets| ==> offsets[k] in index
    ensures pos < offsets[0] ==> LineAt(index, offsets, pos) == index[offsets[0]]
    ensures offsets[0] <= pos ==>
      exists k :: 0 <= k < |offsets| && offsets[k] <= pos
        && (forall j :: k < j < |offsets| ==> offsets[j] > pos)
        && LineAt(index, offsets, pos) == index[offsets[k]]
  {
    var n := FirstPast(offsets, pos, 0);
    if offsets[0] <= pos {
      var k := n - 1;
      forall j | k < j < |offsets|
        ensures offsets[j] > pos
      {
        if j > n {
          assert offsets[n] < offsets[j];
        }
      }
      assert LineAt(index, offsets, pos) == index[offsets[k]];
    }
  }

  /** The line number of a body-text position on a page, as the page's own line index gives it. */
  function BodyLineAt(page: Page, pos: nat): Result<int, TeiError> {
    match BodyScan(PageNodes(page))
    case Err(e) => Err(e)
    case Ok(st) =>
      BodyScanGood(PageNodes(page));
      Ok(LineAt(st.lineIndex, st.offsets, pos))
  }

  /**
   * The line a body-text position gets, in terms of the kept fragments: 1 when no fragment
   * follows a numbered lb; otherwise int() of the n of the last such fragment that starts at or
   * before the position, or of the first one when all start after it.
   */
  lemma BodyLineOfFragments(page: Page, pos: nat)
    requires BodyLineAt(page, pos).Ok?
    ensures var e := LineEntries(KeptFragments(PageNodes(page)));
      var line := BodyLineAt(page, pos).value;
      && (e == [] ==> line == 1)
      && (e != [] && pos < e[0].0 ==> Some(line) == ParseInt(e[0].1))
      && (e != [] && e[0].0 <= pos ==>
        exists k :: 0 <= k < |e| && e[k].0 <= pos && (forall i :: k < i < |e| ==> e[i].0 > pos)
          && Some(line) == ParseInt(e[k].1))
  {
    var nodes := PageNodes(page);
    var st := BodyScan(nodes).value;
    BodyLineIndex(nodes);
    BodyScanGood(nodes);
    assert BodyLineAt(page, pos).value == LineAt(st.lineIndex, st.offsets, pos);
    LineAtEntries(st.lineIndex, st.offsets, LineEntries(KeptFragments(nodes)), pos);
  }

  lemma LineAtEntries(index: map<nat, int>, offsets: seq<nat>, e: seq<(nat, string)>, pos: nat)
    requires Increasing(offsets) && |offsets| == |e|
    requires forall k :: 0 <= k < |offsets| ==> offsets[k] == e[k].0
    requires forall k :: 0 <= k < |offsets| ==> offsets[k] in index && Some(index[offsets[k]]) == ParseInt(e[k].1)
    ensures var line := LineAt(index, offsets, pos);
      && (e == [] ==> line == 1)
      && (e != [] && pos < e[0].0 ==> Some(line) == ParseInt(e[0].1))
      && (e != [] && e[0].0 <= pos ==>
        exists k :: 0 <= k < |e| && e[k].0 <= pos && (forall i :: k < i < |e| ==> e[i].0 > pos)
          && Some(line) == ParseInt(e[k].1))
  {
    if e != [] {
      assert offsets[0] == e[0].0 && Some(index[offsets[0]]) == ParseInt(e[0].1);
      if e[0].0 <= pos {
        var k := LineAtLast(index, offsets, pos);
        assert e[k].0 <= pos && Some(index[offsets[k]]) == ParseInt(e[k].1);
        assert forall i :: k < i < |e| ==> e[i].0 == offsets[i];
      }
    }
  }

  /** When the first offset is at or before pos, the lookup takes the last offset at or before it. */
  lemma LineAtLast(index: map<nat, int>, offsets: seq<nat>, pos: nat) returns (k: nat)
    requires Increasing(offsets) && offsets != [] && offsets[0] <= pos
    requires forall j :: 0 <= j < |offsets| ==> offsets[j] in index
    ensures k < |offsets| && offsets[k] <= pos && LineAt(index, offsets, pos) == index[offsets[k]]
    ensures forall i :: k < i < |offsets| ==> offsets[i] > pos
  {
    var n := FirstPast(offsets, pos, 0);
    k := n - 1;
    forall i | k < i < |offsets|
      ensures offsets[i] > pos
    {
      assert offsets[n] <= offsets[i];
    }
  }

  /** A page's number as the chunk carries it: the n attribute, or None. */
  function PageNumberValue(page: Page): (v: Value)
    ensures v.Null? <==> page.Number().None?
    ensures v.Str? ==> v.s == page.Number().value
  {
    match page.Number()
    case None => Null
    case Some(n) => Str(n)
  }

  // ---------------------------------------------------------------------------
  // Pages as objects

  /** A page together with the line indexes its get_body_text and get_individual_footnotes leave behind. */
  class TEIPage {
    const page: Page
    var hasLineIndex: bool
    var lineIndexByOffset: map<nat, int>
    var sortedLineOffsets: seq<nat>
    /** Footnote line numbers, keyed by the footnote's position on the page (the text's identity). */
    var footnoteLineNumbers: map<nat, int>

    /** A stored line index is the one get_body_text builds for this page. */
    predicate IndexValid()
      reads this`hasLineIndex, this`lineIndexByOffset, this`sortedLineOffsets
    {
      hasLineIndex ==>
        BodyScan(PageNodes(page)).Ok?
        && lineIndexByOffset == BodyScan(PageNodes(page)).value.lineIndex
        && sortedLineOffsets == BodyScan(PageNodes(page)).value.offsets
    }

    /** Every stored footnote line number is the first line number of the footnote at that position. */
    predicate FootnotesValid()
      reads this`footnoteLineNumbers
    {
      GoodFootnoteMap(page, footnoteLineNumbers)
    }

    predicate Valid()
      reads this
    {
      IndexValid() && FootnotesValid()
    }

    constructor (page: Page)
      ensures this.page == page && !hasLineIndex && footnoteLineNumbers == map[]
      ensures Valid()
    {
      this.page := page;
      hasLineIndex := false;
      lineIndexByOffset := map[];
      sortedLineOffsets := [];
      footnoteLineNumbers := map[];
    }

    /**
     * get_body_text: walk the page's nodes, keep the cleaned body fragments and record the
     * offset of each numbered line break; store the index only when the walk succeeds.
     */
    method GetBodyText() returns (r: Result<string, TeiError>)
      requires IndexValid()
      modifies this`hasLineIndex, this`lineIndexByOffset, this`sortedLineOffsets
      ensures IndexValid()
      ensures r == PageBodyText(page)
      ensures r.Ok? ==> hasLineIndex
      ensures r.Err? ==>
        hasLineIndex == old(hasLineIndex)
        && lineIndexByOffset == old(lineIndexByOffset) && sortedLineOffsets == old(sortedLineOffsets)
    {
      var nodes := PageNodes(page);
      var st := EmptyBody;
      var i := 0;
      while i < |nodes|
        invariant 0 <= i <= |nodes|
        invariant BodyScan(nodes[..i]) == Ok(st)
        modifies {}
      {
        var step := BodyStep(st, nodes[i]);
        BodyScanNext(nodes, i, st);
        if step.Err? {
          PageBodyTextStop(page, i, st);
          return Err(step.error);
        }
        st := step.value;
        i := i + 1;
      }
      assert nodes[..i] == nodes;
      PageBodyTextDone(page, st);
      lineIndexByOffset := st.lineIndex;
      sortedLineOffsets := st.offsets;
      hasLineIndex := true;
      r := Ok(BodyTextOf(st));
    }

    /**
     * get_body_text_line_number: clamp a negative position to 0, build the index if it is
     * missing, then look the position up.
     */
    method GetBodyTextLineNumber(charPos: int) returns (r: Result<int, TeiError>)
      requires IndexValid()
      modifies this`hasLineIndex, this`lineIndexByOffset, this`sortedLineOffsets
      ensures IndexValid()
      ensures old(hasLineIndex) ==> lineIndexByOffset == old(lineIndexByOffset) && sortedLineOffsets == old(sortedLineOffsets)
      ensures r == BodyLineAt(page, if charPos < 0 then 0 else charPos)
      ensures r.Ok? ==> hasLineIndex
    {
      var pos: nat := if charPos < 0 then 0 else charPos;
      if !hasLineIndex {
        var body := GetBodyText();
        if body.Err? {
          return Err(body.error);
        }
      }
      BodyScanGood(PageNodes(page));
      var line := LineNumberAt(lineIndexByOffset, sortedLineOffsets, pos);
      r := Ok(line);
    }

    /**
     * get_individual_footnotes, run to the end: reset the footnote map, then record each
     * footnote's line number under its position and produce its text. A footnote whose line
     * number cannot be read ends the run with that error, keeping the entries made before it.
     */
    method GetIndividualFootnotes() returns (r: Result<seq<string>, TeiError>)
      modifies this`footnoteLineNumbers
      ensures FootnotesValid()
      ensures r == PageFootnoteTexts(page)
      ensures RecordsFirst(footnoteLineNumbers, PageFootnotes(page), FirstBadFootnote(PageFootnotes(page), 0))
    {
      footnoteLineNumbers := map[];
      var footnotes := GetPageFootnotes(page);
      var texts: seq<string> := [];
      var i := 0;
      while i < |footnotes|
        invariant 0 <= i <= |footnotes|
        invariant texts == FootnoteTexts(footnotes[..i])
        invariant RecordsFirst(footnoteLineNumbers, footnotes, i)
      {
        var text := FootnoteText(footnotes[i]);
        var line := FootnoteLine(footnotes[i]);
        if line.Err? {
          FootnotesStop(page, footnoteLineNumbers, i);
          return Err(line.error);
        }
        RecordsNext(footnoteLineNumbers, footnotes, i);
        FootnoteTextsSnoc(footnotes, i);
        footnoteLineNumbers := footnoteLineNumbers[i := line.value];
        texts := texts + [text];
        i := i + 1;
      }
      FootnotesDone(page, footnoteLineNumbers, texts);
      r := Ok(texts);
    }

    /** get_footnote_line_number: the recorded line number, or 1 when there is none. */
    function FootnoteLineNumber(id: nat): (line: int)
      reads this`footnoteLineNumbers
      requires FootnotesValid()
      ensures id in footnoteLineNumbers ==> line == FootnoteLine(PageFootnotes(page)[id]).value
      ensures id !in footnoteLineNumbers ==> line == 1
    {
      if id in footnoteLineNumbers then footnoteLineNumbers[id] else 1
    }

    /**
     * The chunks get_text yields for this page: the body chunk when the body text is
     * non-empty, then one chunk per footnote text.
     */
    method Chunks() returns (r: Result<seq<Record>, TeiError>)
      requires Valid()
      modifies this`hasLineIndex, this`lineIndexByOffset, this`sortedLineOffsets, this`footnoteLineNumbers
      ensures Valid()
      ensures r == PageChunks(page)
    {
      var body := GetBodyText();
      if body.Err? {
        PageChunksCases(page);
        return Err(body.error);
      }
      var notes := GetIndividualFootnotes();
      if notes.Err? {
        PageChunksCases(page);
        return Err(notes.error);
      }
      var chunks: seq<Record> := [];
      if body.value != [] {
        chunks := [BodyChunk(page, body.value)];
      }
      chunks := chunks + FootnoteChunks(page, notes.value);
      PageChunksCases(page);
      r := Ok(chunks);
    }
  }

  /** The chunk of a page's body text. */
  function BodyChunk(page: Page, body: string): Record {
    map["text" := Str(body), "page_number" := PageNumberValue(page), "section_type" := Str(TextSection.Name())]
  }

  /** The chunk of one footnote. */
  function FootnoteChunk(page: Page, text: string): Record {
    map["text" := Str(text), "page_number" := PageNumberValue(page), "section_type" := Str(FootnoteSection.Name())]
  }

  function FootnoteChunks(page: Page, texts: seq<string>): (cs: seq<Record>)
    ensures |cs| == |texts| && forall k :: 0 <= k < |texts| ==> cs[k] == FootnoteChunk(page, texts[k])
  {
    seq(|texts|, k requires 0 <= k < |texts| => FootnoteChunk(page, texts[k]))
  }

  /** What get_text yields for one page: its body text when non-empty, then one chunk per footnote. */
  function PageChunks(page: Page): Result<seq<Record>, TeiError> {
    match PageBodyText(page)
    case Err(e) => Err(e)
    case Ok(body) =>
      match PageFootnoteTexts(page)
      case Err(e) => Err(e)
      case Ok(texts) => Ok(ChunksOf(page, body, texts))
  }

  /** The chunks of a page with the given body text and footnote texts. */
  function ChunksOf(page: Page, body: string, texts: seq<string>): seq<Record> {
    (if body != [] then [BodyChunk(page, body)] else []) + FootnoteChunks(page, texts)
  }

  /**
   * The body chunk comes first exactly when the body text is non-empty, then one chunk per
   * footnote text in order; every chunk carries the page's number and its section type.
   */
  lemma ChunksOfShape(page: Page, body: string, texts: seq<string>)
    ensures var cs := ChunksOf(page, body, texts);
      var b := if body != [] then 1 else 0;
      |cs| == b + |texts|
      && (forall k :: 0 <= k < |cs| ==> cs[k]["page_number"] == PageNumberValue(page))
      && (b == 1 ==> cs[0] == BodyChunk(page, body))
      && (forall k :: 0 <= k < |texts| ==> cs[b + k] == FootnoteChunk(page, texts[k]))
  {
  }

  /** The chunks of each element in turn, concatenated, or the first error. */
  function Chunked<T, E>(xs: seq<T>, chunks: T -> Result<seq<Record>, E>): Result<seq<Record>, E> {
    if xs == [] then Ok([])
    else
      match Chunked(xs[..|xs| - 1], chunks)
      case Err(e) => Err(e)
      case Ok(cs) =>
        match chunks(xs[|xs| - 1])
        case Err(e) => Err(e)
        case Ok(more) => Ok(cs + more)
  }

  /** Once a prefix fails, the whole fails with the same error. */
  lemma {:induction false} ChunkedPrefixErr<T, E>(xs: seq<T>, chunks: T -> Result<seq<Record>, E>, i: nat)
    requires i <= |xs| && Chunked(xs[..i], chunks).Err?
    ensures Chunked(xs, chunks) == Chunked(xs[..i], chunks)
    decreases |xs| - i
  {
    if i < |xs| {
      assert xs[..i + 1][..i] == xs[..i];
      ChunkedPrefixErr(xs, chunks, i + 1);
    } else {
      assert xs[..i] == xs;
    }
  }

  /** What get_text yields for a sequence of pages, or the first error. */
  function DocChunks(pages: seq<Page>): Result<seq<Record>, TeiError> {
    Chunked(pages, PageChunks)
  }

  /**
   * A page whose body text and footnotes are both read has the chunks ChunksOf describes;
   * otherwise it fails with the first error, the body's before the footnotes'.
   */
  lemma PageChunksCases(page: Page)
    ensures PageBodyText(page).Ok? && PageFootnoteTexts(page).Ok?
      ==> PageChunks(page) == Ok(ChunksOf(page, PageBodyText(page).value, PageFootnoteTexts(page).value))
    ensures PageBodyText(page).Err? ==> PageChunks(page) == Err(PageBodyText(page).error)
    ensures PageBodyText(page).Ok? && PageFootnoteTexts(page).Err? ==> PageChunks(page) == Err(PageFootnoteTexts(page).error)
  {
  }

  lemma ChunkedNext<T, E>(xs: seq<T>, chunks: T -> Result<seq<Record>, E>, i: nat, acc: seq<Record>)
    requires i < |xs| && Chunked(xs[..i], chunks) == Ok(acc) && chunks(xs[i]).Ok?
    ensures Chunked(xs[..i + 1], chunks) == Ok(acc + chunks(xs[i]).value)
  {
    assert xs[..i + 1][..i] == xs[..i];
  }

  lemma ChunkedStop<T, E>(xs: seq<T>, chunks: T -> Result<seq<Record>, E>, i: nat, acc: seq<Record>)
    requires i < |xs| && Chunked(xs[..i], chunks) == Ok(acc) && chunks(xs[i]).Err?
    ensures Chunked(xs, chunks) == Err(chunks(xs[i]).error)
  {
    assert xs[..i + 1][..i] == xs[..i];
    ChunkedPrefixErr(xs, chunks, i + 1);
  }

  /** The first page whose number equals the chunk's page_number, as `next(...)` finds it. */
  function FindPage(pages: seq<Page>, number: Value): (r: Option<nat>)
    ensures r.None? ==> forall k :: 0 <= k < |pages| ==> PageNumberValue(pages[k]) != number
    ensures r.Some? ==>
      r.value < |pages| && PageNumberValue(pages[r.value]) == number
      && forall k :: 0 <= k < r.value ==> PageNumberValue(pages[k]) != number
  {
    if pages == [] then None
    else if PageNumberValue(pages[0]) == number then Some(0)
    else
      match FindPage(pages[1..], number)
      case None => None
      case Some(k) => Some(k + 1)
  }

  /** The record get_extra_metadata returns. */
  function LineRecord(line: int): Record {
    map["line_number" := Num(line)]
  }

  /** The page values of a list of page objects. */
  function PagesOf(pages: seq<TEIPage>): (ps: seq<Page>)
    ensures |ps| == |pages| && forall k :: 0 <= k < |pages| ==> ps[k] == pages[k].page
  {
    seq(|pages|, k requires 0 <= k < |pages| => pages[k].page)
  }

  /** A TEI input file: every page of the document, and an object for each standard page. */
  class TEIinput {
    const inputFile: string
    const allPages: seq<Page>
    const pages: seq<TEIPage>

    /** The page objects are the standard pages in order, each with a valid stored state. */
    predicate Valid()
      reads this, pages
    {
      PagesOf(pages) == StandardPages(allPages)
      && forall k :: 0 <= k < |pages| ==> pages[k].Valid()
    }

    /** Parse the file (given here as its pages) and make an object for each standard page. */
    constructor (inputFile: string, allPages: seq<Page>)
      ensures this.inputFile == inputFile && this.allPages == allPages
      ensures Valid()
      ensures forall k :: 0 <= k < |pages| ==> fresh(pages[k]) && !pages[k].hasLineIndex
    {
      var std := StandardPages(allPages);
      var objs: seq<TEIPage> := [];
      for i := 0 to |std|
        invariant |objs| == i
        invariant forall k :: 0 <= k < i ==> fresh(objs[k]) && objs[k].page == std[k]
        invariant forall k :: 0 <= k < i ==> !objs[k].hasLineIndex && objs[k].footnoteLineNumbers == map[]
      {
        var p := new TEIPage(std[i]);
        objs := objs + [p];
      }
      assert PagesOf(objs) == std;
      forall k | 0 <= k < |objs|
        ensures objs[k].Valid()
      {
        assert objs[k].footnoteLineNumbers == map[];
      }
      this.inputFile := inputFile;
      this.allPages := allPages;
      this.pages := objs;
    }

    /**
     * get_text: for each standard page, the body-text chunk when the body is non-empty, then a
     * chunk per footnote. Building the chunks stores each page's line indexes.
     */
    method GetText() returns (r: Result<seq<Record>, TeiError>)
      requires Valid()
      modifies pages
      ensures Valid()
      ensures r == DocChunks(StandardPages(allPages))
    {
      var ps := PagesOf(pages);
      var chunks: seq<Record> := [];
      var i := 0;
      while i < |pages|
        invariant 0 <= i <= |pages|
        invariant Valid()
        invariant Chunked(ps[..i], PageChunks) == Ok(chunks)
      {
        var page := pages[i];
        label Step:
        var pageChunks := page.Chunks();
        forall k | 0 <= k < |pages|
          ensures pages[k].Valid()
        {
          if pages[k] != page {
            assert old@Step(pages[k].Valid());
            assert unchanged@Step(pages[k]);
          }
        }
        if pageChunks.Err? {
          ChunkedStop(ps, PageChunks, i, chunks);
          return Err(pageChunks.error);
        }
        ChunkedNext(ps, PageChunks, i, chunks);
        chunks := chunks + pageChunks.value;
        i := i + 1;
      }
      assert ps[..i] == ps;
      r := Ok(chunks);
    }

    /**
     * get_extra_metadata: find the first page whose number is the chunk's page_number (line 1
     * when there is none); a footnote chunk takes its footnote's recorded line, any other chunk
     * the line of its character index in the page's body text.
     */
    method GetExtraMetadata(chunk: Record, charIdx: int, footnoteId: Option<nat>) returns (r: Result<Record, TeiError>)
      requires Valid()
      requires "page_number" in chunk && "section_type" in chunk
      modifies pages
      ensures Valid()
      ensures var k := FindPage(StandardPages(allPages), chunk["page_number"]);
        if k.None? then r == Ok(LineRecord(1))
        else if chunk["section_type"] == Str(FootnoteSection.Name()) then
          r == Ok(LineRecord(if footnoteId.Some? then pages[k.value].FootnoteLineNumber(footnoteId.value) else 1))
        else
          (r.Ok? <==> BodyLineAt(pages[k.value].page, if charIdx < 0 then 0 else charIdx).Ok?)
          && (r.Ok? ==> r.value == LineRecord(BodyLineAt(pages[k.value].page, if charIdx < 0 then 0 else charIdx).value))
    {
      var k := FindPage(PagesOf(pages), chunk["page_number"]);
      if k.None? {
        return Ok(LineRecord(1));
      }
      var page := pages[k.value];
      if chunk["section_type"] == Str(FootnoteSection.Name()) {
        var line := if footnoteId.Some? then page.FootnoteLineNumber(footnoteId.value) else 1;
        return Ok(LineRecord(line));
      }
      var line := page.GetBodyTextLineNumber(charIdx);
      if line.Err? {
        return Err(line.error);
      }
      r := Ok(LineRecord(line.value));
    }
  }
}
