/**
 * The page-range extraction script: find the pb elements named by the start and end page
 * numbers, take their nearest common ancestor, and walk its text nodes, yielding text from
 * the tail of the start pb up to (not including) the end pb.
 */
module TeiPageScript {
  import opened Wrappers
  import opened Text
  import opened TeiXml
  import Seqs

  /** The tail of a pb without an ed attribute whose n is the given page number. */
  predicate AtBreak(t: TextNode, n: string) {
    t.isTail && t.parent.tag == Pb && Attr(t.parent, "ed").None? && Attr(t.parent, "n") == Some(n)
  }

  /** The tail of an lb or a note: a newline is yielded before it once output has started. */
  predicate NewlineBefore(t: TextNode) {
    t.isTail && (t.parent.tag == Lb || t.parent.tag == Note)
  }

  /**
   * Editorial text the walk skips: text inside add or label[type=mpb], or a tail after one
   * that matches ^\s+$ (non-empty and all whitespace).
   */
  predicate SkippedEditorial(t: TextNode) {
    IsEditorialElement(t.parent) && (t.isText || (t.isTail && t.text != [] && AllSpace(t.text)))
  }

  /**
   * What text_between_pages yields for one text node: a newline before an lb or note tail once
   * started, then the node's text with newline runs collapsed to a space, unless the node is the
   * end pb (the loop breaks), output has not started, or the node is skipped editorial text.
   */
  function Yielded(t: TextNode, started: bool, start: string, end: string): seq<string> {
    var now := started || AtBreak(t, start);
    (if started && NewlineBefore(t) then ["\n"] else [])
    + (if !AtBreak(t, end) && now && !SkippedEditorial(t) then [CollapseNewlines(t.text, " ")] else [])
  }

  /** What text_between_pages yields from the remaining nodes, given whether output has started. */
  function Between(nodes: seq<TextNode>, started: bool, start: string, end: string): seq<string>
    decreases |nodes|
  {
    if nodes == [] then []
    else
      var t := nodes[0];
      var now := started || AtBreak(t, start);
      Yielded(t, started, start, end) + (if AtBreak(t, end) then [] else Between(nodes[1..], now, start, end))
  }

  /** The body of text_between_pages' loop for one text node: what it yields, the new flag, and whether it breaks. */
  method VisitText(t: TextNode, started: bool, start: string, end: string)
    returns (emitted: seq<string>, now: bool, stop: bool)
    ensures emitted == Yielded(t, started, start, end)
    ensures now == (started || AtBreak(t, start)) && stop == AtBreak(t, end)
  {
    emitted := [];
    now := started;
    stop := false;
    if now && t.isTail && (t.parent.tag == Lb || t.parent.tag == Note) {
      emitted := emitted + ["\n"];
    }
    if t.isTail && t.parent.tag == Pb && Attr(t.parent, "ed").None? {
      if Attr(t.parent, "n") == Some(start) {
        now := true;
      }
      if Attr(t.parent, "n") == Some(end) {
        stop := true;
        return;
      }
    }
    if now && (t.parent.tag == Add || (t.parent.tag == Label && Attr(t.parent, "type") == Some("mpb")))
      && (t.isText || (t.isTail && t.text != [] && AllSpace(t.text)))
    {
      return;
    }
    if now {
      emitted := emitted + [CollapseNewlines(t.text, " ")];
    }
  }

  /** text_between_pages: the started flag flips at the start pb and the loop breaks at the end pb. */
  method TextBetweenPages(nodes: seq<TextNode>, start: string, end: string) returns (out: seq<string>)
    ensures out == Between(nodes, false, start, end)
  {
    var started := false;
    out := [];
    var i := 0;
    while i < |nodes|
      invariant 0 <= i <= |nodes|
      invariant out + Between(nodes[i..], started, start, end) == Between(nodes, false, start, end)
    {
      var emitted, now, stop := VisitText(nodes[i], started, start, end);
      assert nodes[i..][1..] == nodes[i + 1..];
      if stop {
        Seqs.AppendAssoc(out, emitted, []);
        out := out + emitted;
        return;
      }
      Seqs.AppendAssoc(out, emitted, Between(nodes[i + 1..], now, start, end));
      out := out + emitted;
      started := now;
      i := i + 1;
    }
  }

  /** Every yielded string is either a lone newline or holds no newline at all. */
  lemma {:induction false} BetweenLines(nodes: seq<TextNode>, started: bool, start: string, end: string)
    ensures forall k :: 0 <= k < |Between(nodes, started, start, end)| ==>
      var s := Between(nodes, started, start, end)[k];
      s == "\n" || '\n' !in s
    decreases |nodes|
  {
    if nodes != [] {
      var t := nodes[0];
      var now := started || AtBreak(t, start);
      BetweenLines(nodes[1..], now, start, end);
      CollapseToSpaceHasNoNewline(t.text);
    }
  }

  /**
   * Before the first pb that names the start or the end page nothing is yielded; an end pb
   * met first yields nothing at all, and a start pb begins the output with its own tail.
   */
  lemma {:induction false} NothingBeforeStart(nodes: seq<TextNode>, start: string, end: string, k: nat)
    requires k <= |nodes|
    requires forall i :: 0 <= i < k ==> !AtBreak(nodes[i], start) && !AtBreak(nodes[i], end)
    ensures k == |nodes| ==> Between(nodes, false, start, end) == []
    ensures k < |nodes| && AtBreak(nodes[k], end) ==> Between(nodes, false, start, end) == []
    ensures k < |nodes| && AtBreak(nodes[k], start) && !AtBreak(nodes[k], end) ==>
      Between(nodes, false, start, end) == [CollapseNewlines(nodes[k].text, " ")] + Between(nodes[k + 1..], true, start, end)
    decreases k
  {
    if k > 0 {
      BetweenSkip(nodes, start, end);
      NothingBeforeStart(nodes[1..], start, end, k - 1);
      assert nodes[1..][k - 1..] == nodes[k..];
      if k < |nodes| {
        assert nodes[1..][k - 1] == nodes[k];
        assert nodes[1..][k..] == nodes[k + 1..];
      }
    }
  }

  /** Before output starts, a node that is neither the start nor the end pb yields nothing. */
  lemma BetweenSkip(nodes: seq<TextNode>, start: string, end: string)
    requires nodes != [] && !AtBreak(nodes[0], start) && !AtBreak(nodes[0], end)
    ensures Between(nodes, false, start, end) == Between(nodes[1..], false, start, end)
  {
    assert Yielded(nodes[0], false, start, end) == [];
  }

  /** The end pb and everything after it contribute nothing. */
  lemma {:induction false} StopsAtEnd(nodes: seq<TextNode>, started: bool, start: string, end: string, k: nat)
    requires k < |nodes| && AtBreak(nodes[k], end)
    ensures Between(nodes, started, start, end) == Between(nodes[..k], started, start, end)
    decreases k
  {
    if k > 0 {
      var now := started || AtBreak(nodes[0], start);
      assert nodes[1..][k - 1] == nodes[k];
      StopsAtEnd(nodes[1..], now, start, end, k - 1);
      assert nodes[..k][1..] == nodes[1..][..k - 1];
    }
  }

  /** A pb with an ed attribute neither starts nor stops the output: its text is handled like any other. */
  lemma EditionBreakIsText(t: TextNode, rest: seq<TextNode>, started: bool, start: string, end: string)
    requires t.parent.tag == Pb && Attr(t.parent, "ed").Some?
    ensures Between([t] + rest, started, start, end)
      == (if started then [CollapseNewlines(t.text, " ")] else []) + Between(rest, started, start, end)
  {
    assert ([t] + rest)[1..] == rest;
  }

  /** Once started, the tail of an lb or note is preceded by a newline. */
  lemma NewlineBeforeBreak(t: TextNode, rest: seq<TextNode>, start: string, end: string)
    requires NewlineBefore(t)
    ensures Between([t] + rest, true, start, end)
      == ["\n", CollapseNewlines(t.text, " ")] + Between(rest, true, start, end)
  {
    assert !AtBreak(t, end) && !IsEditorialElement(t.parent);
    assert Yielded(t, true, start, end) == ["\n", CollapseNewlines(t.text, " ")];
    assert ([t] + rest)[1..] == rest;
  }

  /** Once started, editorial text and the blank tails after it are skipped. */
  lemma SkipsEditorial(t: TextNode, rest: seq<TextNode>, start: string, end: string)
    requires SkippedEditorial(t)
    ensures Between([t] + rest, true, start, end) == Between(rest, true, start, end)
  {
    assert ([t] + rest)[1..] == rest;
  }

  /**
   * find_common_ancestor: the first ancestor of the second element (nearest first) that is
   * also an ancestor of the first, or None.
   */
  method FindCommonAncestor(ancestors1: seq<Element>, ancestors2: seq<Element>) returns (r: Option<Element>)
    ensures r.Some? ==>
      exists k :: 0 <= k < |ancestors2| && ancestors2[k] == r.value && r.value in ancestors1
        && forall j :: 0 <= j < k ==> ancestors2[j] !in ancestors1
    ensures r.None? ==> forall j :: 0 <= j < |ancestors2| ==> ancestors2[j] !in ancestors1
  {
    for k := 0 to |ancestors2|
      invariant forall j :: 0 <= j < k ==> ancestors2[j] !in ancestors1
    {
      if ancestors2[k] in ancestors1 {
        return Some(ancestors2[k]);
      }
    }
    return None;
  }

  /** A pb element that carries an n attribute, with its ancestors, nearest first. */
  datatype PbNode = PbNode(el: Element, ancestors: seq<Element>)

  /** The document as get_pages sees it: its numbered pb elements and all its text nodes, in document order. */
  datatype Doc = Doc(pbs: seq<PbNode>, nodes: seq<TextNode>)

  datatype PagesError = PageRangeNotFound(message: string) | NoCommonAncestor

  /**
   * get_pages' scan from position i: a pb named start replaces the start candidate, one
   * named end the end candidate, and the scan stops as soon as both are set.
   */
  function PageScan(pbs: seq<PbNode>, start: string, end: string, i: nat, sp: Option<PbNode>, ep: Option<PbNode>)
    : (Option<PbNode>, Option<PbNode>)
    requires i <= |pbs|
    decreases |pbs| - i
  {
    if i == |pbs| then (sp, ep)
    else
      var n := Attr(pbs[i].el, "n");
      var sp' := if n == Some(start) then Some(pbs[i]) else sp;
      var ep' := if n == Some(end) then Some(pbs[i]) else ep;
      if sp'.Some? && ep'.Some? then (sp', ep') else PageScan(pbs, start, end, i + 1, sp', ep')
  }

  predicate Named(pbs: seq<PbNode>, i: nat, k: nat, n: string) {
    exists j :: i <= j < k && j < |pbs| && Attr(pbs[j].el, "n") == Some(n)
  }

  lemma {:induction false} PageScanFrom(pbs: seq<PbNode>, start: string, end: string, i: nat, sp: Option<PbNode>, ep: Option<PbNode>)
    requires i <= |pbs|
    requires sp.Some? ==> sp.value in pbs && Attr(sp.value.el, "n") == Some(start)
    requires ep.Some? ==> ep.value in pbs && Attr(ep.value.el, "n") == Some(end)
    ensures var (s, e) := PageScan(pbs, start, end, i, sp, ep);
      (s.Some? <==> sp.Some? || Named(pbs, i, |pbs|, start))
      && (e.Some? <==> ep.Some? || Named(pbs, i, |pbs|, end))
      && (s.Some? ==> s.value in pbs && Attr(s.value.el, "n") == Some(start))
      && (e.Some? ==> e.value in pbs && Attr(e.value.el, "n") == Some(end))
    decreases |pbs| - i
  {
    if i < |pbs| {
      var n := Attr(pbs[i].el, "n");
      var sp' := if n == Some(start) then Some(pbs[i]) else sp;
      var ep' := if n == Some(end) then Some(pbs[i]) else ep;
      if !(sp'.Some? && ep'.Some?) {
        PageScanFrom(pbs, start, end, i + 1, sp', ep');
        if Named(pbs, i, |pbs|, start) && !Named(pbs, i + 1, |pbs|, start) {
          var j :| i <= j < |pbs| && Attr(pbs[j].el, "n") == Some(start);
          assert j == i;
        }
        if Named(pbs, i, |pbs|, end) && !Named(pbs, i + 1, |pbs|, end) {
          var j :| i <= j < |pbs| && Attr(pbs[j].el, "n") == Some(end);
          assert j == i;
        }
      }
    }
  }

  /**
   * The scan finds a start pb exactly when some pb is named start, and an end pb exactly
   * when some pb is named end; each one found carries the number it was looked up by.
   */
  lemma PageScanFinds(pbs: seq<PbNode>, start: string, end: string)
    ensures var s, e := PageScan(pbs, start, end, 0, None, None).0, PageScan(pbs, start, end, 0, None, None).1;
      (s.Some? <==> Named(pbs, 0, |pbs|, start))
      && (e.Some? <==> Named(pbs, 0, |pbs|, end))
      && (s.Some? ==> s.value in pbs && Attr(s.value.el, "n") == Some(start))
      && (e.Some? ==> e.value in pbs && Attr(e.value.el, "n") == Some(end))
  {
    PageScanFrom(pbs, start, end, 0, None, None);
  }

  /** Once both numbers have been seen, the pbs after that point do not change the outcome. */
  lemma {:induction false} PageScanStops(pbs: seq<PbNode>, start: string, end: string, i: nat, k: nat, sp: Option<PbNode>, ep: Option<PbNode>)
    requires i <= k <= |pbs|
    requires !(sp.Some? && ep.Some?)
    requires sp.Some? || Named(pbs, i, k, start)
    requires ep.Some? || Named(pbs, i, k, end)
    ensures PageScan(pbs, start, end, i, sp, ep) == PageScan(pbs[..k], start, end, i, sp, ep)
    decreases k - i
  {
    if i < k {
      var n := Attr(pbs[i].el, "n");
      assert pbs[..k][i] == pbs[i];
      var sp' := if n == Some(start) then Some(pbs[i]) else sp;
      var ep' := if n == Some(end) then Some(pbs[i]) else ep;
      if !(sp'.Some? && ep'.Some?) {
        PageScanStops(pbs, start, end, i + 1, k, sp', ep');
      }
    }
  }

  /** The loop of get_pages over the numbered pbs. */
  method FindPages(pbs: seq<PbNode>, start: string, end: string) returns (startPb: Option<PbNode>, endPb: Option<PbNode>)
    ensures (startPb, endPb) == PageScan(pbs, start, end, 0, None, None)
  {
    startPb, endPb := None, None;
    var i := 0;
    while i < |pbs|
      invariant 0 <= i <= |pbs|
      invariant PageScan(pbs, start, end, i, startPb, endPb) == PageScan(pbs, start, end, 0, None, None)
      invariant !(startPb.Some? && endPb.Some?)
    {
      var pb := pbs[i];
      if Attr(pb.el, "n") == Some(start) {
        startPb := Some(pb);
      }
      if Attr(pb.el, "n") == Some(end) {
        endPb := Some(pb);
      }
      if startPb.Some? && endPb.Some? {
        return;
      }
      i := i + 1;
    }
  }

  /** The text nodes under an element: its own text, and the text and tails of every node below it. */
  function Descendants(nodes: seq<TextNode>, a: Element): (r: seq<TextNode>)
    ensures forall t :: t in r <==> t in nodes && ((t.isText && t.parent == a) || a in t.ancestors)
  {
    if nodes == [] then []
    else
      var t := nodes[|nodes| - 1];
      Descendants(nodes[..|nodes| - 1], a) + (if (t.isText && t.parent == a) || a in t.ancestors then [t] else [])
  }

  function StartMissing(start: string): string {
    "start page '" + start + "' not found"
  }

  function EndMissing(end: string): string {
    "end page '" + end + "' not found"
  }

  /** The messages get_pages reports, one per missing page. */
  function MissingPages(sp: Option<PbNode>, ep: Option<PbNode>, start: string, end: string): seq<string> {
    (if sp.None? then [StartMissing(start)] else []) + (if ep.None? then [EndMissing(end)] else [])
  }

  /** The ValueError message for the missing pages. */
  function RangeMessage(missing: seq<string>): string {
    "Specified page range not found: " + Join("; ", missing) + "."
  }

  /** The nearest common ancestor, as find_common_ancestor picks it. */
  function CommonAncestor(ancestors1: seq<Element>, ancestors2: seq<Element>): Option<Element> {
    if ancestors2 == [] then None
    else if ancestors2[0] in ancestors1 then Some(ancestors2[0])
    else CommonAncestor(ancestors1, ancestors2[1..])
  }

  /** get_pages: the joined text between the two pages, or why it cannot be found. */
  function PagesText(doc: Doc, start: string, end: string): Result<string, PagesError> {
    var found := PageScan(doc.pbs, start, end, 0, None, None);
    var sp, ep := found.0, found.1;
    var missing := MissingPages(sp, ep, start, end);
    if missing != [] then Err(PageRangeNotFound(RangeMessage(missing)))
    else
      match CommonAncestor(sp.value.ancestors, ep.value.ancestors)
      case None => Err(NoCommonAncestor)
      case Some(a) => Ok(Concat(Between(Descendants(doc.nodes, a), false, start, end)))
  }

  lemma {:induction false} CommonAncestorFirst(ancestors1: seq<Element>, ancestors2: seq<Element>, k: nat)
    requires k <= |ancestors2| && forall j :: 0 <= j < k ==> ancestors2[j] !in ancestors1
    ensures CommonAncestor(ancestors1, ancestors2)
      == (if k == |ancestors2| then None else CommonAncestor(ancestors1, ancestors2[k..]))
    decreases k
  {
    if k > 0 {
      CommonAncestorFirst(ancestors1, ancestors2[1..], k - 1);
      assert ancestors2[1..][k - 1..] == ancestors2[k..];
    }
  }

  method GetPages(doc: Doc, start: string, end: string) returns (r: Result<string, PagesError>)
    ensures r == PagesText(doc, start, end)
  {
    var startPb, endPb := FindPages(doc.pbs, start, end);
    var errorMsg: seq<string> := [];
    if startPb.None? {
      errorMsg := errorMsg + [StartMissing(start)];
    }
    if endPb.None? {
      errorMsg := errorMsg + [EndMissing(end)];
    }
    if errorMsg != [] {
      return Err(PageRangeNotFound(RangeMessage(errorMsg)));
    }
    var common := FindCommonAncestor(startPb.value.ancestors, endPb.value.ancestors);
    if common.None? {
      CommonAncestorFirst(startPb.value.ancestors, endPb.value.ancestors, |endPb.value.ancestors|);
      return Err(NoCommonAncestor);
    }
    var k :| 0 <= k < |endPb.value.ancestors| && endPb.value.ancestors[k] == common.value
      && common.value in startPb.value.ancestors
      && forall j :: 0 <= j < k ==> endPb.value.ancestors[j] !in startPb.value.ancestors;
    CommonAncestorFirst(startPb.value.ancestors, endPb.value.ancestors, k);
    var textLines := TextBetweenPages(Descendants(doc.nodes, common.value), start, end);
    r := Ok(Concat(textLines));
  }

  /**
   * get_pages fails naming exactly the pages no numbered pb carries: the start page, the
   * end page, or both joined with "; ".
   */
  lemma PagesTextMissing(doc: Doc, start: string, end: string)
    ensures var hasStart := Named(doc.pbs, 0, |doc.pbs|, start);
      var hasEnd := Named(doc.pbs, 0, |doc.pbs|, end);
      (!hasStart && !hasEnd ==>
        PagesText(doc, start, end) == Err(PageRangeNotFound(RangeMessage([StartMissing(start), EndMissing(end)]))))
      && (!hasStart && hasEnd ==> PagesText(doc, start, end) == Err(PageRangeNotFound(RangeMessage([StartMissing(start)]))))
      && (hasStart && !hasEnd ==> PagesText(doc, start, end) == Err(PageRangeNotFound(RangeMessage([EndMissing(end)]))))
      && (hasStart && hasEnd && PagesText(doc, start, end).Err? ==> PagesText(doc, start, end) == Err(NoCommonAncestor))
  {
    PageScanFinds(doc.pbs, start, end);
    var found := PageScan(doc.pbs, start, end, 0, None, None);
    var missing := MissingPages(found.0, found.1, start, end);
    if found.0.None? || found.1.None? {
      assert PagesText(doc, start, end) == Err(PageRangeNotFound(RangeMessage(missing)));
    }
  }

  /** Two missing pages are reported in one message, start first, separated by "; ". */
  lemma RangeMessageBoth(start: string, end: string)
    ensures RangeMessage([StartMissing(start), EndMissing(end)])
      == "Specified page range not found: " + StartMissing(start) + "; " + EndMissing(end) + "."
  {
    var a, b := StartMissing(start), EndMissing(end);
    assert [a, b][1..] == [b];
    assert Join("; ", [a, b]) == a + "; " + b;
  }

  /**
   * main's end page: the given one when it is non-empty, otherwise str(int(start) + 1);
   * None when it has to be derived and the start is not an integer.
   */
  function EndPage(start: string, end: Option<string>): (r: Option<string>)
    ensures end.Some? && end.value != [] ==> r == end
    ensures (end.None? || end.value == []) ==> (r.Some? <==> ParseInt(start).Some?)
  {
    if end.Some? && end.value != [] then end
    else
      match ParseInt(start)
      case None => None
      case Some(n) => Some(IntToString(n + 1))
  }

  /** A derived end page is the page after the start, as int() reads it back. */
  lemma EndPageNext(start: string)
    requires ParseInt(start).Some?
    ensures EndPage(start, None).Some? && ParseInt(EndPage(start, None).value) == Some(ParseInt(start).value + 1)
  {
    ParseIntToString(ParseInt(start).value + 1);
  }
}
