/**
 * The TEI document as the page readers see it: text nodes in document order, each
 * with the element lxml reports as its parent (for a tail, the element it follows),
 * that element's ancestors, and whether the node is the element's text or its tail.
 * Shared by the four page readers: the helpers here are the parts they have in common.
 */
module TeiXml {
  import opened Wrappers
  import opened Text

  /** The TEI tags the readers test for; every other tag is Other. */
  datatype Tag = Pb | Lb | Note | Add | Label | Ref | Div3 | Other(name: string)

  /** An element: identity, tag and attributes. */
  datatype Element = Element(id: nat, tag: Tag, attrs: map<string, string>)

  function Attr(el: Element, name: string): Option<string> {
    if name in el.attrs then Some(el.attrs[name]) else None
  }

  /** A text node; parent is what getparent() returns, ancestors are that element's ancestors, nearest first. */
  datatype TextNode = TextNode(text: string, parent: Element, ancestors: seq<Element>, isText: bool, isTail: bool)

  /** A footnote element, with the text of its descendants, its string value and the n of its first numbered lb. */
  datatype Footnote = Footnote(node: Element, itertext: string, stringValue: string, firstLineBreak: Option<string>)

  /** The next standard page break of a page, with the footnotes that follow it. */
  datatype NextPage = NextPage(node: Element, followingFootnotes: seq<Footnote>)

  /**
   * A page: its pb element, the text nodes that follow it in the document, the footnotes
   * that follow it, and the next pb without an ed attribute.
   */
  datatype Page = Page(node: Element, textNodes: seq<TextNode>, followingFootnotes: seq<Footnote>, nextPage: Option<NextPage>) {
    function Number(): Option<string> {
      Attr(node, "n")
    }

    function Edition(): Option<string> {
      Attr(node, "ed")
    }
  }

  /** A ref or note whose type is "footnote". */
  predicate IsFootnoteElement(el: Element) {
    (el.tag == Ref || el.tag == Note) && Attr(el, "type") == Some("footnote")
  }

  /**
   * is_footnote_content on chain[0], whose ancestors are chain[1..]: the element is a footnote,
   * or some ancestor is footnote content in its own right.
   */
  function IsFootnoteContent(chain: seq<Element>): bool
    decreases |chain|, 0
  {
    chain != [] && (IsFootnoteElement(chain[0]) || AnyFootnoteContent(chain[1..]))
  }

  /** any(is_footnote_content(a) for a in ancestors) */
  function AnyFootnoteContent(ancestors: seq<Element>): bool
    decreases |ancestors|, 1
  {
    ancestors != [] && (IsFootnoteContent(ancestors) || AnyFootnoteContent(ancestors[1..]))
  }

  /** An element is footnote content exactly when it or one of its ancestors is a footnote ref or note. */
  lemma {:induction false} FootnoteContentIff(chain: seq<Element>)
    ensures IsFootnoteContent(chain) <==> exists i :: 0 <= i < |chain| && IsFootnoteElement(chain[i])
    decreases |chain|, 0
  {
    if chain != [] {
      var rest := chain[1..];
      FootnoteContentIff(rest);
      AnyFootnoteContentIff(rest);
      if exists i :: 0 <= i < |chain| && IsFootnoteElement(chain[i]) {
        var i :| 0 <= i < |chain| && IsFootnoteElement(chain[i]);
        if i > 0 { assert IsFootnoteElement(rest[i - 1]); }
      }
    }
  }

  lemma {:induction false} AnyFootnoteContentIff(ancestors: seq<Element>)
    ensures AnyFootnoteContent(ancestors) <==> exists i :: 0 <= i < |ancestors| && IsFootnoteElement(ancestors[i])
    decreases |ancestors|, 1
  {
    if ancestors != [] {
      var rest := ancestors[1..];
      FootnoteContentIff(ancestors);
      AnyFootnoteContentIff(rest);
      if exists i :: 0 <= i < |rest| && IsFootnoteElement(rest[i]) {
        var i :| 0 <= i < |rest| && IsFootnoteElement(rest[i]);
        assert IsFootnoteElement(ancestors[i + 1]);
      }
    }
  }

  /** The parent chain of a text node. */
  function Chain(t: TextNode): seq<Element> {
    [t.parent] + t.ancestors
  }

  /** add, or label with type "mpb": editorial additions such as original page numbers. */
  predicate IsEditorialElement(el: Element) {
    el.tag == Add || (el.tag == Label && Attr(el, "type") == Some("mpb"))
  }

  /** Text inside an editorial element, or a blank tail right after one (the `strip() == ""` test). */
  predicate IsEditorial(t: TextNode) {
    IsEditorialElement(t.parent) && (t.isText || (t.isTail && Strip(t.text) == []))
  }

  /** The node is the tail of the page's next standard page break. */
  predicate StopsPage(page: Page, t: TextNode) {
    page.nextPage.Some? && t.parent == page.nextPage.value.node
  }

  /** A body-text node: neither footnote content nor editorial. */
  predicate IsBodyText(t: TextNode) {
    !IsFootnoteContent(Chain(t)) && !IsEditorial(t)
  }

  /** Index of the first node that stops the page, or the number of nodes. */
  function StopIndex(page: Page): (k: nat)
    ensures k <= |page.textNodes|
    ensures forall i :: 0 <= i < k ==> !StopsPage(page, page.textNodes[i])
    ensures k < |page.textNodes| ==> StopsPage(page, page.textNodes[k])
  {
    FirstStop(page, 0)
  }

  function FirstStop(page: Page, i: nat): (k: nat)
    requires i <= |page.textNodes|
    ensures i <= k <= |page.textNodes|
    ensures forall j :: i <= j < k ==> !StopsPage(page, page.textNodes[j])
    ensures k < |page.textNodes| ==> StopsPage(page, page.textNodes[k])
    decreases |page.textNodes| - i
  {
    if i == |page.textNodes| || StopsPage(page, page.textNodes[i]) then i else FirstStop(page, i + 1)
  }

  /** The text nodes of the page proper: those before the next standard page break. */
  function PageNodes(page: Page): seq<TextNode> {
    page.textNodes[..StopIndex(page)]
  }

  /** The texts of the body-text nodes, in order. */
  function BodyFragments(nodes: seq<TextNode>): (r: seq<string>)
    ensures |r| <= |nodes|
  {
    if nodes == [] then []
    else BodyFragments(nodes[..|nodes| - 1]) + (if IsBodyText(nodes[|nodes| - 1]) then [nodes[|nodes| - 1].text] else [])
  }

  /** The positions of the body-text nodes, in increasing order. */
  function BodyPositions(nodes: seq<TextNode>): (ks: seq<nat>)
    ensures forall j :: 0 <= j < |ks| ==> ks[j] < |nodes| && IsBodyText(nodes[ks[j]])
    ensures forall j, l :: 0 <= j < l < |ks| ==> ks[j] < ks[l]
    ensures forall i :: 0 <= i < |nodes| && IsBodyText(nodes[i]) ==> i in ks
  {
    if nodes == [] then []
    else
      var ks := BodyPositions(nodes[..|nodes| - 1]);
      assert forall i :: 0 <= i < |nodes| - 1 ==> nodes[..|nodes| - 1][i] == nodes[i];
      ks + (if IsBodyText(nodes[|nodes| - 1]) then [|nodes| - 1] else [])
  }

  /**
   * The fragments are the texts of exactly the body-text nodes, in document order: footnote
   * and editorial text never appears and no body text is lost.
   */
  lemma {:induction false} BodyFragmentsAreBody(nodes: seq<TextNode>)
    ensures var ks := BodyPositions(nodes);
      |BodyFragments(nodes)| == |ks| && forall j :: 0 <= j < |ks| ==> BodyFragments(nodes)[j] == nodes[ks[j]].text
    decreases |nodes|
  {
    if nodes != [] {
      var init := nodes[..|nodes| - 1];
      BodyFragmentsAreBody(init);
      var ks := BodyPositions(nodes);
      var fs := BodyFragments(nodes);
      forall j | 0 <= j < |ks|
        ensures fs[j] == nodes[ks[j]].text
      {
        if j < |BodyPositions(init)| {
          assert fs[j] == BodyFragments(init)[j];
          assert init[BodyPositions(init)[j]] == nodes[ks[j]];
        }
      }
    }
  }

  /**
   * get_page_footnotes: the longest prefix of the following footnotes that stops before
   * the first footnote that also follows the next standard page break.
   */
  function PageFootnotes(page: Page): seq<Footnote> {
    page.followingFootnotes[..FootnoteCut(page, 0)]
  }

  predicate OnNextPage(page: Page, f: Footnote) {
    page.nextPage.Some? && f in page.nextPage.value.followingFootnotes
  }

  function FootnoteCut(page: Page, i: nat): (k: nat)
    requires i <= |page.followingFootnotes|
    ensures i <= k <= |page.followingFootnotes|
    ensures forall j :: i <= j < k ==> !OnNextPage(page, page.followingFootnotes[j])
    ensures k < |page.followingFootnotes| ==> OnNextPage(page, page.followingFootnotes[k])
    decreases |page.followingFootnotes| - i
  {
    if i == |page.followingFootnotes| || OnNextPage(page, page.followingFootnotes[i]) then i else FootnoteCut(page, i + 1)
  }

  /** get_page_footnotes, as the loop that appends and breaks. */
  method GetPageFootnotes(page: Page) returns (pageFootnotes: seq<Footnote>)
    ensures pageFootnotes == PageFootnotes(page)
  {
    pageFootnotes := [];
    var i := 0;
    while i < |page.followingFootnotes|
      invariant 0 <= i <= FootnoteCut(page, 0)
      invariant pageFootnotes == page.followingFootnotes[..i]
    {
      var footnote := page.followingFootnotes[i];
      if page.nextPage.Some? && footnote in page.nextPage.value.followingFootnotes {
        break;
      }
      pageFootnotes := pageFootnotes + [footnote];
      i := i + 1;
    }
  }

  /**
   * The page's footnotes are a prefix of the following footnotes, none of them follows the
   * next page break, and the first footnote left out does.
   */
  lemma PageFootnotesSplit(page: Page)
    ensures var fs := PageFootnotes(page);
      |fs| <= |page.followingFootnotes| && fs == page.followingFootnotes[..|fs|]
      && (forall f :: f in fs ==> !OnNextPage(page, f))
      && (|fs| < |page.followingFootnotes| ==> OnNextPage(page, page.followingFootnotes[|fs|]))
  {
  }

  /** Without a next page every following footnote belongs to the page. */
  lemma LastPageKeepsAllFootnotes(page: Page)
    requires page.nextPage.None?
    ensures PageFootnotes(page) == page.followingFootnotes
  {
  }

  /** TEIDocument.pages: all pages in document order except the manuscript-edition ones. */
  function StandardPages(all: seq<Page>): (pages: seq<Page>)
    ensures |pages| <= |all|
  {
    if all == [] then []
    else StandardPages(all[..|all| - 1]) + (if all[|all| - 1].Edition() != Some("manuscript") then [all[|all| - 1]] else [])
  }

  /** A page is kept exactly when its edition is not "manuscript", and the order is kept. */
  lemma {:induction false} StandardPagesSpec(all: seq<Page>)
    ensures forall p :: p in StandardPages(all) <==> p in all && p.Edition() != Some("manuscript")
    decreases |all|
  {
    if all != [] {
      StandardPagesSpec(all[..|all| - 1]);
      assert all == all[..|all| - 1] + [all[|all| - 1]];
    }
  }

  lemma {:induction false} StandardPagesAppend(a: seq<Page>, b: seq<Page>)
    ensures StandardPages(a + b) == StandardPages(a) + StandardPages(b)
    decreases |b|
  {
    if b == [] {
      assert a + b == a;
    } else {
      assert (a + b)[..|a + b| - 1] == a + b[..|b| - 1];
      StandardPagesAppend(a, b[..|b| - 1]);
    }
  }
}
