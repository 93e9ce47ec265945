/**
 * The older TEI reader: a page's text is every text node after its pb up to the next
 * pb without an ed attribute, skipping editorial additions, with each newline-bearing
 * whitespace run collapsed to one newline; the document yields one string per page.
 */
module TeiChunks {
  import opened Wrappers
  import opened Text
  import opened TeiXml

  /** text_contents' stop test: a pb other than the page's own, without an ed attribute. */
  predicate EndsContents(page: Page, t: TextNode) {
    t.parent != page.node && t.parent.tag == Pb && Attr(t.parent, "ed").None?
  }

  /** Index of the first node from i on that ends the page's contents, or the number of nodes. */
  function ContentsEnd(page: Page, i: nat): (k: nat)
    requires i <= |page.textNodes|
    ensures i <= k <= |page.textNodes|
    ensures forall j :: i <= j < k ==> !EndsContents(page, page.textNodes[j])
    ensures k < |page.textNodes| ==> EndsContents(page, page.textNodes[k])
    decreases |page.textNodes| - i
  {
    if i == |page.textNodes| || EndsContents(page, page.textNodes[i]) then i else ContentsEnd(page, i + 1)
  }

  /** The nodes text_contents looks at: those before the first node that ends the page. */
  function ContentsNodes(page: Page): seq<TextNode> {
    page.textNodes[..ContentsEnd(page, 0)]
  }

  /** What text_contents yields for a run of nodes: the collapsed text of each non-editorial node. */
  function Fragments(nodes: seq<TextNode>): seq<string> {
    if nodes == [] then []
    else
      var t := nodes[|nodes| - 1];
      Fragments(nodes[..|nodes| - 1]) + (if IsEditorial(t) then [] else [CollapseNewlines(t.text, "\n")])
  }

  /** TEIPage.text_contents */
  function TextContents(page: Page): seq<string> {
    Fragments(ContentsNodes(page))
  }

  /** str(page): the page's fragments joined with nothing between them. */
  function PageString(page: Page): string {
    Concat(TextContents(page))
  }

  /** TEIinput.get_text_chunks: str(page) for every page whose edition is not "manuscript". */
  function GetTextChunks(pages: seq<Page>): seq<string> {
    if pages == [] then []
    else
      var p := pages[|pages| - 1];
      GetTextChunks(pages[..|pages| - 1]) + (if p.Edition() != Some("manuscript") then [PageString(p)] else [])
  }

  /** The positions of the non-editorial nodes, in increasing order. */
  function Kept(nodes: seq<TextNode>): (ks: seq<nat>)
    ensures forall j :: 0 <= j < |ks| ==> ks[j] < |nodes| && !IsEditorial(nodes[ks[j]])
    ensures forall j, l :: 0 <= j < l < |ks| ==> ks[j] < ks[l]
    ensures forall i :: 0 <= i < |nodes| && !IsEditorial(nodes[i]) ==> i in ks
  {
    if nodes == [] then []
    else
      var ks := Kept(nodes[..|nodes| - 1]);
      assert forall i :: 0 <= i < |nodes| - 1 ==> nodes[..|nodes| - 1][i] == nodes[i];
      ks + (if IsEditorial(nodes[|nodes| - 1]) then [] else [|nodes| - 1])
  }

  /**
   * The fragments are exactly the non-editorial nodes' texts, each with its newline runs
   * collapsed, in document order: editorial text never appears and nothing else is lost.
   */
  lemma {:induction false} FragmentsAreKept(nodes: seq<TextNode>)
    ensures var ks := Kept(nodes);
      |Fragments(nodes)| == |ks|
      && forall j :: 0 <= j < |ks| ==> Fragments(nodes)[j] == CollapseNewlines(nodes[ks[j]].text, "\n")
    decreases |nodes|
  {
    if nodes != [] {
      var init := nodes[..|nodes| - 1];
      FragmentsAreKept(init);
      var ks := Kept(nodes);
      var fs := Fragments(nodes);
      forall j | 0 <= j < |ks|
        ensures fs[j] == CollapseNewlines(nodes[ks[j]].text, "\n")
      {
        if j < |Kept(init)| {
          assert fs[j] == Fragments(init)[j];
          assert init[Kept(init)[j]] == nodes[ks[j]];
        }
      }
    }
  }

  /** Every yielded fragment has no whitespace next to a newline. */
  lemma TextContentsTight(page: Page)
    ensures forall j :: 0 <= j < |TextContents(page)| ==> NewlinesTight(TextContents(page)[j])
  {
    var nodes := ContentsNodes(page);
    FragmentsAreKept(nodes);
    forall j | 0 <= j < |TextContents(page)|
      ensures NewlinesTight(TextContents(page)[j])
    {
      CollapseNewlinesTight(nodes[Kept(nodes)[j]].text);
    }
  }

  /** The chunks are str(page) for the standard pages, one per page, in document order. */
  lemma {:induction false} GetTextChunksArePages(pages: seq<Page>)
    ensures var std := StandardPages(pages);
      |GetTextChunks(pages)| == |std|
      && forall k :: 0 <= k < |std| ==> GetTextChunks(pages)[k] == PageString(std[k])
    decreases |pages|
  {
    if pages != [] {
      GetTextChunksArePages(pages[..|pages| - 1]);
    }
  }
}
