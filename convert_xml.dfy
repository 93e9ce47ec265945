/**
 * The command-line TEI converter: one text file per standard page, holding the page's body
 * text and then its footnotes. Its page reader is an earlier copy of the corpus reader's,
 * with the whitespace normalised once over the joined body text.
 */
module ConvertXml {
  import opened Wrappers
  import opened Text
  import opened TeiXml

  /** get_body_text: the kept fragments joined, newline-bearing whitespace runs collapsed to "\n", then stripped. */
  function BodyText(page: Page): string {
    Strip(CollapseNewlines(Concat(BodyFragments(PageNodes(page))), "\n"))
  }

  /** get_body_text, as the loop that breaks at the next page and skips footnote and editorial text. */
  method GetBodyText(page: Page) returns (r: string)
    ensures r == BodyText(page)
  {
    var bodyTextParts: seq<string> := [];
    var i := 0;
    while i < |page.textNodes|
      invariant 0 <= i <= StopIndex(page)
      invariant bodyTextParts == BodyFragments(page.textNodes[..i])
    {
      var text := page.textNodes[i];
      BodyFragmentsNext(page.textNodes, i);
      if StopsPage(page, text) {
        break;
      }
      BeforeStop(page, i);
      if IsFootnoteContent(Chain(text)) {
        i := i + 1;
        continue;
      }
      if IsEditorial(text) {
        i := i + 1;
        continue;
      }
      bodyTextParts := bodyTextParts + [text.text];
      i := i + 1;
    }
    assert page.textNodes[..i] == PageNodes(page);
    r := Strip(CollapseNewlines(Concat(bodyTextParts), "\n"));
  }

  lemma BeforeStop(page: Page, i: nat)
    requires i <= StopIndex(page) && i < |page.textNodes| && !StopsPage(page, page.textNodes[i])
    ensures i + 1 <= StopIndex(page)
  {
  }

  lemma BodyFragmentsNext(nodes: seq<TextNode>, i: nat)
    requires i < |nodes|
    ensures BodyFragments(nodes[..i + 1]) == BodyFragments(nodes[..i]) + (if IsBodyText(nodes[i]) then [nodes[i].text] else [])
  {
    assert nodes[..i + 1][..i] == nodes[..i];
  }

  /**
   * The body text has no whitespace at either end and none next to a newline, and it holds
   * exactly the non-whitespace text of the kept fragments, in order.
   */
  lemma BodyTextClean(page: Page)
    ensures var b := BodyText(page);
      (b != [] ==> !IsSpace(b[0]) && !IsSpace(b[|b| - 1]))
      && NewlinesTight(b)
      && NonSpace(b) == NonSpaces(BodyFragments(PageNodes(page)))
  {
    var joined := Concat(BodyFragments(PageNodes(page)));
    CollapseNewlinesTight(joined);
    StripTight(CollapseNewlines(joined, "\n"));
    NonSpaceStrip(CollapseNewlines(joined, "\n"));
    CollapseKeepsText(joined, "\n");
    NonSpaceConcat(BodyFragments(PageNodes(page)));
  }

  /** One footnote as get_individual_footnotes yields it: str(footnote) stripped, then newline runs collapsed. */
  function CleanFootnote(f: Footnote): string {
    CollapseNewlines(Strip(f.stringValue), "\n")
  }

  /** A cleaned footnote has no whitespace at either end or next to a newline, and keeps all its text. */
  lemma CleanFootnoteSpec(f: Footnote)
    ensures var c := CleanFootnote(f);
      (c != [] ==> !IsSpace(c[0]) && !IsSpace(c[|c| - 1]))
      && NewlinesTight(c)
      && NonSpace(c) == NonSpace(f.stringValue)
      && (c == [] <==> AllSpace(f.stringValue))
  {
    var s := Strip(f.stringValue);
    CollapseNewlinesTight(s);
    CollapseKeepsText(s, "\n");
    NonSpaceStrip(f.stringValue);
    if s != [] {
      CollapseStartsWith(s, "\n");
      CollapseEndsWith(s, "\n");
    }
  }

  /** get_individual_footnotes over a run of footnotes. */
  function CleanFootnotes(fs: seq<Footnote>): seq<string> {
    if fs == [] then [] else [CleanFootnote(fs[0])] + CleanFootnotes(fs[1..])
  }

  /** The string values of a run of footnotes. */
  function StringValues(fs: seq<Footnote>): seq<string> {
    if fs == [] then [] else [fs[0].stringValue] + StringValues(fs[1..])
  }

  /** get_footnote_text: the page's cleaned footnotes separated by blank lines. */
  function FootnoteText(page: Page): string {
    Join("\n\n", CleanFootnotes(PageFootnotes(page)))
  }

  /** str(page): the body text, a blank line, then the footnote text. */
  function PageString(page: Page): string {
    BodyText(page) + "\n\n" + FootnoteText(page)
  }

  /** __str__, with get_body_text run as its loop and get_page_footnotes as its own loop. */
  method PageText(page: Page) returns (s: string)
    ensures s == PageString(page)
  {
    var body := GetBodyText(page);
    var footnotes := GetPageFootnotes(page);
    s := body + "\n\n" + Join("\n\n", CleanFootnotes(footnotes));
  }

  lemma {:induction false} CleanFootnotesKeepText(fs: seq<Footnote>)
    ensures NonSpaces(CleanFootnotes(fs)) == NonSpaces(StringValues(fs))
    decreases |fs|
  {
    if fs != [] {
      CleanFootnotesKeepText(fs[1..]);
      CleanFootnoteSpec(fs[0]);
    }
  }

  /**
   * The page text holds exactly the non-whitespace text of the body fragments followed by
   * that of the page's footnotes: only whitespace is added, removed or changed.
   */
  lemma PageStringKeepsText(page: Page)
    ensures NonSpace(PageString(page))
      == NonSpaces(BodyFragments(PageNodes(page))) + NonSpaces(StringValues(PageFootnotes(page)))
  {
    BodyTextClean(page);
    SeparatedKeepsText(BodyText(page), PageFootnotes(page));
  }

  lemma SeparatedKeepsText(b: string, fs: seq<Footnote>)
    ensures NonSpace(b + "\n\n" + Join("\n\n", CleanFootnotes(fs))) == NonSpace(b) + NonSpaces(StringValues(fs))
  {
    var f := Join("\n\n", CleanFootnotes(fs));
    NonSpaceAppend(b + "\n\n", f);
    NonSpaceAppend(b, "\n\n");
    NonSpaceOfSpaces("\n\n");
    NonSpaceJoin("\n\n", CleanFootnotes(fs));
    CleanFootnotesKeepText(fs);
    assert NonSpace(b + "\n\n") == NonSpace(b) + [];
    assert NonSpace(b) + [] == NonSpace(b);
  }

  /** The page number used in the file name: the n attribute when non-empty, else the 1-based position. */
  function PageLabel(page: Page, i: nat): string {
    if page.Number().Some? && page.Number().value != [] then page.Number().value else IntToString(i + 1)
  }

  /** page_{page_num.zfill(3)}.txt */
  function PageFileName(page: Page, i: nat): string {
    "page_" + ZFill(PageLabel(page, i), 3) + ".txt"
  }

  /**
   * A file name is page_, at least three characters, then .txt. A page number of three or more
   * characters appears as it is; a shorter unsigned one is padded with zeros on the left; a page
   * without a number gets its 1-based position, which reads back as that number.
   */
  lemma PageFileNameSpec(page: Page, i: nat)
    ensures var name := PageFileName(page, i);
      var middle := name[5..|name| - 4];
      var n := page.Number();
      |name| >= 12 && name[..5] == "page_" && name[|name| - 4..] == ".txt" && |middle| >= 3
      && (n.Some? && |n.value| >= 3 ==> middle == n.value)
      && (n.Some? && 0 < |n.value| < 3 && n.value[0] != '+' && n.value[0] != '-' ==>
            middle[3 - |n.value|..] == n.value && forall k :: 0 <= k < 3 - |n.value| ==> middle[k] == '0')
      && ((n.None? || n.value == []) ==> ParseInt(middle) == Some(i + 1))
  {
    var number := PageLabel(page, i);
    var z := ZFill(number, 3);
    FileNameParts(z);
    var n := page.Number();
    if n.None? || n.value == [] {
      FallbackLabelParses(i);
    } else if |n.value| < 3 && n.value[0] != '+' && n.value[0] != '-' {
      ZFillZeros(number, 3);
    }
  }

  /** The parts of page_{z}.txt. */
  lemma FileNameParts(z: string)
    ensures var name := "page_" + z + ".txt";
      |name| == |z| + 9 && name[..5] == "page_" && name[|name| - 4..] == ".txt" && name[5..|name| - 4] == z
  {
  }

  /** zfill pads an unsigned short string with zeros. */
  lemma ZFillZeros(s: string, width: nat)
    requires 0 < |s| < width && s[0] != '+' && s[0] != '-'
    ensures forall k :: 0 <= k < width - |s| ==> ZFill(s, width)[k] == '0'
  {
  }

  /** The zero-padded position reads back as the position. */
  lemma FallbackLabelParses(i: nat)
    ensures ParseInt(ZFill(IntToString(i + 1), 3)) == Some(i + 1)
  {
    var ds := NatToString(i + 1);
    assert IntToString(i + 1) == ds;
    var z := ZFill(ds, 3);
    var zeros := ZFillDigits(ds, 3);
    LeadingZeros(zeros, ds);
    DigitsOfNat(i + 1);
    StripDigits(z);
    ParseIntUnsigned(z);
  }

  /** zfill on a digit string only prepends zeros. */
  lemma ZFillDigits(ds: string, width: nat) returns (zeros: string)
    requires ds != [] && AllDigits(ds)
    ensures ZFill(ds, width) == zeros + ds && forall k :: 0 <= k < |zeros| ==> zeros[k] == '0'
  {
    assert IsDigit(ds[0]);
    zeros := if |ds| >= width then [] else seq(width - |ds|, _ => '0');
  }

  lemma StripDigits(z: string)
    requires z != [] && AllDigits(z)
    ensures Strip(z) == z
  {
    assert IsDigit(z[0]) && IsDigit(z[|z| - 1]);
    assert LStrip(z) == z;
    assert RStrip(z) == z;
  }

  /** The file convert_xml_to_text_files writes for the page at position i, if its text is not blank. */
  function PageFile(page: Page, i: nat): Option<(string, string)> {
    var content := PageString(page);
    if Strip(content) != [] then Some((PageFileName(page, i), content)) else None
  }

  /** The values f gives to each element and its position, in order, with the Nones left out. */
  function Somes<T, U>(xs: seq<T>, f: (T, nat) -> Option<U>): seq<U> {
    if xs == [] then []
    else
      var i := |xs| - 1;
      Somes(xs[..i], f) + (if f(xs[i], i).Some? then [f(xs[i], i).value] else [])
  }

  lemma SomesNext<T, U>(xs: seq<T>, f: (T, nat) -> Option<U>, i: nat)
    requires i < |xs|
    ensures Somes(xs[..i + 1], f) == Somes(xs[..i], f) + (if f(xs[i], i).Some? then [f(xs[i], i).value] else [])
  {
    assert xs[..i + 1][..i] == xs[..i];
  }

  /** Every Some value appears, and nothing else does. */
  lemma {:induction false} SomesIff<T, U>(xs: seq<T>, f: (T, nat) -> Option<U>)
    ensures forall i :: 0 <= i < |xs| && f(xs[i], i).Some? ==> f(xs[i], i).value in Somes(xs, f)
    ensures forall e :: e in Somes(xs, f) ==> exists i :: 0 <= i < |xs| && f(xs[i], i) == Some(e)
    decreases |xs|
  {
    if xs != [] {
      var n := |xs| - 1;
      var init := xs[..n];
      SomesIff(init, f);
      forall e | e in Somes(xs, f)
        ensures exists i :: 0 <= i < |xs| && f(xs[i], i) == Some(e)
      {
        if e in Somes(init, f) {
          var i :| 0 <= i < |init| && f(init[i], i) == Some(e);
          assert init[i] == xs[i];
        }
      }
      forall i | 0 <= i < |xs| && f(xs[i], i).Some?
        ensures f(xs[i], i).value in Somes(xs, f)
      {
        if i < n {
          assert init[i] == xs[i];
        }
      }
    }
  }

  /** The (file name, content) pairs convert_xml_to_text_files writes, in order: one per non-blank page. */
  function Written(pages: seq<Page>): seq<(string, string)> {
    Somes(pages, PageFile)
  }

  /** convert_xml_to_text_files over the document's pages, with the file writes collected in order. */
  method ConvertXmlToTextFiles(allPages: seq<Page>) returns (files: seq<(string, string)>)
    ensures files == Written(StandardPages(allPages))
  {
    var pages := StandardPages(allPages);
    files := [];
    var i := 0;
    while i < |pages|
      invariant 0 <= i <= |pages|
      invariant files == Somes(pages[..i], PageFile)
    {
      var pageContent := PageText(pages[i]);
      SomesNext(pages, PageFile, i);
      if Strip(pageContent) != [] {
        files := files + [(PageFileName(pages[i], i), pageContent)];
      }
      i := i + 1;
    }
    assert pages[..i] == pages;
  }

  /**
   * A page is written exactly when its text is not blank, under the name for its position,
   * with its text as content; nothing else is written.
   */
  lemma WrittenIff(pages: seq<Page>)
    ensures forall i :: 0 <= i < |pages| && Strip(PageString(pages[i])) != [] ==>
      (PageFileName(pages[i], i), PageString(pages[i])) in Written(pages)
    ensures forall e :: e in Written(pages) ==>
      exists i :: 0 <= i < |pages| && Strip(PageString(pages[i])) != [] && e == (PageFileName(pages[i], i), PageString(pages[i]))
  {
    SomesIff(pages, PageFile);
  }

  /** A page is written exactly when its body fragments or its footnotes hold some non-whitespace text. */
  lemma PageWrittenIff(page: Page)
    ensures Strip(PageString(page)) != []
      <==> NonSpaces(BodyFragments(PageNodes(page))) + NonSpaces(StringValues(PageFootnotes(page))) != []
  {
    PageStringKeepsText(page);
    AllSpaceIffNoText(PageString(page));
  }
}
