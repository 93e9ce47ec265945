/**
 * highlight_spans: the text with <mark> tags put around each given span. The spans are
 * Python slice bounds, so negative and out-of-range values follow slice semantics.
 */
module HighlightUtils {
  import opened Text
  import opened Seqs

  /** Where a Python slice bound i lands in a sequence of length n. */
  function SliceBound(n: nat, i: int): (k: nat)
    ensures k <= n
    ensures 0 <= i <= n ==> k == i
  {
    if i < 0 then (if i + n < 0 then 0 else i + n)
    else if i > n then n
    else i
  }

  /** s[a:b] */
  function Slice(s: string, a: int, b: int): string {
    var i, j := SliceBound(|s|, a), SliceBound(|s|, b);
    if i < j then s[i..j] else []
  }

  /** previous_end once the given spans are processed. */
  function PrevEnd(spans: seq<(int, int)>): int {
    if spans == [] then 0 else spans[|spans| - 1].1
  }

  /**
   * The joined text_parts once the given spans are processed: for each span, the text
   * since the previous span's end, then the span's text between the open and close tags.
   */
  function Rendered(text: string, spans: seq<(int, int)>, open: string, close: string): string {
    if spans == [] then []
    else
      var init := spans[..|spans| - 1];
      var span := spans[|spans| - 1];
      Rendered(text, init, open, close) + Slice(text, PrevEnd(init), span.0) + (open + Slice(text, span.0, span.1) + close)
  }

  /** The rendered spans followed by the text after the last span. */
  function Highlighted(text: string, spans: seq<(int, int)>, open: string, close: string): string {
    Rendered(text, spans, open, close) + Slice(text, PrevEnd(spans), |text|)
  }

  /** highlight_spans */
  method HighlightSpans(text: string, spans: seq<(int, int)>) returns (r: string)
    ensures r == Highlighted(text, spans, "<mark>", "</mark>")
  {
    var previousEnd := 0;
    var textParts: seq<string> := [];
    for i := 0 to |spans|
      invariant Concat(textParts) == Rendered(text, spans[..i], "<mark>", "</mark>")
      invariant previousEnd == PrevEnd(spans[..i])
    {
      var (start, end) := spans[i];
      assert spans[..i + 1][..i] == spans[..i];
      var before := Slice(text, previousEnd, start);
      var marked := "<mark>" + Slice(text, start, end) + "</mark>";
      ConcatSnoc(textParts, before);
      textParts := textParts + [before];
      ConcatSnoc(textParts, marked);
      textParts := textParts + [marked];
      previousEnd := end;
    }
    assert spans[..|spans|] == spans;
    ConcatSnoc(textParts, Slice(text, previousEnd, |text|));
    textParts := textParts + [Slice(text, previousEnd, |text|)];
    r := Concat(textParts);
  }

  /** Without spans the text comes back unchanged. */
  lemma HighlightNoSpans(text: string, open: string, close: string)
    ensures Highlighted(text, [], open, close) == text
  {
    assert [] + text[0..|text|] == text;
  }

  /** Spans in order and inside the text: each starts no earlier than the previous one ends, and no later than it ends. */
  predicate Ordered(spans: seq<(int, int)>, n: nat)
    decreases |spans|
  {
    spans == []
    || (var init := spans[..|spans| - 1];
        var span := spans[|spans| - 1];
        Ordered(init, n) && 0 <= PrevEnd(init) <= span.0 <= span.1 <= n)
  }

  /** A slice with bounds inside the sequence is the plain subsequence. */
  lemma SliceIn(s: string, a: int, b: int)
    requires 0 <= a <= b <= |s|
    ensures Slice(s, a, b) == s[a..b]
  {
  }

  /** The last span's rendering is added after the rendering of the ones before. */
  lemma RenderedLast(text: string, spans: seq<(int, int)>, open: string, close: string)
    requires spans != []
    ensures var init := spans[..|spans| - 1];
      var span := spans[|spans| - 1];
      Rendered(text, spans, open, close)
      == Rendered(text, init, open, close) + Slice(text, PrevEnd(init), span.0) + (open + Slice(text, span.0, span.1) + close)
  {
  }

  /** With ordered spans and empty tags, the rendering is the text up to the last span's end. */
  lemma {:induction false} RenderedText(text: string, spans: seq<(int, int)>)
    requires Ordered(spans, |text|)
    ensures 0 <= PrevEnd(spans) <= |text|
    ensures Rendered(text, spans, "", "") == text[..PrevEnd(spans)]
    decreases |spans|
  {
    if spans != [] {
      var init := spans[..|spans| - 1];
      RenderedText(text, init);
      RenderedTextStep(text, spans);
    }
  }

  /** One more ordered span with empty tags extends the rendered prefix to the span's end. */
  lemma RenderedTextStep(text: string, spans: seq<(int, int)>)
    requires Ordered(spans, |text|) && spans != []
    requires var init := spans[..|spans| - 1];
      0 <= PrevEnd(init) <= spans[|spans| - 1].0 && Rendered(text, init, "", "") == text[..PrevEnd(init)]
    ensures 0 <= PrevEnd(spans) <= |text|
    ensures Rendered(text, spans, "", "") == text[..PrevEnd(spans)]
  {
    var n := |spans| - 1;
    var init := spans[..n];
    var span := spans[n];
    var pe := PrevEnd(init);
    assert 0 <= span.0 <= span.1 <= |text|;
    RenderedLast(text, spans, "", "");
    var a := Slice(text, pe, span.0);
    var b := "" + Slice(text, span.0, span.1) + "";
    assert a == text[pe..span.0] by {
      SliceIn(text, pe, span.0);
    }
    assert b == text[span.0..span.1] by {
      SliceIn(text, span.0, span.1);
    }
    assert text[..pe] + a == text[..span.0] by {
      PrefixJoin(text, pe, span.0);
    }
    assert text[..span.0] + b == text[..span.1] by {
      PrefixJoin(text, span.0, span.1);
    }
  }

  /** The characters added by count pairs of tags, tags characters each, as repeated addition. */
  function TagChars(count: nat, tags: nat): nat {
    if count == 0 then 0 else TagChars(count - 1, tags) + tags
  }

  /** TagChars is count * tags. */
  lemma {:induction false} TagCharsMul(count: nat, tags: nat)
    ensures TagChars(count, tags) == count * tags
    decreases count
  {
    if count > 0 {
      TagCharsMul(count - 1, tags);
    }
  }

  /** Whatever the spans, rendering with tags is longer than rendering without them by one open and one close tag per span. */
  lemma {:induction false} RenderedTags(text: string, spans: seq<(int, int)>, open: string, close: string)
    ensures |Rendered(text, spans, open, close)| == |Rendered(text, spans, "", "")| + TagChars(|spans|, |open| + |close|)
    decreases |spans|
  {
    if spans != [] {
      RenderedTags(text, spans[..|spans| - 1], open, close);
      RenderedLast(text, spans, open, close);
      RenderedLast(text, spans, "", "");
    }
  }

  /** For ordered spans inside the text, deleting the inserted tags gives back the original text. */
  lemma HighlightRecovers(text: string, spans: seq<(int, int)>)
    requires Ordered(spans, |text|)
    ensures Highlighted(text, spans, "", "") == text
  {
    RenderedText(text, spans);
    var pe := PrevEnd(spans);
    SliceIn(text, pe, |text|);
    PrefixJoin(text, pe, |text|);
    assert text[pe..|text|] == text[pe..] && text[..|text|] == text;
  }

  /** Whatever the spans, highlighting inserts exactly one open and one close tag per span into the untagged output. */
  lemma HighlightTags(text: string, spans: seq<(int, int)>, open: string, close: string)
    ensures |Highlighted(text, spans, open, close)| == |Highlighted(text, spans, "", "")| + |spans| * (|open| + |close|)
  {
    RenderedTags(text, spans, open, close);
    TagCharsMul(|spans|, |open| + |close|);
  }

  /** For ordered spans inside the text, highlighting adds exactly one open and one close tag per span to the text. */
  lemma HighlightLength(text: string, spans: seq<(int, int)>, open: string, close: string)
    requires Ordered(spans, |text|)
    ensures |Highlighted(text, spans, open, close)| == |text| + |spans| * (|open| + |close|)
  {
    HighlightTags(text, spans, open, close);
    HighlightRecovers(text, spans);
  }

  /** One span inside the text: the text before it, the marked span, the text after it. */
  lemma HighlightOneSpan(text: string, start: int, end: int, open: string, close: string)
    requires 0 <= start <= end <= |text|
    ensures Highlighted(text, [(start, end)], open, close)
         == text[..start] + (open + text[start..end] + close) + text[end..]
  {
    RenderedOne(text, start, end, open, close);
    SliceIn(text, end, |text|);
    assert text[end..|text|] == text[end..];
  }

  /** The single span's rendering: the text before it and the span between the tags. */
  lemma RenderedOne(text: string, start: int, end: int, open: string, close: string)
    requires 0 <= start <= end <= |text|
    ensures Rendered(text, [(start, end)], open, close) == text[..start] + (open + text[start..end] + close)
  {
    var spans := [(start, end)];
    assert spans[..0] == [];
    RenderedLast(text, spans, open, close);
    SliceIn(text, 0, start);
    SliceIn(text, start, end);
    assert text[0..start] == text[..start];
  }
}
