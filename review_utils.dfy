/**
 * get_span_indices: locate a quotation returned by a language model in the page text it was
 * drawn from. The quotation may come back with its line breaks turned into spaces or with
 * other small changes, so the lookup falls back from an exact match, to a match with the
 * page's newlines read as spaces, to matching only the first and the last fifteen characters.
 */
module ReviewUtils {
  import opened Wrappers
  import opened Text

  /** Length of the leading and trailing pieces used by the last fallback. */
  const ChunkLength := 15

  /** span_text[:15] */
  function FirstChunk(s: string): (r: string)
    ensures |r| == if |s| < ChunkLength then |s| else ChunkLength
    ensures StartsWith(s, r)
  {
    if |s| <= ChunkLength then s else s[..ChunkLength]
  }

  /** span_text[-15:] */
  function LastChunk(s: string): (r: string)
    ensures |r| == if |s| < ChunkLength then |s| else ChunkLength
    ensures EndsWith(s, r)
  {
    if |s| <= ChunkLength then s else s[|s| - ChunkLength..]
  }

  /** The page text with every newline read as a space. */
  function NoNewlines(context: string): string {
    ReplaceChar(context, '\n', " ")
  }

  /** get_span_indices: (start, end), or (None, None) when no fallback finds the span. */
  function GetSpanIndices(context: string, spanText: string): (r: (Option<nat>, Option<nat>))
    ensures r.0.Some? <==> r.1.Some?
  {
    if Contains(context, spanText) then
      var start := Find(context, spanText).value;
      (Some(start), Some(start + |spanText|))
    else if Contains(NoNewlines(context), spanText) then
      var start := Find(NoNewlines(context), spanText).value;
      (Some(start), Some(start + |spanText|))
    else
      var first := FirstChunk(spanText);
      var last := LastChunk(spanText);
      if Contains(context, first) && Contains(context, last) then
        (Some(Find(context, first).value), Some(Find(context, last).value + |last|))
      else
        (None, None)
  }

  /** An exact occurrence wins: the first one, and the slice it names is the span itself. */
  lemma SpanExact(context: string, spanText: string)
    requires Contains(context, spanText)
    ensures var r := GetSpanIndices(context, spanText);
      r.0.Some? && r.1.Some? && r.1.value == r.0.value + |spanText| && r.1.value <= |context|
      && context[r.0.value..r.1.value] == spanText
      && forall j :: 0 <= j < r.0.value ==> !OccursAt(context, spanText, j)
  {
  }

  /**
   * Otherwise an occurrence in the text with newlines read as spaces is used; that text is as
   * long as the page, so the indices are inside the page, and the page agrees with the span
   * there except where it has a newline and the span a space.
   */
  lemma SpanWithoutNewlines(context: string, spanText: string)
    requires !Contains(context, spanText) && Contains(NoNewlines(context), spanText)
    ensures var r := GetSpanIndices(context, spanText);
      r.0.Some? && r.1.Some? && r.1.value == r.0.value + |spanText| && r.1.value <= |context|
      && forall k :: r.0.value <= k < r.1.value ==>
           context[k] == spanText[k - r.0.value] || (context[k] == '\n' && spanText[k - r.0.value] == ' ')
  {
    var nonl := NoNewlines(context);
    ReplaceCharAt(context, '\n', " ");
    var start := Find(nonl, spanText).value;
    assert nonl[start..start + |spanText|] == spanText;
    forall k | start <= k < start + |spanText|
      ensures context[k] == spanText[k - start] || (context[k] == '\n' && spanText[k - start] == ' ')
    {
      assert nonl[k] == spanText[k - start];
    }
  }

  /**
   * Failing both, the span is located by its first and its last fifteen characters: start is
   * where the leading piece first occurs and end is just past the first occurrence of the trailing one.
   */
  lemma SpanByChunks(context: string, spanText: string)
    requires !Contains(context, spanText) && !Contains(NoNewlines(context), spanText)
    requires Contains(context, FirstChunk(spanText)) && Contains(context, LastChunk(spanText))
    ensures var r := GetSpanIndices(context, spanText);
      var first, last := FirstChunk(spanText), LastChunk(spanText);
      r.0.Some? && r.1.Some?
      && OccursAt(context, first, r.0.value)
      && (forall j :: 0 <= j < r.0.value ==> !OccursAt(context, first, j))
      && r.1.value >= |last| && OccursAt(context, last, r.1.value - |last|)
      && (forall j :: 0 <= j < r.1.value - |last| ==> !OccursAt(context, last, j))
  {
  }

  /** When no fallback applies, neither index is set. */
  lemma SpanNotFound(context: string, spanText: string)
    ensures GetSpanIndices(context, spanText) == (None, None)
        <==> !Contains(context, spanText) && !Contains(NoNewlines(context), spanText)
             && !(Contains(context, FirstChunk(spanText)) && Contains(context, LastChunk(spanText)))
  {
  }

  /** A span with its line break turned into a space is still found, with indices into the page. */
  lemma SpanExamples()
    ensures GetSpanIndices("xab", "ab") == (Some(1), Some(3))
    ensures GetSpanIndices("a\nb", "a b") == (Some(0), Some(3))
  {
    var x := "xab";
    assert x[0..2][0] == 'x';
    assert x[1..3] == "ab" by {
      assert x[1..3][0] == 'a' && x[1..3][1] == 'b';
    }
    var c := "a\nb";
    assert c[0..3][1] == '\n';
    var nonl := NoNewlines(c);
    assert nonl == "a b" by {
      assert c[1..] == "\nb" && c[1..][1..] == "b" && c[1..][1..][1..] == [];
      assert ReplaceChar(c[1..][1..], '\n', " ") == "b";
      assert ReplaceChar(c[1..], '\n', " ") == " b";
    }
    assert nonl[0..3] == "a b";
  }
}
