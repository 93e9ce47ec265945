/**
 * find_quotes from the quotation notebook: spans of the form „…“ or „…" found by
 * re.finditer(r"„[^“\"]+[“\"]", text), each whited out in a working copy of the text.
 */
module FindQuotes {
  import opened Wrappers

  const OpenQuote := '„'

  /** The closing characters of the pattern: “ or ". */
  predicate IsCloseQuote(c: char) {
    c == '“' || c == '"'
  }

  /** The first closing quote at or after i. */
  function NextClose(text: string, i: nat): (r: Option<nat>)
    ensures r.Some? ==> i <= r.value < |text| && IsCloseQuote(text[r.value])
    decreases |text| - i
  {
    if i >= |text| then None
    else if IsCloseQuote(text[i]) then Some(i)
    else NextClose(text, i + 1)
  }

  /**
   * The end of the regex match starting at p, if one does. [^“"]+ takes every character up to
   * the first closing quote, which must come at least two characters after the „.
   */
  function MatchEnd(text: string, p: nat): Option<nat> {
    if p < |text| && text[p] == OpenQuote then
      match NextClose(text, p + 1)
      case None => None
      case Some(q) => if q > p + 1 then Some(q + 1) else None
    else None
  }

  /** re.finditer from position i on: leftmost matches, the search resuming at each match's end. */
  function MatchesFrom(text: string, i: nat): seq<(nat, nat)>
    decreases |text| - i
  {
    if i >= |text| then []
    else
      match MatchEnd(text, i)
      case Some(e) => [(i, e)] + MatchesFrom(text, e)
      case None => MatchesFrom(text, i + 1)
  }

  function Matches(text: string): seq<(nat, nat)> {
    MatchesFrom(text, 0)
  }

  /** text[s:e] is a quotation: „, then at least one character other than “ and ", then “ or ". */
  predicate QuoteAt(text: string, from: nat, span: (nat, nat)) {
    var (s, e) := span;
    from <= s && s + 2 < e <= |text|
    && text[s] == OpenQuote && IsCloseQuote(text[e - 1])
    && forall k :: s < k < e - 1 ==> !IsCloseQuote(text[k])
  }

  /** Every span is a quotation at or after from, and each starts after the previous one ends. */
  predicate SoundQuotes(text: string, from: nat, r: seq<(nat, nat)>) {
    (forall k :: 0 <= k < |r| ==> QuoteAt(text, from, r[k]))
    && (forall k :: 0 < k < |r| ==> r[k - 1].1 <= r[k].0)
  }

  /** A match found by MatchEnd is a quotation. */
  lemma MatchEndQuote(text: string, p: nat)
    requires MatchEnd(text, p).Some?
    ensures QuoteAt(text, p, (p, MatchEnd(text, p).value))
  {
    var q := NextClose(text, p + 1).value;
    NextCloseFirst(text, p + 1);
    assert forall k :: p + 1 <= k < q ==> !IsCloseQuote(text[k]);
  }

  /** Nothing between i and the first closing quote is a closing quote. */
  lemma {:induction false} NextCloseFirst(text: string, i: nat)
    ensures NextClose(text, i).Some? ==> forall k :: i <= k < NextClose(text, i).value ==> !IsCloseQuote(text[k])
    ensures NextClose(text, i).None? ==> forall k :: i <= k < |text| ==> !IsCloseQuote(text[k])
    decreases |text| - i
  {
    if i < |text| && !IsCloseQuote(text[i]) {
      NextCloseFirst(text, i + 1);
    }
  }

  /** A quotation before next, followed by sound quotations from next on, is sound from from on. */
  lemma QuotesCons(text: string, from: nat, next: nat, head: (nat, nat), rest: seq<(nat, nat)>)
    requires QuoteAt(text, from, head) && head.1 <= next
    requires SoundQuotes(text, next, rest)
    ensures SoundQuotes(text, from, [head] + rest)
  {
    var r := [head] + rest;
    forall k | 0 <= k < |r| ensures QuoteAt(text, from, r[k]) {
      if k > 0 {
        assert r[k] == rest[k - 1];
      }
    }
    forall k | 0 < k < |r| ensures r[k - 1].1 <= r[k].0 {
      assert r[k] == rest[k - 1];
      if k > 1 {
        assert r[k - 1] == rest[k - 2];
      }
    }
  }

  /** Every match is a quotation, and the matches come in order without overlapping. */
  lemma {:induction false} MatchesFromSound(text: string, i: nat)
    ensures SoundQuotes(text, i, MatchesFrom(text, i))
    decreases |text| - i
  {
    if i < |text| {
      match MatchEnd(text, i)
      case Some(e) =>
        MatchEndQuote(text, i);
        MatchesFromSound(text, e);
        QuotesCons(text, i, e, (i, e), MatchesFrom(text, e));
      case None =>
        MatchesFromSound(text, i + 1);
        var rest := MatchesFrom(text, i + 1);
        forall k | 0 <= k < |rest| ensures QuoteAt(text, i, rest[k]) {
          assert QuoteAt(text, i + 1, rest[k]);
        }
    }
  }

  /** The matches of the whole text. */
  lemma MatchesSound(text: string)
    ensures SoundQuotes(text, 0, Matches(text))
  {
    MatchesFromSound(text, 0);
  }

  /** A quotation starting at p is what MatchEnd reports there. */
  lemma {:induction false} QuoteMatchEnd(text: string, p: nat, e: nat)
    requires QuoteAt(text, p, (p, e))
    ensures MatchEnd(text, p) == Some(e)
  {
    NextCloseAt(text, p + 1, e - 1);
  }

  /** When no closing quote lies in [i, q) and one is at q, it is the next one from i. */
  lemma {:induction false} NextCloseAt(text: string, i: nat, q: nat)
    requires i <= q < |text| && IsCloseQuote(text[q])
    requires forall k :: i <= k < q ==> !IsCloseQuote(text[k])
    ensures NextClose(text, i) == Some(q)
    decreases q - i
  {
    if i < q {
      NextCloseAt(text, i + 1, q);
    }
  }

  /**
   * The search misses no quotation: one that starts at or after i and before every reported
   * match begins is itself the first reported match.
   */
  lemma {:induction false} MatchesFromComplete(text: string, i: nat, p: nat, e: nat)
    requires i <= p && QuoteAt(text, p, (p, e))
    requires forall k :: i <= k < p ==> MatchEnd(text, k).None?
    ensures MatchesFrom(text, i) != [] && MatchesFrom(text, i)[0] == (p, e)
    decreases p - i
  {
    QuoteMatchEnd(text, p, e);
    if i < p {
      MatchesFromComplete(text, i + 1, p, e);
    }
  }

  /** s[:start] + " " * (end - start) + s[end:] */
  function WhiteOut(s: string, start: nat, end: nat): (r: string)
    requires start <= end <= |s|
    ensures |r| == |s|
    ensures forall k :: 0 <= k < |s| ==> r[k] == if start <= k < end then ' ' else s[k]
  {
    s[..start] + seq(end - start, _ => ' ') + s[end..]
  }

  /** Inside a span of spans. */
  predicate Covered(spans: seq<(nat, nat)>, k: nat) {
    exists j :: 0 <= j < |spans| && spans[j].0 <= k < spans[j].1
  }

  /** Every span lies within the text. */
  predicate Fits(text: string, spans: seq<(nat, nat)>) {
    forall j :: 0 <= j < |spans| ==> spans[j].0 <= spans[j].1 <= |text|
  }

  /** The text with each of the spans whited out in turn. */
  function WhitedOut(text: string, spans: seq<(nat, nat)>): (r: string)
    requires Fits(text, spans)
    ensures |r| == |text|
  {
    if spans == [] then text
    else
      var init := spans[..|spans| - 1];
      var last := spans[|spans| - 1];
      assert Fits(text, init) by {
        forall j | 0 <= j < |init| ensures init[j].0 <= init[j].1 <= |text| {
          assert init[j] == spans[j];
        }
      }
      WhiteOut(WhitedOut(text, init), last.0, last.1)
  }

  /** Whited out are exactly the characters some span covers; every other one is kept. */
  lemma {:induction false} WhitedOutAt(text: string, spans: seq<(nat, nat)>, k: nat)
    requires Fits(text, spans)
    requires k < |text|
    ensures WhitedOut(text, spans)[k] == if Covered(spans, k) then ' ' else text[k]
  {
    if spans != [] {
      var init := spans[..|spans| - 1];
      var last := spans[|spans| - 1];
      assert Fits(text, init) by {
        forall j | 0 <= j < |init| ensures init[j].0 <= init[j].1 <= |text| {
          assert init[j] == spans[j];
        }
      }
      WhitedOutAt(text, init, k);
      if Covered(spans, k) {
        var j :| 0 <= j < |spans| && spans[j].0 <= k < spans[j].1;
        if j < |spans| - 1 {
          assert init[j] == spans[j];
        }
      }
      if Covered(init, k) {
        var j :| 0 <= j < |init| && init[j].0 <= k < init[j].1;
        assert spans[j] == init[j];
      }
    }
  }

  /** Sound quotations lie within the text. */
  lemma SoundFits(text: string, from: nat, r: seq<(nat, nat)>)
    requires SoundQuotes(text, from, r)
    ensures Fits(text, r)
  {
    forall j | 0 <= j < |r| ensures r[j].0 <= r[j].1 <= |text| {
      assert QuoteAt(text, from, r[j]);
    }
  }

  /** One more span whited out. */
  lemma WhitedOutSnoc(text: string, spans: seq<(nat, nat)>, span: (nat, nat))
    requires Fits(text, spans) && span.0 <= span.1 <= |text|
    ensures Fits(text, spans + [span])
    ensures WhitedOut(text, spans + [span]) == WhiteOut(WhitedOut(text, spans), span.0, span.1)
  {
    var all := spans + [span];
    assert all[..|all| - 1] == spans;
    forall j | 0 <= j < |all| ensures all[j].0 <= all[j].1 <= |text| {
      if j < |spans| {
        assert all[j] == spans[j];
      }
    }
  }

  /**
   * find_quotes: the matches, in order, and the working copy of the text with each match
   * whited out (find_quotes itself returns only the matches). The matches are taken from the
   * original text: re.finditer scans the string it was given, which whiting out never changes.
   */
  method FindQuotes(text: string) returns (results: seq<(nat, nat)>, searchText: string)
    ensures results == Matches(text)
    ensures SoundQuotes(text, 0, results)
    ensures |searchText| == |text|
    ensures forall k :: 0 <= k < |text| ==> searchText[k] == if Covered(results, k) then ' ' else text[k]
  {
    searchText := text;
    results := [];
    var matches := Matches(text);
    MatchesSound(text);
    SoundFits(text, 0, matches);
    for i := 0 to |matches|
      invariant results == matches[..i]
      invariant Fits(text, results)
      invariant searchText == WhitedOut(text, results)
    {
      var (start, end) := matches[i];
      assert matches[..i + 1] == results + [(start, end)];
      WhitedOutSnoc(text, results, (start, end));
      results := results + [(start, end)];
      searchText := WhiteOut(searchText, start, end);
    }
    assert matches[..|matches|] == matches;
    forall k | 0 <= k < |text| ensures searchText[k] == if Covered(results, k) then ' ' else text[k] {
      WhitedOutAt(text, results, k);
    }
  }
}
