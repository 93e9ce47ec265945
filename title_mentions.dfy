/**
 * compile_title_mention_annotations: classify each manual annotation row by whether its tags
 * mention Das Kapital or the Communist Manifesto, and keep the rows that mention either.
 * Rows are dictionaries from column name to cell text; reading and writing the CSV files is
 * outside the model.
 */
module TitleMentions {
  import opened Wrappers
  import opened Text

  /** The three answers of has_title_mention. */
  datatype Mention = Yes | Maybe | No

  /** The string has_title_mention returns. */
  function MentionName(m: Mention): string {
    match m
    case Yes => "Yes"
    case Maybe => "Maybe"
    case No => "No"
  }

  const TitleReference := "Title Reference"
  const Kapital := "Kapital"
  const Manifest := "Manifest der Kommunistischen Partei"

  /** has_title_mention */
  function HasTitleMention(tags: seq<string>, title: string): Mention {
    if title !in tags then No
    else if TitleReference in tags then Yes
    else if |tags| == 1 then Maybe
    else No
  }

  /**
   * "Yes" exactly when both the title and "Title Reference" are tags; "Maybe" exactly when the
   * title is the only tag (and is not "Title Reference" itself); "No" in every other case.
   */
  lemma TitleMentionCases(tags: seq<string>, title: string)
    ensures HasTitleMention(tags, title) == Yes <==> title in tags && TitleReference in tags
    ensures HasTitleMention(tags, title) == Maybe <==> tags == [title] && title != TitleReference
    ensures HasTitleMention(tags, title) == No <==> title !in tags || (TitleReference !in tags && tags != [title])
  {
    if HasTitleMention(tags, title) == Maybe {
      assert |tags| == 1 && tags[0] == title;
      assert tags == [title];
    }
  }

  /** The three answers are distinct strings. */
  lemma MentionNamesDistinct(a: Mention, b: Mention)
    ensures MentionName(a) == MentionName(b) <==> a == b
  {
    if a != b {
      assert MentionName(a)[0] != MentionName(b)[0] || |MentionName(a)| != |MentionName(b)|;
    }
  }

  type Row = map<string, string>

  /** How a row stops the generator: a missing column, an anchor without "char-offset:", or an offset that is not an integer. */
  datatype RowError = MissingColumn(column: string) | NoCharOffset | BadOffset(text: string)

  datatype TitleMention = TitleMention(
    uuid: string, file: string, startIdx: int, endIdx: int,
    mentionsKapital: Mention, mentionsManifest: Mention)

  const OffsetMarker := "char-offset:"

  /** anchor.split("char-offset:", 1)[1]: the text after the first marker, or None where indexing fails. */
  function AfterMarker(anchor: string): (r: Option<string>)
    ensures r.Some? ==> exists i :: OccursAt(anchor, OffsetMarker, i) && r.value == anchor[i + |OffsetMarker|..]
    ensures r.None? <==> !Contains(anchor, OffsetMarker)
  {
    match Find(anchor, OffsetMarker)
    case None => None
    case Some(i) => Some(anchor[i + |OffsetMarker|..])
  }

  /** int(row["ANCHOR"].split("char-offset:", 1)[1]) */
  function StartIndex(anchor: string): Result<int, RowError> {
    match AfterMarker(anchor)
    case None => Err(NoCharOffset)
    case Some(rest) =>
      match ParseInt(rest)
      case None => Err(BadOffset(rest))
      case Some(v) => Ok(v)
  }

  /** The body of the row loop: Ok(Some(mention)) for a yielded row, Ok(None) for a skipped one. */
  function RowMention(row: Row, stem: string): Result<Option<TitleMention>, RowError> {
    if "TAGS" !in row then Err(MissingColumn("TAGS"))
    else
      var tags := SplitOn(row["TAGS"], '|');
      var kapital := HasTitleMention(tags, Kapital);
      var manifest := HasTitleMention(tags, Manifest);
      if kapital == No && manifest == No then Ok(None)
      else if "ANCHOR" !in row then Err(MissingColumn("ANCHOR"))
      else
        match StartIndex(row["ANCHOR"])
        case Err(e) => Err(e)
        case Ok(start) =>
          if "QUOTE_TRANSCRIPTION" !in row then Err(MissingColumn("QUOTE_TRANSCRIPTION"))
          else if "UUID" !in row then Err(MissingColumn("UUID"))
          else
            var end := start + |row["QUOTE_TRANSCRIPTION"]|;
            Ok(Some(TitleMention(row["UUID"], stem, start, end, kapital, manifest)))
  }

  /**
   * get_title_mentions: the mentions yielded, in row order, and the error that stopped the
   * generator, if any. Mentions yielded before an error are kept, as a consumer of the
   * generator has already received them.
   */
  function TitleMentions(rows: seq<Row>, stem: string): (r: (seq<TitleMention>, Option<RowError>))
    decreases |rows|
  {
    if rows == [] then ([], None)
    else
      match RowMention(rows[0], stem)
      case Err(e) => ([], Some(e))
      case Ok(None) => TitleMentions(rows[1..], stem)
      case Ok(Some(m)) =>
        var rest := TitleMentions(rows[1..], stem);
        ([m] + rest.0, rest.1)
  }

  /** A yielded mention. */
  predicate Yielded(m: TitleMention, stem: string) {
    (m.mentionsKapital != No || m.mentionsManifest != No) && m.file == stem && m.startIdx <= m.endIdx
  }

  /**
   * A row is yielded exactly when its tags mention either title, with the row's uuid, the
   * offset after "char-offset:" as start and the quotation's length added for the end.
   */
  lemma RowMentionSpec(row: Row, stem: string)
    requires "TAGS" in row && "ANCHOR" in row && "QUOTE_TRANSCRIPTION" in row && "UUID" in row
    requires StartIndex(row["ANCHOR"]).Ok?
    ensures var tags := SplitOn(row["TAGS"], '|');
      var r := RowMention(row, stem);
      r.Ok?
      && (r.value.Some? <==> HasTitleMention(tags, Kapital) != No || HasTitleMention(tags, Manifest) != No)
      && (r.value.Some? ==>
            Yielded(r.value.value, stem)
            && r.value.value.uuid == row["UUID"]
            && r.value.value.startIdx == StartIndex(row["ANCHOR"]).value
            && r.value.value.endIdx - r.value.value.startIdx == |row["QUOTE_TRANSCRIPTION"]|
            && r.value.value.mentionsKapital == HasTitleMention(tags, Kapital)
            && r.value.value.mentionsManifest == HasTitleMention(tags, Manifest))
  {
  }

  /** Every yielded mention names a title, carries the file stem, and ends no earlier than it starts; at most one per row. */
  lemma {:induction false} TitleMentionsYielded(rows: seq<Row>, stem: string)
    ensures var r := TitleMentions(rows, stem);
      |r.0| <= |rows| && forall k :: 0 <= k < |r.0| ==> Yielded(r.0[k], stem)
    decreases |rows|
  {
    if rows != [] {
      var rest := TitleMentions(rows[1..], stem);
      TitleMentionsYielded(rows[1..], stem);
      match RowMention(rows[0], stem)
      case Err(_) =>
      case Ok(None) =>
      case Ok(Some(m)) =>
        RowYielded(rows[0], stem);
        var ms := [m] + rest.0;
        assert TitleMentions(rows, stem).0 == ms;
        forall k | 0 <= k < |ms| ensures Yielded(ms[k], stem) {
          if k > 0 {
            assert ms[k] == rest.0[k - 1];
          }
        }
    }
  }

  lemma RowYielded(row: Row, stem: string)
    requires RowMention(row, stem).Ok? && RowMention(row, stem).value.Some?
    ensures Yielded(RowMention(row, stem).value.value, stem)
  {
  }

  /**
   * The generator streams: what it yields for the first n rows is a prefix of what it yields
   * for all of them, and if the first n rows already stop it, so do all rows, with the same error.
   */
  lemma {:induction false} TitleMentionsPrefix(rows: seq<Row>, stem: string, n: nat)
    requires n <= |rows|
    ensures var part, all := TitleMentions(rows[..n], stem), TitleMentions(rows, stem);
      part.0 <= all.0 && (part.1.Some? ==> all == part)
    decreases n
  {
    if n > 0 {
      assert rows[..n][1..] == rows[1..][..n - 1];
      TitleMentionsPrefix(rows[1..], stem, n - 1);
    }
  }

  /** A row without a mention of either title is skipped and does not change the output. */
  lemma SkippedRow(row: Row, rows: seq<Row>, stem: string)
    requires "TAGS" in row
    requires var tags := SplitOn(row["TAGS"], '|');
      HasTitleMention(tags, Kapital) == No && HasTitleMention(tags, Manifest) == No
    ensures TitleMentions([row] + rows, stem) == TitleMentions(rows, stem)
  {
    assert ([row] + rows)[1..] == rows;
  }
}
