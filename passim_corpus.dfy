/**
 * convert_texts_to_passim_corpus: turning text records into the records Passim reads. A
 * record keeps its fields, gains "id" from the chosen id field, and gets its text cleaned;
 * each input directory's name becomes a series name.
 */
module PassimCorpus {
  import opened Wrappers
  import opened Text
  import BaseInput

  /** A JSON record; every value is text here. */
  type Record = map<string, string>

  /**
   * clean_text after ftfy.fix_text: every run of whitespace becomes one space. fix_text is
   * not part of this model.
   */
  function CleanText(text: string): (r: string)
    ensures forall i :: 0 <= i < |r| - 1 ==> !(IsSpace(r[i]) && IsSpace(r[i + 1]))
  {
    CollapseSpaces(text)
  }

  /** No two whitespace characters in a row, and every whitespace character is a plain space. */
  predicate Collapsed(s: string) {
    (forall i :: 0 <= i < |s| - 1 ==> !(IsSpace(s[i]) && IsSpace(s[i + 1])))
    && (forall i :: 0 <= i < |s| && IsSpace(s[i]) ==> s[i] == ' ')
  }

  /** Cleaning keeps every non-whitespace character, in order. */
  lemma {:induction false} CleanTextKeepsText(text: string)
    ensures NonSpace(CleanText(text)) == NonSpace(text)
    decreases |text|
  {
    if text != [] {
      if !IsSpace(text[0]) {
        CleanTextKeepsText(text[1..]);
        assert CleanText(text) == [text[0]] + CleanText(text[1..]);
        NonSpaceAppend([text[0]], CleanText(text[1..]));
      } else {
        var n := SpaceRun(text);
        CleanTextKeepsText(text[n..]);
        assert CleanText(text) == " " + CleanText(text[n..]);
        NonSpaceAppend(" ", CleanText(text[n..]));
        assert text == text[..n] + text[n..];
        NonSpaceAppend(text[..n], text[n..]);
        NonSpaceOfSpaces(text[..n]);
        assert NonSpace(" ") == [];
      }
    }
  }

  /** Already clean text is left as it is. */
  lemma {:induction false} CleanTextFixpoint(s: string)
    requires Collapsed(s)
    ensures CleanText(s) == s
    decreases |s|
  {
    if s != [] {
      assert Collapsed(s[1..]) by {
        forall i | 0 <= i < |s| - 2 ensures !(IsSpace(s[1..][i]) && IsSpace(s[1..][i + 1])) {
          assert s[1..][i] == s[i + 1] && s[1..][i + 1] == s[i + 2];
        }
      }
      CleanTextFixpoint(s[1..]);
      if IsSpace(s[0]) {
        assert SpaceRun(s) == 1 by {
          assert |s| > 1 ==> !IsSpace(s[1]);
          assert AllSpace(s[..1]);
        }
        assert s == " " + s[1..];
      } else {
        assert s == [s[0]] + s[1..];
      }
    }
  }

  /** Cleaning twice is cleaning once. */
  lemma CleanTextIdempotent(text: string)
    ensures CleanText(CleanText(text)) == CleanText(text)
  {
    CleanTextFixpoint(CleanText(text));
  }

  /** transform_record: the Passim record, or the ValueError message. */
  function TransformRecord(record: Record, idField: string, preserveFields: bool, corpusFromField: Option<string>): Result<Record, string> {
    if idField !in record then Err("Record missing required id_field '" + idField + "'")
    else if preserveFields && idField != "id" && "id" in record then Err("Record already has 'id' while id_field != 'id'")
    else
      var base: Record := if preserveFields then record else map[];
      var withId := base["id" := record[idField]];
      if corpusFromField.Some? && corpusFromField.value != [] && corpusFromField.value !in record then
        Err("Record missing corpus_from_field '" + corpusFromField.value + "'")
      else
        var text := if "text" in record then record["text"] else "";
        Ok(withId["text" := CleanText(text)])
  }

  /** The conditions under which transform_record raises. */
  predicate Rejected(record: Record, idField: string, preserveFields: bool, corpusFromField: Option<string>) {
    idField !in record
    || (preserveFields && idField != "id" && "id" in record)
    || (corpusFromField.Some? && corpusFromField.value != [] && corpusFromField.value !in record)
  }

  /** transform_record raises exactly when the id field is missing, "id" would be overwritten, or the corpus field is missing. */
  lemma TransformErrors(record: Record, idField: string, preserveFields: bool, corpusFromField: Option<string>)
    ensures TransformRecord(record, idField, preserveFields, corpusFromField).Err?
        <==> Rejected(record, idField, preserveFields, corpusFromField)
    ensures idField !in record ==>
      TransformRecord(record, idField, preserveFields, corpusFromField) == Err("Record missing required id_field '" + idField + "'")
  {
  }

  /**
   * An accepted record: "id" is the id field's value, "text" the cleaned text (empty when the
   * record has none), every other field is copied when fields are preserved, and nothing else
   * is added.
   */
  lemma TransformFields(record: Record, idField: string, preserveFields: bool, corpusFromField: Option<string>)
    requires !Rejected(record, idField, preserveFields, corpusFromField)
    ensures var r := TransformRecord(record, idField, preserveFields, corpusFromField);
      r.Ok?
      && "id" in r.value && r.value["id"] == record[idField]
      && "text" in r.value && r.value["text"] == CleanText(if "text" in record then record["text"] else "")
      && (preserveFields ==> r.value.Keys == record.Keys + {"id", "text"})
      && (preserveFields ==> forall k :: k in record && k != "id" && k != "text" ==> r.value[k] == record[k])
      && (!preserveFields ==> r.value.Keys == {"id", "text"})
  {
  }

  /** The directory name, lowercased, with "_texts" and then "texts" removed. */
  function StripTexts(name: string): string {
    ReplaceAll(ReplaceAll(Lower(name), "_texts", ""), "texts", "")
  }

  /** The series name for a directory path, falling back when nothing is left of its name. */
  function SeriesName(dirPath: string, fallback: string): (r: string)
    ensures fallback != [] ==> r != []
  {
    var s := StripTexts(BaseInput.Name(dirPath));
    if s == [] then fallback else s
  }

  /** A directory name without "texts" (in any case) just becomes lowercase. */
  lemma SeriesNamePlain(name: string)
    requires !Contains(Lower(name), "texts") && !Contains(Lower(name), "_texts")
    ensures StripTexts(name) == Lower(name)
  {
    ReplaceAbsent(Lower(name), "_texts", "");
    ReplaceAbsent(Lower(name), "texts", "");
  }
}
