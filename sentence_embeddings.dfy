/**
 * validate_sentence_corpus: the checks run on a sentence corpus CSV before embeddings are
 * computed for it. The file is abstracted to whether it exists, its header (csv.DictReader's
 * fieldnames) and how many data rows follow the header.
 */
module SentenceEmbeddings {
  import opened Wrappers
  import opened Text
  import opened Sorting
  import BaseInput

  /** An existing corpus file: its header and the number of data rows. */
  datatype CorpusFile = CorpusFile(fieldnames: seq<string>, dataRows: nat)

  /** FileNotFoundError and ValueError, with their messages. */
  datatype CorpusError = FileNotFound(message: string) | InvalidCorpus(message: string)

  const NoSentencesMessage := "No sentences found in the corpus file"

  /** The names in required, in order, that the header lacks. */
  function Absent(required: seq<string>, header: seq<string>): (r: seq<string>)
    ensures forall c :: c in r <==> c in required && c !in header
  {
    if required == [] then []
    else (if required[0] in header then [] else [required[0]]) + Absent(required[1..], header)
  }

  /** set(names) as a sequence: each name once, at its first occurrence. */
  function Distinct(names: seq<string>): (r: seq<string>)
    ensures forall c :: c in r <==> c in names
    ensures forall i, j :: 0 <= i < j < |r| ==> r[i] != r[j]
    decreases |names|
  {
    if names == [] then []
    else
      var rest := Distinct(names[..|names| - 1]);
      var last := names[|names| - 1];
      assert forall c :: c in names <==> c in names[..|names| - 1] || c == last;
      if last in rest then rest else rest + [last]
  }

  /** repr of a str, for names without quotes, backslashes or unprintable characters. */
  function Repr(s: string): string {
    "'" + s + "'"
  }

  /** repr of a list of str: "['a', 'b']". */
  function ListRepr(items: seq<string>): string {
    "[" + Join(", ", seq(|items|, i requires 0 <= i < |items| => Repr(items[i]))) + "]"
  }

  /** sorted(required_columns - found_columns) */
  function MissingColumns(header: seq<string>): seq<string> {
    Sort(Absent(BaseInput.FieldNames, header), StrLe)
  }

  /** sorted(found_columns) */
  function FoundColumns(header: seq<string>): seq<string> {
    Sort(Distinct(header), StrLe)
  }

  function MissingMessage(header: seq<string>): string {
    "CSV file is missing required columns: " + ListRepr(MissingColumns(header)) + ". "
    + "Found columns: " + ListRepr(FoundColumns(header))
    + "Please ensure the corpus file is created using the corpus creation process."
  }

  /** validate_sentence_corpus: None when the corpus passes, else the error it raises. */
  function ValidateSentenceCorpus(path: string, file: Option<CorpusFile>): Option<CorpusError> {
    match file
    case None => Some(FileNotFound("Sentence corpus file not found: " + path))
    case Some(f) =>
      if MissingColumns(f.fieldnames) != [] then Some(InvalidCorpus(MissingMessage(f.fieldnames)))
      else if f.dataRows == 0 then Some(InvalidCorpus(NoSentencesMessage))
      else None
  }

  /** Every required column is in the header. */
  predicate HasRequiredColumns(header: seq<string>) {
    forall c :: c in BaseInput.FieldNames ==> c in header
  }

  /** The missing columns are exactly the required ones the header lacks, each once, in sorted order. */
  lemma MissingColumnsSpec(header: seq<string>)
    ensures forall c :: c in MissingColumns(header) <==> c in BaseInput.FieldNames && c !in header
    ensures SortedBy(MissingColumns(header), StrLe)
    ensures MissingColumns(header) == [] <==> HasRequiredColumns(header)
  {
    var absent := Absent(BaseInput.FieldNames, header);
    var missing := MissingColumns(header);
    assert forall c :: c in missing <==> c in multiset(missing);
    assert forall c :: c in absent <==> c in multiset(absent);
    StrLeTotalPreorder();
    SortSorted(absent, StrLe);
    if !HasRequiredColumns(header) {
      var c :| c in BaseInput.FieldNames && c !in header;
      assert c in missing;
    }
  }

  /**
   * The corpus passes exactly when the file exists, its header has every required column,
   * and at least one data row follows; extra columns are allowed.
   */
  lemma ValidateSpec(path: string, file: Option<CorpusFile>)
    ensures ValidateSentenceCorpus(path, file).None?
        <==> file.Some? && HasRequiredColumns(file.value.fieldnames) && file.value.dataRows > 0
  {
    if file.Some? {
      MissingColumnsSpec(file.value.fieldnames);
    }
  }

  /** A missing file is reported before anything else. */
  lemma NotFoundFirst(path: string)
    ensures ValidateSentenceCorpus(path, None) == Some(FileNotFound("Sentence corpus file not found: " + path))
  {
  }

  /** Missing columns are reported before an empty corpus, and list the missing names. */
  lemma MissingBeforeEmpty(path: string, f: CorpusFile)
    requires !HasRequiredColumns(f.fieldnames)
    ensures ValidateSentenceCorpus(path, Some(f)) == Some(InvalidCorpus(MissingMessage(f.fieldnames)))
  {
    assert MissingColumns(f.fieldnames) != [] by {
      MissingColumnsSpec(f.fieldnames);
    }
  }

  /** With all required columns present, further columns never change the outcome. */
  lemma ExtraColumns(path: string, header: seq<string>, extra: seq<string>, rows: nat)
    requires HasRequiredColumns(header)
    ensures ValidateSentenceCorpus(path, Some(CorpusFile(header + extra, rows)))
         == ValidateSentenceCorpus(path, Some(CorpusFile(header, rows)))
  {
    MissingColumnsSpec(header);
    MissingColumnsSpec(header + extra);
  }
}
