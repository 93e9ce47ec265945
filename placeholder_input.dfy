/**
 * The early placeholder reader: a sentence is every hundredth character, and a reader
 * produces sentences from the text chunks of its subclass.
 */
module PlaceholderInput {
  import opened Wrappers
  import opened Text
  import BaseInput

  /** segment: text[::100], the characters at positions 0, 100, 200, ... */
  function Segment(text: string): (r: string)
    ensures |r| == (|text| + 99) / 100
    ensures forall k :: 0 <= k < |r| ==> r[k] == text[100 * k]
    decreases |text|
  {
    if text == [] then []
    else if |text| <= 100 then [text[0]]
    else
      var rest := Segment(text[100..]);
      assert forall k :: 1 <= k < |rest| + 1 ==> rest[k - 1] == text[100..][100 * (k - 1)] == text[100 * k];
      [text[0]] + rest
  }

  /** file_id: the input file's name. */
  function FileId(inputFile: string): string {
    BaseInput.Name(inputFile)
  }

  /** get_text: one chunk, the whole file content. */
  function GetText(content: string): (chunks: seq<string>)
    ensures |chunks| == 1 && chunks[0] == content
  {
    [content]
  }

  /**
   * The records for the sentences of the chunks, in order: record j holds the j-th sentence
   * of all the chunks' sentences taken one chunk after another, and the file id.
   */
  function SentenceRecords(chunks: seq<string>, fileId: string): (out: seq<map<string, string>>)
    ensures |out| == SegmentCount(chunks)
    ensures forall j :: 0 <= j < |out| ==>
      out[j].Keys == {"text", "file_id"} && out[j]["file_id"] == fileId && out[j]["text"] == [Sentences(chunks)[j]]
  {
    if chunks == [] then []
    else
      var init := chunks[..|chunks| - 1];
      var sents := Segment(chunks[|chunks| - 1]);
      var before := SentenceRecords(init, fileId);
      var more := seq(|sents|, k requires 0 <= k < |sents| => map["text" := [sents[k]], "file_id" := fileId]);
      assert forall j :: |before| <= j < |before| + |more| ==> Sentences(chunks)[j] == sents[j - |before|];
      before + more
  }

  function SegmentCount(chunks: seq<string>): nat {
    if chunks == [] then 0 else SegmentCount(chunks[..|chunks| - 1]) + |Segment(chunks[|chunks| - 1])|
  }

  /** The sentences of all chunks, one chunk after another. */
  function Sentences(chunks: seq<string>): (s: string)
    ensures |s| == SegmentCount(chunks)
  {
    if chunks == [] then [] else Sentences(chunks[..|chunks| - 1]) + Segment(chunks[|chunks| - 1])
  }

  /** A reader: the plain text reader has no get_text_chunks; the TEI reader yields page strings. */
  datatype Reader = PlainReader | ChunkedReader(chunks: seq<string>)

  datatype ReaderError = MissingAttribute(name: string)

  /** get_sentences: calls get_text_chunks, which the plain reader does not define. */
  function GetSentences(reader: Reader, inputFile: string): (r: Result<seq<map<string, string>>, ReaderError>)
    ensures reader.PlainReader? <==> r == Err(MissingAttribute("get_text_chunks"))
    ensures reader.ChunkedReader? ==> r.Ok? && |r.value| == SegmentCount(reader.chunks)
  {
    match reader
    case PlainReader => Err(MissingAttribute("get_text_chunks"))
    case ChunkedReader(chunks) => Ok(SentenceRecords(chunks, FileId(inputFile)))
  }

  /** One sentence per started block of a hundred characters; none for empty text. */
  lemma SegmentLength(text: string)
    ensures (|Segment(text)| == 0) == (text == [])
    ensures 100 * (|Segment(text)| - 1) < |text| <= 100 * |Segment(text)|
  {
  }
}
