/** The plain-text reader: the whole file is one chunk. */
module TextInput {
  import opened Wrappers
  import opened Text
  import opened BaseInput

  /** get_text: a single chunk holding the whole file content under "text" and nothing else. */
  function GetText(content: string): (chunks: seq<Record>)
    ensures |chunks| == 1 && chunks[0].Keys == {"text"} && chunks[0]["text"] == Str(content)
  {
    [map["text" := Str(content)]]
  }

  /** Importing the module registers TextInput for ".txt"; other extensions are untouched. */
  method Register(registry: Registry)
    requires registry.Valid()
    modifies registry
    ensures registry.Valid()
    ensures registry.Get(".txt") == Some(TextInputClass)
    ensures forall t :: t != ".txt" ==> registry.Get(t) == old(registry.Get(t))
    ensures forall p :: Suffix(p) == ".txt" ==> registry.Init(p) == Ok(FileInput(TextInputClass, p))
  {
    registry.RegisterInput(TextInputClass);
  }

  /**
   * The sentences of a text file are exactly the segmenter's sentences of its content,
   * numbered from 0, with only the text, file and sent_index keys.
   */
  lemma TextSentences(content: string, file: string, segment: Segmenter)
    ensures var out := Sentences(GetText(content), file, segment);
      |out| == |segment(content)| &&
      forall j :: 0 <= j < |out| ==>
        out[j] == map["text" := Str(segment(content)[j].1), "file" := Str(file), "sent_index" := Num(j)]
  {
    var chunks := GetText(content);
    assert chunks[..0] == [];
    assert Offset(chunks, 0, segment) == 0;
    SentencesLength(chunks, file, segment);
    assert SentenceCount(chunks, segment) == |segment(content)| by {
      assert chunks[..|chunks| - 1] == [];
    }
    var out := Sentences(chunks, file, segment);
    forall j | 0 <= j < |out|
      ensures out[j] == map["text" := Str(segment(content)[j].1), "file" := Str(file), "sent_index" := Num(j)]
    {
      SentenceAt(chunks, file, segment, 0, j);
      PlainRecord(content, segment(content)[j].1, file, j);
    }
  }

  lemma PlainRecord(content: string, sentence: string, file: string, index: nat)
    ensures SentenceRecord(map["text" := Str(content)], sentence, file, index)
         == map["text" := Str(sentence), "file" := Str(file), "sent_index" := Num(index)]
  {
  }
}
