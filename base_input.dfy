/**
 * The sentence-corpus input layer: a registry from file extension to reader class,
 * the suffix-based factory, and the flattening of text chunks into numbered
 * sentence records.
 */
module BaseInput {
  import opened Wrappers
  import opened Text
  import opened Seqs

  /** A metadata value in a chunk or sentence record; Null is Python's None. */
  datatype Value = Str(s: string) | Num(n: int) | Null

  /** A chunk or sentence dictionary. */
  type Record = map<string, Value>

  /** Kind of text a chunk holds; "text" for body text and "footnote" for notes. */
  datatype SectionType = TextSection | FootnoteSection {
    function Name(): string {
      match this
      case TextSection => "text"
      case FootnoteSection => "footnote"
    }
  }

  /** The sentence segmenter: (character offset, sentence) pairs for a text. */
  type Segmenter = string -> seq<(int, string)>

  /** The reader classes; Custom stands for any other subclass with its own extension. */
  datatype InputClass = TextInputClass | TEIInputClass | ALTOInputClass | CustomInput(name: string, ext: string) {
    function FileType(): string {
      match this
      case TextInputClass => ".txt"
      case TEIInputClass => ".xml"
      case ALTOInputClass => ".zip"
      case CustomInput(_, ext) => ext
    }
  }

  /** An instance of a reader class for one input path. */
  datatype FileInput = FileInput(cls: InputClass, inputFile: string)

  /** Field names of sentences from plain input files. */
  const FieldNames: seq<string> := ["file", "offset", "text"]

  /** The path components pathlib keeps: no empty and no "." components. */
  function PathParts(path: string): (parts: seq<string>)
    ensures forall k :: 0 <= k < |parts| ==> parts[k] != [] && parts[k] != "." && '/' !in parts[k]
  {
    SplitOnParts(path, '/');
    Keep(SplitOn(path, '/'))
  }

  function Keep(parts: seq<string>): (r: seq<string>)
    requires forall k :: 0 <= k < |parts| ==> '/' !in parts[k]
    ensures forall k :: 0 <= k < |r| ==> r[k] != [] && r[k] != "." && '/' !in r[k]
  {
    if parts == [] then []
    else (if parts[0] == [] || parts[0] == "." then [] else [parts[0]]) + Keep(parts[1..])
  }

  /** Path.name: the final path component, or "" when there is none. */
  function Name(path: string): (r: string)
    ensures '/' !in r
  {
    var parts := PathParts(path);
    if parts == [] then "" else parts[|parts| - 1]
  }

  lemma {:induction false} IndexOfAppend(x: string, t: string, c: char)
    requires c in x + t
    ensures c in x ==> IndexOf(x + t, c) == IndexOf(x, c)
    ensures c !in x ==> c in t && IndexOf(x + t, c) == |x| + IndexOf(t, c)
    decreases |x|
  {
    if x == [] {
      assert x + t == t;
    } else if x[0] != c {
      assert (x + t)[1..] == x[1..] + t;
      assert c in x ==> c in x[1..];
      IndexOfAppend(x[1..], t, c);
    }
  }

  /** The first separator of x + [sep] + y is the one between them when x holds none. */
  lemma SplitOnAtFirst(x: string, y: string, sep: char)
    requires sep !in x
    ensures SplitOn(x + [sep] + y, sep) == [x] + SplitOn(y, sep)
  {
    var s := x + [sep] + y;
    IndexOfAppend(x, [sep] + y, sep);
    assert s == x + ([sep] + y);
    var k := IndexOf(s, sep);
    assert k == |x|;
    assert s[..k] == x;
    assert s[k + 1..] == y;
    SplitOnUnfold(s, sep);
  }

  lemma SplitOnUnfold(s: string, sep: char)
    requires sep in s
    ensures SplitOn(s, sep) == [s[..IndexOf(s, sep)]] + SplitOn(s[IndexOf(s, sep) + 1..], sep)
  {
  }

  lemma {:induction false} SplitOnAppend(x: string, y: string, sep: char)
    ensures SplitOn(x + [sep] + y, sep) == SplitOn(x, sep) + SplitOn(y, sep)
    decreases |x|
  {
    if sep !in x {
      SplitOnAtFirst(x, y, sep);
      assert SplitOn(x, sep) == [x];
    } else {
      var s := x + [sep] + y;
      assert s == x + ([sep] + y);
      IndexOfAppend(x, [sep] + y, sep);
      var k := IndexOf(x, sep);
      var rest := x[k + 1..];
      assert s[..k] == x[..k];
      assert s[k + 1..] == rest + [sep] + y;
      SplitOnUnfold(s, sep);
      SplitOnUnfold(x, sep);
      SplitOnAppend(rest, y, sep);
      var p, q := SplitOn(rest, sep), SplitOn(y, sep);
      AppendAssoc([x[..k]], p, q);
    }
  }

  lemma {:induction false} KeepAppend(p: seq<string>, q: seq<string>)
    requires forall k :: 0 <= k < |p| ==> '/' !in p[k]
    requires forall k :: 0 <= k < |q| ==> '/' !in q[k]
    ensures Keep(p + q) == Keep(p) + Keep(q)
    decreases |p|
  {
    if p == [] {
      assert p + q == q;
    } else {
      assert (p + q)[1..] == p[1..] + q;
      KeepAppend(p[1..], q);
    }
  }

  /** The name of a file inside a directory is the file's own name: "dir/name" has name "name". */
  lemma NameOfChild(dir: string, name: string)
    requires name != [] && name != "." && '/' !in name
    ensures Name(dir + "/" + name) == name
  {
    SplitOnAppend(dir, name, '/');
    assert dir + "/" + name == dir + ['/'] + name;
    assert SplitOn(name, '/') == [name];
    SplitOnParts(dir, '/');
    KeepAppend(SplitOn(dir, '/'), [name]);
    assert Keep([name]) == [name] by { assert [name][1..] == []; }
  }

  function LastIndexOf(s: string, c: char): (r: Option<nat>)
    ensures r.Some? ==> r.value < |s| && s[r.value] == c && c !in s[r.value + 1..]
    ensures r.None? ==> c !in s
  {
    if s == [] then None
    else if s[|s| - 1] == c then Some(|s| - 1)
    else
      var r := LastIndexOf(s[..|s| - 1], c);
      assert r.Some? ==> s[r.value + 1..] == s[..|s| - 1][r.value + 1..] + [s[|s| - 1]];
      assert r.None? ==> s == s[..|s| - 1] + [s[|s| - 1]];
      r
  }

  /**
   * Path.suffix: from the last "." of the name, unless that dot is first or last. A suffix
   * exists exactly when the name has a dot after its first character and does not end in one;
   * it is then the end of the name that starts with a dot and holds no other.
   */
  function Suffix(path: string): (r: string)
    ensures r == [] || (r[0] == '.' && |r| >= 2 && EndsWith(Name(path), r) && |r| < |Name(path)| && '.' !in r[1..])
    ensures var name := Name(path);
      r != [] <==> |name| >= 2 && name[|name| - 1] != '.' && '.' in name[1..]
  {
    var name := Name(path);
    match LastIndexOf(name, '.')
    case Some(i) => if 0 < i < |name| - 1 then name[i..] else ""
    case None => ""
  }

  /** FileInput.file_name. */
  function FileName(input: FileInput): string {
    Name(input.inputFile)
  }

  /** Raised exceptions of the input layer. */
  datatype InputError = NotImplemented | UnsupportedType(message: string)

  /** The base class's get_text: subclasses must override it. */
  function BaseGetText(input: FileInput): (r: Result<seq<Record>, InputError>)
    ensures r == Err(NotImplemented)
  {
    Err(NotImplemented)
  }

  /** The dictionary `{ext: class}` in insertion order; later registrations replace in place. */
  function Lookup(entries: seq<(string, InputClass)>, ext: string): (r: Option<InputClass>)
    ensures r.Some? <==> exists k :: 0 <= k < |entries| && entries[k].0 == ext
  {
    if entries == [] then None
    else if entries[0].0 == ext then Some(entries[0].1)
    else
      var r := Lookup(entries[1..], ext);
      assert forall k :: 1 <= k < |entries| ==> entries[k] == entries[1..][k - 1];
      r
  }

  function Keys(entries: seq<(string, InputClass)>): (keys: seq<string>)
    ensures |keys| == |entries| && forall k :: 0 <= k < |entries| ==> keys[k] == entries[k].0
  {
    seq(|entries|, k requires 0 <= k < |entries| => entries[k].0)
  }

  predicate DistinctKeys(entries: seq<(string, InputClass)>) {
    forall i, j :: 0 <= i < j < |entries| ==> entries[i].0 != entries[j].0
  }

  /** dict assignment `d[ext] = c`. */
  function Put(entries: seq<(string, InputClass)>, ext: string, c: InputClass): (r: seq<(string, InputClass)>)
    ensures forall t :: Lookup(r, t) == if t == ext then Some(c) else Lookup(entries, t)
    ensures DistinctKeys(entries) ==> DistinctKeys(r)
  {
    if entries == [] then
      assert Lookup([(ext, c)][1..], ext) == None;
      [(ext, c)]
    else if entries[0].0 == ext then
      var r := [(ext, c)] + entries[1..];
      assert r[1..] == entries[1..];
      r
    else
      var rest := Put(entries[1..], ext, c);
      var r := [entries[0]] + rest;
      assert r[1..] == rest;
      assert DistinctKeys(entries) ==> DistinctKeys(r) by {
        if DistinctKeys(entries) {
          assert DistinctKeys(entries[1..]);
          assert Lookup(entries[1..], entries[0].0) == None;
          assert Lookup(rest, entries[0].0) == None;
        }
      }
      r
  }

  /** The class-level registry `FileInput._input_classes`. */
  class Registry {
    var entries: seq<(string, InputClass)>

    ghost predicate Valid()
      reads this
    {
      DistinctKeys(entries)
    }

    /** The registry starts empty. */
    constructor()
      ensures Valid() && entries == []
    {
      entries := [];
    }

    /** The class registered for an extension, if any. */
    function Get(ext: string): Option<InputClass>
      reads this
    {
      Lookup(entries, ext)
    }

    /** register_input: map the subclass's extension to it, replacing an earlier registration. */
    method RegisterInput(c: InputClass)
      requires Valid()
      modifies this
      ensures Valid()
      ensures forall t :: Get(t) == if t == c.FileType() then Some(c) else old(Get(t))
      ensures entries == Put(old(entries), c.FileType(), c)
    {
      entries := Put(entries, c.FileType(), c);
    }

    /** supported_types: every registered extension exactly once. */
    function SupportedTypes(): (types: seq<string>)
      reads this
      requires Valid()
      ensures forall i, j :: 0 <= i < j < |types| ==> types[i] != types[j]
      ensures forall t :: t in types <==> Get(t).Some?
    {
      Keys(entries)
    }

    /** init: an instance of the class registered for the path's suffix, else ValueError. */
    function Init(inputFile: string): (r: Result<FileInput, InputError>)
      reads this
      ensures Get(Suffix(inputFile)).Some? ==> r == Ok(FileInput(Get(Suffix(inputFile)).value, inputFile))
      ensures Get(Suffix(inputFile)).None? ==> r == Err(UnsupportedType(Suffix(inputFile) + " is not a supported input type"))
    {
      match Get(Suffix(inputFile))
      case Some(c) => Ok(FileInput(c, inputFile))
      case None => Err(UnsupportedType(Suffix(inputFile) + " is not a supported input type"))
    }
  }

  /** A chunk the sentence loop can read: it has a string "text" entry. */
  predicate HasText(chunk: Record) {
    "text" in chunk && chunk["text"].Str?
  }

  /** Every chunk carries a "text" entry, as every reader's get_text yields. */
  predicate AllHaveText(chunks: seq<Record>) {
    forall i :: 0 <= i < |chunks| ==> HasText(chunks[i])
  }

  function ChunkText(chunk: Record): string
    requires HasText(chunk)
  {
    chunk["text"].s
  }

  /** `chunk_info | {"text": ..., "file": ..., "sent_index": ...}`. */
  function SentenceRecord(chunk: Record, sentence: string, file: string, index: nat): Record {
    chunk["text" := Str(sentence)]["file" := Str(file)]["sent_index" := Num(index)]
  }

  /** The records of one chunk's sentences, numbered from base. */
  function ChunkRecords(chunk: Record, segs: seq<(int, string)>, file: string, base: nat): (rs: seq<Record>)
    ensures |rs| == |segs|
  {
    seq(|segs|, k requires 0 <= k < |segs| => SentenceRecord(chunk, segs[k].1, file, base + k))
  }

  /** Total number of sentences the segmenter finds in the chunks. */
  function SentenceCount(chunks: seq<Record>, segment: Segmenter): nat
    requires AllHaveText(chunks)
  {
    if chunks == [] then 0
    else SentenceCount(chunks[..|chunks| - 1], segment) + |segment(ChunkText(chunks[|chunks| - 1]))|
  }

  /** Every sentence record of the chunks, in chunk order and segmenter order. */
  function Sentences(chunks: seq<Record>, file: string, segment: Segmenter): seq<Record>
    requires AllHaveText(chunks)
  {
    if chunks == [] then []
    else
      var prev := Sentences(chunks[..|chunks| - 1], file, segment);
      var last := chunks[|chunks| - 1];
      prev + ChunkRecords(last, segment(ChunkText(last)), file, |prev|)
  }

  /** get_sentences over the chunks that get_text yielded. */
  method GetSentences(chunks: seq<Record>, file: string, segment: Segmenter) returns (out: seq<Record>)
    requires AllHaveText(chunks)
    ensures out == Sentences(chunks, file, segment)
  {
    out := [];
    var sentenceIndex := 0;
    for i := 0 to |chunks|
      invariant out == Sentences(chunks[..i], file, segment)
      invariant sentenceIndex == |out|
    {
      var chunk := chunks[i];
      var segs := segment(ChunkText(chunk));
      ghost var before := out;
      for k := 0 to |segs|
        invariant out == before + ChunkRecords(chunk, segs[..k], file, |before|)
        invariant sentenceIndex == |out|
      {
        var sentence := segs[k].1;
        out := out + [SentenceRecord(chunk, sentence, file, sentenceIndex)];
        sentenceIndex := sentenceIndex + 1;
      }
      assert segs[..|segs|] == segs;
      assert chunks[..i + 1][..i] == chunks[..i];
    }
    assert chunks[..|chunks|] == chunks;
  }

  /** Number of sentences before chunk c. */
  function Offset(chunks: seq<Record>, c: nat, segment: Segmenter): nat
    requires c <= |chunks| && AllHaveText(chunks)
  {
    SentenceCount(chunks[..c], segment)
  }

  lemma {:induction false} SentencesLength(chunks: seq<Record>, file: string, segment: Segmenter)
    requires AllHaveText(chunks)
    ensures |Sentences(chunks, file, segment)| == SentenceCount(chunks, segment)
    decreases |chunks|
  {
    if chunks != [] {
      SentencesLength(chunks[..|chunks| - 1], file, segment);
    }
  }

  /**
   * Sentence k of chunk c is record number Offset(c) + k: the chunk's metadata overridden by
   * the sentence text, the file name and that running index.
   */
  lemma {:induction false} SentenceAt(chunks: seq<Record>, file: string, segment: Segmenter, c: nat, k: nat)
    requires AllHaveText(chunks)
    requires c < |chunks| && k < |segment(ChunkText(chunks[c]))|
    ensures Offset(chunks, c, segment) + k < |Sentences(chunks, file, segment)|
    ensures Sentences(chunks, file, segment)[Offset(chunks, c, segment) + k]
         == SentenceRecord(chunks[c], segment(ChunkText(chunks[c]))[k].1, file, Offset(chunks, c, segment) + k)
    decreases |chunks|
  {
    var init := chunks[..|chunks| - 1];
    var prev := Sentences(init, file, segment);
    var last := chunks[|chunks| - 1];
    assert Sentences(chunks, file, segment) == prev + ChunkRecords(last, segment(ChunkText(last)), file, |prev|);
    SentencesLength(init, file, segment);
    if c == |chunks| - 1 {
      assert chunks[..c] == init;
    } else {
      PrefixOfPrefix(chunks, |chunks| - 1, c);
      SentenceAt(init, file, segment, c, k);
    }
  }

  /** sent_index runs 0, 1, 2, ... across all chunks, and file is always the file name. */
  lemma {:induction false} SentenceIndexContiguous(chunks: seq<Record>, file: string, segment: Segmenter)
    requires AllHaveText(chunks)
    ensures forall j :: 0 <= j < |Sentences(chunks, file, segment)| ==>
      "sent_index" in Sentences(chunks, file, segment)[j] && "file" in Sentences(chunks, file, segment)[j] &&
      Sentences(chunks, file, segment)[j]["sent_index"] == Num(j) && Sentences(chunks, file, segment)[j]["file"] == Str(file)
    decreases |chunks|
  {
    if chunks != [] {
      SentenceIndexContiguous(chunks[..|chunks| - 1], file, segment);
    }
  }

  /** Keys other than text, file and sent_index come unchanged from the chunk. */
  lemma SentenceCarriesChunk(chunk: Record, sentence: string, file: string, index: nat, key: string)
    requires key != "text" && key != "file" && key != "sent_index"
    ensures key in SentenceRecord(chunk, sentence, file, index) <==> key in chunk
    ensures key in chunk ==> SentenceRecord(chunk, sentence, file, index)[key] == chunk[key]
    ensures SentenceRecord(chunk, sentence, file, index).Keys == chunk.Keys + {"text", "file", "sent_index"}
  {
  }
}
