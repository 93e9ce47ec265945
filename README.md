# remarx in Dafny

A model of the deterministic core of remarx, a toolkit for finding quotations of Marx's
writings in a corpus of historical German periodicals. The model covers:

- the sentence-corpus readers: the input-class registry and factory, the plain-text,
  ALTO-zip and TEI readers, and the numbering of sentences across text chunks;
- the TEI page extraction shared by the scripts and the older readers: page text between
  `pb` elements, footnotes, line numbers and the conversion of a TEI file into page files;
- the consolidation of quote pairs into passages;
- the term-span search and subtoken alignment used to build token embeddings;
- small text utilities: bracket highlighting and removal for notebooks, span highlighting,
  span lookup for review, the quotation finder of the quotes notebook;
- the title-mention compilation, the log viewer's tail, the corpus header validation of
  the sentence-embedding step, the Passim record transformation, and the count-based
  kNN metrics.

Python's own operations are stated on Dafny values:

- strings are `seq<char>`;
- dictionaries are `map`s;
- a raised exception is the `Err` case of a `Result`;
- `None` is `Option.None`.

The sentence segmenter, the tokenizer and the XML parser are parameters or abstract inputs.
Objects whose fields the source updates in place (the input registry, the ALTO and TEI
readers and TEI pages) are classes. Loops that build values step by step are methods with
invariants, proved against functions that state the result.

The modules follow the source files:

| module | models |
|---|---|
| `BaseInput`, `TextInput`, `PlaceholderInput`, `AltoInput`, `TeiInput`, `TeiChunks` | the sentence-corpus readers |
| `TeiXml` | the shape of a TEI document shared by the page readers |
| `TeiPageScript`, `ConvertXml` | `tei_page.py` and `scripts/convert_xml.py` |
| `Consolidate` | `quotation/consolidate.py` |
| `TokenEmbeddings` | `get_token_embeddings.py` |
| `NotebookUtils`, `HighlightUtils`, `ReviewUtils` | the notebook helpers |
| `FindQuotes` | the quotation finder of `notebooks/find-quotes.py` |
| `TitleMentions` | `compile_title_mention_annotations.py` |
| `LogViewer` | `app/log_viewer.py` |
| `SentenceEmbeddings` | the corpus validation in `sentence/embeddings.py` |
| `PassimCorpus` | `scripts/convert_texts_to_passim_corpus.py` |
| `EvalKnn` | `eval_knn.py` |
| `Text`, `Seqs`, `Sorting`, `Wrappers` | shared helpers |

The helpers model Python's string operations, sequence facts and `sorted`.

## Model

| member | source | states |
|---|---|---|
| BaseInput.Name | src/remarx/sentence/corpus/base_input.py:49-54 | `file_name` is the last path component and never contains a separator. |
| BaseInput.NameOfChild | src/remarx/sentence/corpus/base_input.py:54 | The name of `dir/name` is `name`. |
| BaseInput.Suffix | src/remarx/sentence/corpus/base_input.py:113 | A suffix exists exactly when the file name has a dot after its first character and does not end in a dot. It is then the end of the name from its last dot: a dot followed by at least one dot-free character, shorter than the name. |
| BaseInput.BaseGetText | src/remarx/sentence/corpus/base_input.py:56-65 | The base class's `get_text` always raises NotImplementedError. |
| BaseInput.Registry.constructor | src/remarx/sentence/corpus/base_input.py:37 | The registry starts empty. |
| BaseInput.Registry.RegisterInput | src/remarx/sentence/corpus/base_input.py:42-47 | After registration the class's extension maps to it, replacing any earlier class; every other extension is unchanged. |
| BaseInput.Registry.SupportedTypes | src/remarx/sentence/corpus/base_input.py:98-103 | Every registered extension is listed, and each is listed only once. |
| BaseInput.Registry.Init | src/remarx/sentence/corpus/base_input.py:105-117 | Returns an instance of the class registered for the path's suffix. Otherwise it is ValueError "<suffix> is not a supported input type". |
| BaseInput.GetSentences | src/remarx/sentence/corpus/base_input.py:67-96 | The loop's output equals the specification of the sentence records over all chunks. |
| BaseInput.SentencesLength | src/remarx/sentence/corpus/base_input.py:78-96 | There are as many sentences as the segmenter returns over all chunks together. |
| BaseInput.SentenceAt | src/remarx/sentence/corpus/base_input.py:78-93 | Sentence k of chunk c comes at position offset(c)+k. It is the chunk's dict overridden by that sentence's text, the file name and that index. |
| BaseInput.SentenceIndexContiguous | src/remarx/sentence/corpus/base_input.py:77-96 | Record j has `sent_index` j, so the indices run 0, 1, 2, … across chunks. Every record's `file` is the file name. |
| BaseInput.SentenceCarriesChunk | src/remarx/sentence/corpus/base_input.py:88-92 | Every key other than text, file and sent_index is carried over from the chunk unchanged. The keys are the chunk's plus those three. |
| TextInput.GetText | src/remarx/sentence/corpus/text_input.py:16-25 | One chunk, holding exactly the file content under "text". |
| TextInput.Register | src/remarx/sentence/corpus/text_input.py:28 | `.txt` maps to TextInput and other extensions are untouched. A `.txt` path then initialises a TextInput. |
| TextInput.TextSentences | src/remarx/sentence/corpus/text_input.py:16-25 | A text file's sentences are the segmenter's sentences of its content, numbered from 0. Each has exactly the keys text, file and sent_index. |
| TextInput.PlainRecord | src/remarx/sentence/corpus/base_input.py:88-92 | A sentence of a text-only chunk has exactly the keys text, file and sent_index. |
| PlaceholderInput.Segment | src/remarx/sentence/corpus/input.py:9-13 | `text[::100]`: element k is `text[100k]`, and there are ceil(n/100) of them. |
| PlaceholderInput.SegmentLength | src/remarx/sentence/corpus/input.py:9-13 | The result is empty exactly for empty text. There is one element per started block of 100 characters. |
| PlaceholderInput.GetText | src/remarx/sentence/corpus/input.py:30-35 | One chunk: the whole content. |
| PlaceholderInput.SentenceRecords | src/remarx/sentence/corpus/input.py:41-43 | One record per segment, in order. Record j has exactly the keys text and file_id; its text is the j-th segment of the chunks taken one after another, and its file_id is the file's id. |
| PlaceholderInput.GetSentences | src/remarx/sentence/corpus/input.py:37-43 | The reader without `get_text_chunks` fails with AttributeError. A reader that defines it gets one record per segment. |
| AltoInput.SplitTag | src/remarx/sentence/corpus/alto_input.py:99-107 | A tag without "{" has no namespace. Otherwise "{" + namespace + "}" + local gives the tag back, and the namespace holds no "}". |
| AltoInput.SplitTagRoundTrip | src/remarx/sentence/corpus/alto_input.py:104-106 | Splitting `{ns}local` gives `(ns, local)`. |
| AltoInput.XmlMembersSpec | src/remarx/sentence/corpus/alto_input.py:64-72 | The member scan succeeds exactly when every file member's name ends in `.xml` in any case. It then lists the file members in order, skipping directories. |
| AltoInput.FilesEmpty | src/remarx/sentence/corpus/alto_input.py:74-75 | There are no file members exactly when every entry is a directory. |
| AltoInput.CheckRootsSpec | src/remarx/sentence/corpus/alto_input.py:77-94 | Root checking passes exactly when every member parses and has an `alto` root in the v4 namespace or in none. |
| AltoInput.ValidationAccepts | src/remarx/sentence/corpus/alto_input.py:54-97 | Validation succeeds exactly on valid archives, and then yields the file members' names. |
| AltoInput.NonXmlReportedFirst | src/remarx/sentence/corpus/alto_input.py:65-71 | A non-XML file member makes validation fail with the non-XML error, whatever else is wrong. |
| AltoInput.DirectoriesOnly | src/remarx/sentence/corpus/alto_input.py:74-75 | An archive of directories only fails with "does not contain any XML files". |
| AltoInput.MembersSorted | src/remarx/sentence/corpus/alto_input.py:96 | The cached member list is sorted and is a permutation of the validated names. |
| AltoInput.ALTOInput.constructor | src/remarx/sentence/corpus/alto_input.py:32-36 | A new reader is unvalidated, with no cached members. |
| AltoInput.ALTOInput.ValidateArchive | src/remarx/sentence/corpus/alto_input.py:54-97 | Once validated, the call does nothing. On an invalid archive it raises the archive's error and stays unvalidated. Otherwise it caches the sorted names and marks the reader validated. |
| AltoInput.ALTOInput.GetText | src/remarx/sentence/corpus/alto_input.py:38-52 | Validates first. On success it yields one stub chunk per cached member: empty text, section type "text". |
| TeiXml.FootnoteContentIff | src/remarx/sentence/corpus/tei_input.py:88-100 | An element is footnote content exactly when it or one of its ancestors is a `ref` or `note` of type footnote. |
| TeiXml.AnyFootnoteContentIff | src/remarx/sentence/corpus/tei_input.py:98-100 | Some ancestor is footnote content exactly when some ancestor is a footnote element. |
| TeiXml.StopIndex | src/remarx/sentence/corpus/tei_input.py:152-159 | The page's node walk stops at the first node inside the next standard `pb`, and no earlier. It runs to the end when there is no such node. |
| TeiXml.BodyFragmentsAreBody | src/remarx/sentence/corpus/tei_input.py:152-172 | The texts kept are exactly those of the body-text nodes, in document order. Footnote and editorial text never appears, and no body text is lost. |
| TeiXml.GetPageFootnotes | src/remarx/sentence/corpus/tei_input.py:102-115 | The loop that appends and breaks returns the page's footnotes. |
| TeiXml.PageFootnotesSplit | src/remarx/sentence/corpus/tei_input.py:102-115 | The page's footnotes are a prefix of the following footnotes, and none of them belongs to the next page. The first one left out does. |
| TeiXml.LastPageKeepsAllFootnotes | src/remarx/sentence/corpus/tei_input.py:109-113 | On the last page every following footnote belongs to the page. |
| TeiXml.StandardPagesSpec | src/remarx/sentence/corpus/tei_input.py:251-258 | A page is kept exactly when its edition is not "manuscript". |
| TeiXml.StandardPagesAppend | src/remarx/sentence/corpus/tei_input.py:258 | The filter keeps document order: filtering a concatenation concatenates the filtered parts. |
| TeiChunks.ContentsEnd | src/remarx/sentence/corpus/input/tei.py:60-72 | `text_contents` stops at the first text node whose parent is another `pb` without `ed`, and no earlier. |
| TeiChunks.FragmentsAreKept | src/remarx/sentence/corpus/input/tei.py:74-85 | The fragments are exactly the non-editorial nodes' texts in document order, each with its whitespace-around-newline runs collapsed to one newline. |
| TeiChunks.TextContentsTight | src/remarx/sentence/corpus/input/tei.py:83-85 | No yielded fragment has whitespace next to a newline. |
| TeiChunks.GetTextChunksArePages | src/remarx/sentence/corpus/input/tei.py:131-140 | There is one chunk per non-manuscript page, in order, and each chunk is that page's `str`. |
| TeiInput.FootnoteTextClean | src/remarx/sentence/corpus/tei_input.py:50-56 | Footnote text is single-spaced and stripped. It keeps every non-whitespace character of the footnote, in order. |
| TeiInput.FirstLineNumber | src/remarx/sentence/corpus/tei_input.py:46-48 | `int()` of the first numbered `lb`'s `n`. It fails when there is no such `lb`, and when the value is not an integer. |
| TeiInput.FootnoteLine | src/remarx/sentence/corpus/tei_input.py:211 | `get_first_line_number() or 1`: a zero line number becomes 1, other numbers and errors pass through. |
| TeiInput.LineAttr | src/remarx/sentence/corpus/tei_input.py:182-184 | A node contributes a line number exactly when its parent is an `lb` with a non-empty `n`. |
| TeiInput.BodyScanGood | src/remarx/sentence/corpus/tei_input.py:180-188 | At every step of the walk the line offsets increase and lie inside the text. Each starts a kept fragment, and the offset dict and list hold the same offsets. |
| TeiInput.BodyLineIndex | src/remarx/sentence/corpus/tei_input.py:147-191 | The walk fails exactly when some kept fragment is the tail of an `lb` whose `n` `int()` rejects, with the first such `n`. Otherwise the kept fragments are exactly those of the independent fragment list. The k-th recorded offset is where the k-th fragment following a numbered `lb` starts (the length of the fragments before it), and the index maps it to `int(n)` of that `lb`. |
| TeiInput.BodyLineOfFragments | src/remarx/sentence/corpus/tei_input.py:117-191 | A position's line is `int(n)` of the last numbered-`lb` fragment starting at or before it. It is the first such fragment's line when all start after it, and 1 when there is none. |
| TeiInput.BodyTextTrimmed | src/remarx/sentence/corpus/tei_input.py:176-177 | The body text neither starts nor ends with whitespace. |
| TeiInput.BodyTextKeepsText | src/remarx/sentence/corpus/tei_input.py:174-194 | The body text keeps every non-whitespace character of the body-text nodes, in order. |
| TeiInput.LineNumberAt | src/remarx/sentence/corpus/tei_input.py:132-140 | The lookup loop returns the specified line for the position. |
| TeiInput.LineAtGreatest | src/remarx/sentence/corpus/tei_input.py:135-140 | With increasing offsets, the line is that of the greatest offset at or before the position. It is the first offset's line when every offset lies past it. |
| TeiInput.PageNumberValue | src/remarx/sentence/corpus/tei_input.py:318 | The chunk's `page_number` is the page's `n`, or None when it has none. |
| TeiInput.TEIPage.constructor | src/remarx/sentence/corpus/tei_input.py:59-86 | A new page has built no line index and recorded no footnote lines. |
| TeiInput.TEIPage.GetBodyText | src/remarx/sentence/corpus/tei_input.py:142-199 | Returns the page's body text, or the first unreadable line number's error. The line index is stored only when the walk succeeds. |
| TeiInput.TEIPage.GetBodyTextLineNumber | src/remarx/sentence/corpus/tei_input.py:117-140 | Clamps a negative position to 0 and builds the index when it is missing. Returns the line of the position; an existing index is left as it was. |
| TeiInput.TEIPage.GetIndividualFootnotes | src/remarx/sentence/corpus/tei_input.py:201-214 | Yields the texts of the page's footnotes. Each footnote's line number is recorded, up to the first footnote whose number cannot be read. |
| TeiInput.TEIPage.FootnoteLineNumber | src/remarx/sentence/corpus/tei_input.py:216-225 | Returns the recorded line number for the footnote, or 1 when none was recorded. |
| TeiInput.TEIPage.Chunks | src/remarx/sentence/corpus/tei_input.py:313-329 | The page's chunks as specified: the body chunk, then the footnote chunks. |
| TeiInput.FootnoteChunks | src/remarx/sentence/corpus/tei_input.py:324-329 | There is one footnote chunk per footnote text, in order. |
| TeiInput.ChunksOfShape | src/remarx/sentence/corpus/tei_input.py:313-329 | The body chunk comes first exactly when the body is non-empty, followed by one chunk per footnote in order. Every chunk carries the page number and its section type. |
| TeiInput.FindPage | src/remarx/sentence/corpus/tei_input.py:344 | `next(...)` finds the first page with the chunk's page number, or None when no page has it. |
| TeiInput.PagesOf | src/remarx/sentence/corpus/tei_input.py:313 | Lists the page values of the page objects, in order. |
| TeiInput.TEIinput.constructor | src/remarx/sentence/corpus/tei_input.py:294-301 | Parsing the file gives one fresh page object per standard page, none with a line index yet. |
| TeiInput.TEIinput.GetText | src/remarx/sentence/corpus/tei_input.py:303-329 | The chunks of all standard pages, in document order. |
| TeiInput.TEIinput.GetExtraMetadata | src/remarx/sentence/corpus/tei_input.py:331-353 | Line 1 when no page matches. Otherwise a footnote chunk gets its recorded line, and any other chunk the body-text line of its clamped character index. |
| TeiPageScript.VisitText | src/remarx/tei_page.py:57-92 | One loop iteration: what it yields, whether output has started, and whether the loop breaks (at the end `pb`). |
| TeiPageScript.TextBetweenPages | src/remarx/tei_page.py:44-92 | The loop's output equals the specification of the text between the pages. |
| TeiPageScript.BetweenLines | src/remarx/tei_page.py:59-92 | Every yielded string is either a lone newline or contains no newline. |
| TeiPageScript.NothingBeforeStart | src/remarx/tei_page.py:48-76 | Nothing is yielded before the start `pb`. An end `pb` met first yields nothing at all, and output begins with the start `pb`'s own tail. |
| TeiPageScript.StopsAtEnd | src/remarx/tei_page.py:74-76 | The end `pb` and every node after it contribute nothing. |
| TeiPageScript.EditionBreakIsText | src/remarx/tei_page.py:64-69 | A `pb` with an `ed` attribute neither starts nor stops the output. Its tail is yielded like any other text. |
| TeiPageScript.NewlineBeforeBreak | src/remarx/tei_page.py:59-61 | Once started, the tail of an `lb` or `note` is preceded by "\n". |
| TeiPageScript.SkipsEditorial | src/remarx/tei_page.py:78-86 | Once started, editorial text is skipped, and so are the all-whitespace tails after it. |
| TeiPageScript.FindCommonAncestor | src/remarx/tei_page.py:95-105 | Returns the nearest ancestor of the second element that is also an ancestor of the first, or None when there is none. |
| TeiPageScript.PageScanFinds | src/remarx/tei_page.py:113-122 | The scan finds a start `pb` exactly when some numbered `pb` has `n` equal to start, and likewise for the end. Each found `pb` has the number it was looked up by. |
| TeiPageScript.PageScanStops | src/remarx/tei_page.py:120-122 | Once both pages have been seen, the later `pb`s do not change the result. |
| TeiPageScript.FindPages | src/remarx/tei_page.py:110-122 | The loop computes the specified scan. |
| TeiPageScript.Descendants | src/remarx/tei_page.py:56 | The text nodes under an element are its own text plus the text and tails of every node below it. |
| TeiPageScript.CommonAncestorFirst | src/remarx/tei_page.py:103-105 | Ancestors not shared are skipped until the first shared one. |
| TeiPageScript.GetPages | src/remarx/tei_page.py:108-143 | The method computes the specified result: the joined text between the pages, or the error. |
| TeiPageScript.PagesTextMissing | src/remarx/tei_page.py:124-131 | A missing start page, end page or both is reported as ValueError naming exactly those pages. |
| TeiPageScript.RangeMessageBoth | src/remarx/tei_page.py:124-131 | Both missing pages appear in one message, start first, joined by "; ". |
| TeiPageScript.EndPage | src/remarx/tei_page.py:190-199 | A non-empty given end page is kept. Otherwise the end page is derived, and derivation fails exactly when the start is not an integer. |
| TeiPageScript.EndPageNext | src/remarx/tei_page.py:192 | A derived end page reads back as start + 1. |
| ConvertXml.GetBodyText | scripts/convert_xml.py:99-130 | The loop computes the specified body text. |
| ConvertXml.BodyTextClean | scripts/convert_xml.py:126-130 | The body text has no whitespace at either end and none next to a newline. It holds exactly the non-whitespace text of the kept fragments, in order. |
| ConvertXml.CleanFootnoteSpec | scripts/convert_xml.py:138-142 | A cleaned footnote has no whitespace at either end or next to a newline and keeps all its text. It is empty exactly when the footnote is all whitespace. |
| ConvertXml.CleanFootnotesKeepText | scripts/convert_xml.py:132-142 | The cleaned footnotes together keep all their non-whitespace text, in order. |
| ConvertXml.PageText | scripts/convert_xml.py:150-154 | `__str__`, run as its loops, computes the specified page string. |
| ConvertXml.PageStringKeepsText | scripts/convert_xml.py:144-154 | The page string holds exactly the body's non-whitespace text followed by that of the footnotes: only whitespace changes. |
| ConvertXml.SeparatedKeepsText | scripts/convert_xml.py:148-154 | Joining with blank lines adds only whitespace. |
| ConvertXml.PageFileNameSpec | scripts/convert_xml.py:217-218 | A file name is `page_` + at least three characters + `.txt`. A number of three or more characters is used as it is, and a shorter unsigned one is zero-padded. A page without a number uses its 1-based position. |
| ConvertXml.FallbackLabelParses | scripts/convert_xml.py:217-218 | The zero-padded position reads back as the position. |
| ConvertXml.ZFillDigits | scripts/convert_xml.py:218 | `zfill` on a digit string only prepends zeros. |
| ConvertXml.ConvertXmlToTextFiles | scripts/convert_xml.py:188-223 | The loop writes exactly the specified files, in order. |
| ConvertXml.WrittenIff | scripts/convert_xml.py:211-221 | A page is written exactly when its text is not blank, under the name for its position and with its text as content. Nothing else is written. |
| ConvertXml.PageWrittenIff | scripts/convert_xml.py:213-215 | A page is written exactly when its body or its footnotes hold some non-whitespace text. |
| Consolidate.LastStart | src/remarx/quotation/consolidate.py:36-40 | The most recent run start at or before a row: no row between it and the given row starts a run. |
| Consolidate.FillStarts | src/remarx/quotation/consolidate.py:36-40 | The forward-filled group value of a row is the value of its run's first row. |
| Consolidate.IdentifySequencesSpec | src/remarx/quotation/consolidate.py:10-44 | A row is sequential exactly when it is the previous value + 1 or the next value − 1; a missing neighbour never matches. Its group is never null and is the value of its run's first row. |
| Consolidate.GroupIsRunStart | src/remarx/quotation/consolidate.py:36-40 | Within a run the values climb by one, so the group id is the value minus the distance from the run start. |
| Consolidate.AllConsecutive | src/remarx/quotation/consolidate.py:22-40 | In a column of consecutive values every row is sequential, and all rows are in the first value's group. |
| Consolidate.NoneConsecutive | src/remarx/quotation/consolidate.py:22-40 | Without consecutive neighbours no row is sequential, and each row is its own group. |
| Consolidate.IdentifySequencesExample | src/remarx/quotation/consolidate.py:10-44 | For [1, 3, 4, 5, 7] the groups are [1, 3, 3, 3, 7] and the sequential flags are [F, T, T, T, F]. |
| Consolidate.WhereSplits | src/remarx/quotation/consolidate.py:58-112 | The filters on a flag and on its negation split the rows between them. |
| Consolidate.WhereKeeps | src/remarx/quotation/consolidate.py:58 | A row whose flag is set is kept. |
| Consolidate.GroupBySpec | src/remarx/quotation/consolidate.py:98-102 | `group_by` puts every row in exactly one group. Keys are distinct, no group is empty, each group holds exactly the rows with its key in order, and the sizes add up to the number of rows. |
| Consolidate.GroupMembers | src/remarx/quotation/consolidate.py:98-102 | Each group's rows share the group's key and come from the frame. |
| Consolidate.Unique | src/remarx/quotation/consolidate.py:92 | `unique()` lists each value of the column once. |
| Consolidate.ConsolidateSorted | src/remarx/quotation/consolidate.py:110-117 | The output is sorted on `reuse_sent_index` and is a permutation of the passed-through rows plus the merged groups. |
| Consolidate.ConsolidateCount | src/remarx/quotation/consolidate.py:95-113 | The `num_sentences` values add up to the number of input rows: every row is counted once. |
| Consolidate.PassThrough | src/remarx/quotation/consolidate.py:111-115 | A row that is not sequential on the reuse index comes out unchanged, with `num_sentences` = 1. |
| Consolidate.Merged | src/remarx/quotation/consolidate.py:67-108 | Each group of rows sharing both run ids is merged into one output row. The group holds exactly the reuse-sequential rows with those ids, in order. |
| Consolidate.MeanBetween | src/remarx/quotation/consolidate.py:76 | The mean lies between any bounds on the values. |
| Consolidate.AggregateSpec | src/remarx/quotation/consolidate.py:70-95 | A merged row has the group size as `num_sentences` and the first row's ids and indices. Its `match_score` is the mean of the group's scores (times the group size it gives their total), so it lies between the lowest and highest. Its `reuse_text` and `original_text` are the group's texts in order joined with " ", and every other column lists each distinct value once, joined with "; ". |
| TokenEmbeddings.NormalizeTextShape | src/remarx/get_token_embeddings.py:44-46 | The result is a leading space followed by single-spaced text. No non-whitespace character is added, lost or reordered. |
| TokenEmbeddings.NormalizeTextIdempotent | src/remarx/get_token_embeddings.py:46 | Normalising twice equals normalising once. |
| TokenEmbeddings.FirstMatchLeftmost | src/remarx/get_token_embeddings.py:54-56 | The search finds the leftmost whole-word occurrence at or after the position. |
| TokenEmbeddings.TermSpansSound | src/remarx/get_token_embeddings.py:49-58 | Every span is a whole-word occurrence of the term, of the term's length. The spans are in order and do not overlap. |
| TokenEmbeddings.TermSpansComplete | src/remarx/get_token_embeddings.py:54-57 | Every whole-word occurrence is reported, or lies inside an earlier reported one. |
| TokenEmbeddings.TermSpansExample | src/remarx/get_token_embeddings.py:49-58 | "bar" in "foo bar" is found once, at (4, 7). |
| TokenEmbeddings.OffsetsLocate | src/remarx/get_token_embeddings.py:83-87 | Where each subtoken really begins: the joined subtokens hold each subtoken at its offset. |
| TokenEmbeddings.StartOffsets | src/remarx/get_token_embeddings.py:92-98 | The first loop records the specified starts, as written. |
| TokenEmbeddings.StartsAsWritten | src/remarx/get_token_embeddings.py:93-98 | Each recorded start equals where the subtoken ends minus the first subtoken's length, rather than where it begins. |
| TokenEmbeddings.StartsMisplaced | src/remarx/get_token_embeddings.py:97 | For ["ab", "c"] the loop records the starts [0, 1]; the true offsets are [0, 2]. |
| TokenEmbeddings.GetSubtokenAlignment | src/remarx/get_token_embeddings.py:61-126 | Raises ValueError when the subtokens' total length differs from the sentence's. Otherwise returns the lists the two-index loop builds over the recorded starts with the one-sided test. |
| TokenEmbeddings.AlignmentShape | src/remarx/get_token_embeddings.py:89-126 | The result starts from [[]] and gains one list per span passed, so it holds 1 to len(spans)+1 lists. Every index is a subtoken index, and each list increases. |
| TokenEmbeddings.OverlapAsWritten | src/remarx/get_token_embeddings.py:113 | For ["ab", "cd"] over "abcd" with the span (2, 4), the written test also records "ab", which ends before the span. |
| TokenEmbeddings.OverlapIntended | src/remarx/get_token_embeddings.py:113 | The same input with the true offsets and a two-sided test records only "cd". |
| TokenEmbeddings.HitsSpec | src/remarx/get_token_embeddings.py:70-71 | A subtoken is a hit of a span exactly when their half-open intervals overlap, each starting before the other ends. For a non-empty subtoken and span, this means the subtoken holds one of the span's characters. |
| TokenEmbeddings.AlignmentOverlaps | src/remarx/get_token_embeddings.py:100-126 | With subtokens laid end to end and consecutive, non-overlapping spans, the two-sided test makes each span's list exactly its hits. A span the loop never reaches has no hits. |
| TokenEmbeddings.OffsetsLaid | src/remarx/get_token_embeddings.py:83-87 | The true offsets lay the subtokens end to end over the joined text. |
| TokenEmbeddings.AlignmentMembers | src/remarx/get_token_embeddings.py:100-126 | A subtoken is in a span's list exactly when it overlaps the span. |
| TokenEmbeddings.IntendedAlignmentSpec | src/remarx/get_token_embeddings.py:66-78 | The documented promise, for consecutive, non-overlapping spans. Each span's list holds exactly the subtokens whose half-open interval overlaps the span's (for non-empty ones: that contain a character of the span), in increasing order; a span without a list has no such subtoken. |
| NotebookUtils.RemoveUnnested | src/remarx/notebook_utils.py:21-24 | One substitution pass either leaves the string as it is or makes it strictly shorter. |
| NotebookUtils.RemoveUnnestedBal | src/remarx/notebook_utils.py:20-28 | A pass keeps the bracket balance at every depth. |
| NotebookUtils.FixpointBal | src/remarx/notebook_utils.py:25-31 | When a pass changes nothing, the text is balanced exactly when no bracket is left. |
| NotebookUtils.KeptFixpoint | src/remarx/notebook_utils.py:25-28 | A string a pass leaves unchanged has no unnested expression anywhere. |
| NotebookUtils.HasClosedBrackets | src/remarx/notebook_utils.py:11-31 | The early return plus the pass-until-unchanged loop answer exactly whether the brackets are balanced. |
| NotebookUtils.ClosedExample | src/remarx/notebook_utils.py:13-14 | "[hello] [wo[rl]d]!" is closed. |
| NotebookUtils.UnclosedExamples | src/remarx/notebook_utils.py:11-31 | "[a" and "a]" are not closed. |
| NotebookUtils.Marked | src/remarx/notebook_utils.py:46-47 | No bracket is left once the brackets are marked. |
| NotebookUtils.ReplacesMark | src/remarx/notebook_utils.py:46-47 | The two `replace` calls turn each "[" into "<mark>" and each "]" into "</mark>", keeping all other characters. |
| NotebookUtils.HighlightBracketedText | src/remarx/notebook_utils.py:34-48 | Raises ValueError unless the brackets are closed. Otherwise returns the text with its brackets marked. |
| NotebookUtils.RemoveBracketsSpec | src/remarx/notebook_utils.py:75-76 | `remove_brackets` deletes exactly the brackets and keeps every other character in order. |
| NotebookUtils.UnbracketedPlain | src/remarx/notebook_utils.py:75-76 | Text without brackets is unchanged. |
| NotebookUtils.RemoveBracketsIdempotent | src/remarx/notebook_utils.py:75-76 | No bracket is left, and a second application changes nothing. |
| NotebookUtils.TextsDifferSpec | src/remarx/notebook_utils.py:79-81 | `texts_differ` holds exactly when the texts differ outside their brackets. It is symmetric, and a text differs neither from itself nor from its bracket-free form. |
| HighlightUtils.HighlightSpans | src/remarx/highlight_utils.py:1-16 | The loop's output is the highlighted text as specified. |
| HighlightUtils.HighlightNoSpans | src/remarx/highlight_utils.py:5-16 | With no spans the text is returned unchanged. |
| HighlightUtils.HighlightRecovers | src/remarx/highlight_utils.py:7-16 | Removing the tags gives the original text back: with empty tags the output is the text itself, for ordered in-range spans. |
| HighlightUtils.HighlightTags | src/remarx/highlight_utils.py:11 | Each span adds exactly the length of its two tags. |
| HighlightUtils.HighlightLength | src/remarx/highlight_utils.py:7-16 | For ordered in-range spans, the output length is the text's length plus the tag lengths times the number of spans. |
| HighlightUtils.HighlightOneSpan | src/remarx/highlight_utils.py:7-15 | One span gives the text before it, the open tag, the span's text, the close tag, then the rest. |
| ReviewUtils.FirstChunk | src/remarx/review_utils.py:16 | `span_text[:15]` is a prefix of the span, of length min(15, len). |
| ReviewUtils.LastChunk | src/remarx/review_utils.py:17 | `span_text[-15:]` is a suffix of the span, of length min(15, len). |
| ReviewUtils.GetSpanIndices | src/remarx/review_utils.py:6-27 | The start is found exactly when the end is. |
| ReviewUtils.SpanExact | src/remarx/review_utils.py:8-9 | An exact occurrence wins: the first one is used, and the slice it names is the span itself. |
| ReviewUtils.SpanWithoutNewlines | src/remarx/review_utils.py:10-13 | Failing that, an occurrence in the page with newlines read as spaces is used. The indices lie inside the page, which agrees with the span there except where it has a newline and the span a space. |
| ReviewUtils.SpanByChunks | src/remarx/review_utils.py:15-26 | Failing both, the start is the first occurrence of the leading 15 characters. The end is just past the first occurrence of the trailing 15. |
| ReviewUtils.SpanNotFound | src/remarx/review_utils.py:27 | The result is (None, None) exactly when no fallback applies. |
| ReviewUtils.SpanExamples | src/remarx/review_utils.py:6-27 | ("xab", "ab") gives (1, 3), and ("a\nb", "a b") gives (0, 3). |
| TitleMentions.TitleMentionCases | src/remarx/compile_title_mention_annotations.py:18-41 | "Yes" exactly when both the title and "Title Reference" are tags. "Maybe" exactly when the title is the only tag and is not "Title Reference". "No" in every other case. |
| TitleMentions.MentionNamesDistinct | src/remarx/compile_title_mention_annotations.py:30-41 | The three answers are distinct strings. |
| TitleMentions.AfterMarker | src/remarx/compile_title_mention_annotations.py:70 | The text after the first "char-offset:". Indexing fails exactly when the anchor has no marker. |
| TitleMentions.RowMentionSpec | src/remarx/compile_title_mention_annotations.py:62-80 | A row is yielded exactly when its tags mention either title. It carries the row's uuid, the offset after the marker as start and start + len(quotation) as end, and both answers. |
| TitleMentions.TitleMentionsYielded | src/remarx/compile_title_mention_annotations.py:44-80 | Every yielded mention names a title and carries the file stem, and its end is not before its start. There is at most one per row. |
| TitleMentions.TitleMentionsPrefix | src/remarx/compile_title_mention_annotations.py:44-80 | The generator streams: the mentions for the first n rows are a prefix of those for all rows. If the first n rows already raise, all rows give the same mentions and the same error. |
| TitleMentions.SkippedRow | src/remarx/compile_title_mention_annotations.py:68 | A row that mentions neither title is skipped and changes nothing. |
| LogViewer.LastLines | src/remarx/app/log_viewer.py:58 | `lines[-m:]` for m > 0 is the last min(m, #lines) lines. |
| LogViewer.MissingFile | src/remarx/app/log_viewer.py:46-47 | The result is None exactly when the file is missing. |
| LogViewer.NoLinesWanted | src/remarx/app/log_viewer.py:52-57 | A limit of zero or below (clamped at line 43), or an empty file, gives "". |
| LogViewer.MoreLines | src/remarx/app/log_viewer.py:55-59 | The tail for m lines is a suffix of the tail for m + 1 lines. |
| LogViewer.SplitJoin | src/remarx/app/log_viewer.py:55-59 | Splitting the newline-joined lines gives them back, provided none has a line break and the last is not empty. |
| LogViewer.TailLines | src/remarx/app/log_viewer.py:31-59 | Split again, the result is the file's last min(max_lines, #lines) lines. |
| LogViewer.LogTailExampleTwo | tests/test_app/test_log_viewer.py:41 | The tail of "a\nb\nc" for 2 lines is "b\nc". |
| LogViewer.LogTailExampleTrailing | tests/test_app/test_log_viewer.py:43 | A trailing newline adds no empty line: "line1\nline2\n" for 1 line gives "line2". |
| SentenceEmbeddings.Absent | src/remarx/sentence/embeddings.py:113 | The required names the header lacks, and no others. |
| SentenceEmbeddings.Distinct | src/remarx/sentence/embeddings.py:112 | `set(...)`: the same names, each once. |
| SentenceEmbeddings.MissingColumnsSpec | src/remarx/sentence/embeddings.py:107-113 | The reported missing columns are exactly the required ones not in the header, in sorted order. There are none exactly when every required column is present. |
| SentenceEmbeddings.ValidateSpec | src/remarx/sentence/embeddings.py:93-126 | Validation passes exactly when the file exists, has every required column and has at least one data row. |
| SentenceEmbeddings.NotFoundFirst | src/remarx/sentence/embeddings.py:103-104 | A missing file raises FileNotFoundError with the path in its message. |
| SentenceEmbeddings.MissingBeforeEmpty | src/remarx/sentence/embeddings.py:115-120 | Missing columns raise ValueError listing them before the row check is reached. |
| SentenceEmbeddings.ExtraColumns | src/remarx/sentence/embeddings.py:112-113 | Once the required columns are present, extra columns never change the outcome. |
| PassimCorpus.CleanText | scripts/convert_texts_to_passim_corpus.py:37 | After `re.sub(r"\s+", " ", ...)`, no two whitespace characters are adjacent. |
| PassimCorpus.CleanTextKeepsText | scripts/convert_texts_to_passim_corpus.py:37 | Every non-whitespace character is kept, in order. |
| PassimCorpus.CleanTextFixpoint | scripts/convert_texts_to_passim_corpus.py:37 | Text whose whitespace is already single spaces is unchanged. |
| PassimCorpus.CleanTextIdempotent | scripts/convert_texts_to_passim_corpus.py:29-38 | Cleaning twice is cleaning once. |
| PassimCorpus.TransformErrors | scripts/convert_texts_to_passim_corpus.py:74-86 | transform_record raises exactly when the id field is missing, a preserved "id" would be overwritten, or a non-empty corpus_from_field is missing. A missing id field gives its own message. |
| PassimCorpus.TransformFields | scripts/convert_texts_to_passim_corpus.py:78-92 | An accepted record has "id" from the id field and "text" as the cleaned text ("" when missing). Preserved fields are copied unchanged, and no other key is added. |
| PassimCorpus.SeriesName | scripts/convert_texts_to_passim_corpus.py:139-145 | With a non-empty fallback, the series name is never empty. |
| PassimCorpus.SeriesNamePlain | scripts/convert_texts_to_passim_corpus.py:139-140 | A name without "texts" is just lowercased. |
| FindQuotes.MatchEndQuote | notebooks/find-quotes.py:38 | A match of `„[^“"]+[“"]` is „, one or more characters other than the closing quotes, then a closing quote. |
| FindQuotes.QuoteMatchEnd | notebooks/find-quotes.py:38 | Conversely, every such quotation starting at p is the match found at p. |
| FindQuotes.MatchesFromSound | notebooks/find-quotes.py:38-40 | Every match of the scan is a quotation; the matches are in order and do not overlap. |
| FindQuotes.MatchesSound | notebooks/find-quotes.py:38-40 | Every match of the whole text is a quotation; the matches are in order and do not overlap. |
| FindQuotes.MatchesFromComplete | notebooks/find-quotes.py:38 | No quotation is skipped: one that starts before every other match begins is the first match. |
| FindQuotes.WhiteOut | notebooks/find-quotes.py:44 | The same length; the characters in [start, end) become spaces and all others are kept. |
| FindQuotes.WhitedOutAt | notebooks/find-quotes.py:42-45 | After all matches are whited out, a character is a space if a match covers it, and otherwise unchanged. |
| FindQuotes.FindQuotes | notebooks/find-quotes.py:34-46 | The results are the finditer matches in order, each a quotation. The working text keeps its length, with exactly the matched characters whited out. |
| EvalKnn.CountMono | src/remarx/eval_knn.py:21 | A filter that keeps at least the rows of another counts at least as many. |
| EvalKnn.CountZero | src/remarx/eval_knn.py:19 | A count is zero exactly when no row passes the filter. |
| EvalKnn.Ratio | src/remarx/eval_knn.py:22 | Python's `/`: ZeroDivisionError exactly when the denominator is 0, else the quotient. |
| EvalKnn.RecallAtKBounds | src/remarx/eval_knn.py:9-22 | With n_matches inferred, recall_at_k fails exactly when no pair matches and otherwise lies in [0, 1]. Passing the inferred count explicitly changes nothing. |
| EvalKnn.RecallAtKMono | src/remarx/eval_knn.py:21-22 | For a positive n_matches, recall_at_k never decreases as k grows. |
| EvalKnn.RecallAtKFull | src/remarx/eval_knn.py:18-22 | recall_at_k is 1 once every match is ranked below k. |
| EvalKnn.PrecisionBounds | src/remarx/eval_knn.py:25-31 | precision_at_distance fails exactly when no pair is within the distance, and otherwise lies in [0, 1]. |
| EvalKnn.PrecisionOne | src/remarx/eval_knn.py:29-31 | The precision is 1 exactly when some pair is within the distance and all such pairs match. |
| EvalKnn.RecallAtDistanceMono | src/remarx/eval_knn.py:45-48 | For a positive n_matches, recall_at_distance never decreases as the distance grows. |
| EvalKnn.RecallAtDistanceBounds | src/remarx/eval_knn.py:34-48 | With n_matches inferred, recall_at_distance fails exactly when no pair matches and otherwise lies in [0, 1]. |
| EvalKnn.RecallAtDistanceFull | src/remarx/eval_knn.py:43-48 | recall_at_distance is 1 once every match is within the distance. |

`recall_at_k` documents 1-indexed ranks and "rank k or less", but its filter is `rank < k`
(src/remarx/eval_knn.py:21). The model follows the filter: with the 0-indexed ranks the
notebooks produce, `rank < k` keeps the top k. `find_quotes` builds the whited-out working
text but returns only the matches. `FindQuotes.FindQuotes` returns both, so that the
property of the white-out can be stated.

## Left out

- Generators are modelled as finite sequences. Laziness, and partial consumption of a
  generator, are not modelled. For `get_title_mentions` the mentions yielded before an
  error are kept beside it; elsewhere an error replaces the whole sequence.
- Real I/O is not modelled:
  - XML parsing is not part of this model. A TEI document is an abstract node sequence
    (`TeiXml`), and an ALTO archive is a list of entries (name, directory flag, root tag or
    parse error).
  - Reading files, zips and CSVs, and their encoding, are not modelled. Files are
    parameters holding their text (or None when missing), and CSV rows are maps from
    column name to string.
  - The page-file writes of `convert_xml_to_text_files` are not modelled. The model states
    the file names and which pages are written.
- `main` functions, argparse, the directory and file existence checks inside the scripts'
  `main` functions, logging and printing are not modelled. The exceptions are the end-page default of `tei_page.py` and the series
  names of the Passim script.
- The log viewer's retry after `TypeError` (log_viewer.py:48-50) re-reads the same text
  without arguments. Since the file is a text parameter, both reads give the same string.
- The sentence segmenter and the subword tokenizer are parameters. Their output is given,
  and nothing is assumed about it beyond its type.
- `ftfy.fix_text` in `clean_text` is not part of this model. Only the whitespace collapse
  that follows it is modelled.
- `id()` of a footnote's text, used as a dictionary key in `tei_input.py`, is modelled as
  the footnote's position on its page. The model assumes that distinct footnotes get
  distinct keys. CPython can give two footnotes the same `id()`: identical empty or
  one-character texts share one object, and an id can be reused once a yielded text is
  freed. A lookup of such a shared key, made after all the footnotes have been yielded,
  is not modelled.
- Dataframes (polars) are sequences of records. `match_score` means and distances are
  `real`, not IEEE floats. An `n_matches` given as a float is not modelled.
- `str.lower()` is modelled on ASCII letters only. `\w` covers ASCII letters and digits,
  the underscore and the Latin letters U+00C0 to U+024F, not all of Unicode.
- `int()` on a string accepts an optional sign, decimal digits and surrounding
  whitespace. Underscores between digits and non-ASCII digits are not accepted.
- `SentenceEmbeddings` renders `repr` of a column name without escaping quotes or
  backslashes. This affects only the text of the error message.
- `highlight_bracketed_text` is modelled with `wrap=False`. The `mo.md` wrapping and Html
  objects are not modelled.
- The notebook helpers `compare_highlighted_texts`, `highlight_sidebyside` and
  `html_diff` only render HTML and are not modelled.
- TokenEmbeddings.TermSpans: the term is read as a literal string. The source puts it into
  the pattern without `re.escape` (get_token_embeddings.py:54), so a term holding regex
  metacharacters ("a.c" also matches "abc"), and the `re.error` such a term can raise
  ("C++"), are not modelled.
- TermSpansSound: states soundness for a term read literally; a term holding regex
  metacharacters is outside it, as described for `TermSpans`.
- TermSpansComplete: states completeness for a term read literally; a term holding regex
  metacharacters is outside it, as described for `TermSpans`.
- ConsolidateQuotes, GroupBy and Unique fix orders that polars leaves unspecified. The
  sorts (consolidate.py:56 and 117, where polars defaults to `maintain_order=False`) keep ties in input order,
  `group_by` (consolidate.py:99) lists groups by first occurrence, and `unique()`
  (consolidate.py:92) lists values by first occurrence. With repeated `reuse_sent_index`
  values the source's sequence flags (consolidate.py:22-40), groups and value lists may
  come out in another order; the model gives one of the possible answers.
- Tests that no longer match the code are not modelled; the model follows the code. These
  are the expected alignments and error message in test/test_token_embeddings.py:41-93,
  and the `get_footnote_contents` and `field_names` expectations in
  tests/test_sentence/test_corpus/test_tei_input.py.

## Findings

| source | as written | input that shows it | evidently intended | confidence | as-written member | corrected member |
|---|---|---|---|---|---|---|
| src/remarx/get_token_embeddings.py:97 | `start = subtoken_starts[i - 1] + len(subtoken)` adds the current subtoken's length | subtokens ["ab", "c"]: the starts are [0, 1], but "c" begins at 2 | add the previous subtoken's length, so that each start is where the subtoken begins in the joined text | high (derived by proof, not executed) | TokenEmbeddings.StartsMisplaced | TokenEmbeddings.OffsetsLocate |
| src/remarx/get_token_embeddings.py:113 | the overlap test `sub_start < token_end and token_start < token_end` compares the span with itself | subtokens ["ab", "cd"] over "abcd" with the span (2, 4): "ab" is recorded although it ends before the span | `token_start < sub_end`, so that a subtoken is recorded exactly when it holds a character of the span | high (derived by proof, not executed) | TokenEmbeddings.OverlapAsWritten | TokenEmbeddings.IntendedAlignmentSpec |
