# Restaurant-review question answering: the deterministic core

The repository answers questions about restaurant reviews. `vector.py` loads a
CSV of reviews, turns each row into a document with metadata, and adds the
documents to a persistent vector store the first time the program runs.
`main.py` formats the documents retrieved for a question into a bounded text
block for the language-model prompt, and recognises the words that end the
question loop.

This project models that core in Dafny. It has three modules:

- `Text` (`text.dfy`) holds the Python string operations the core relies on:
  - `str.strip`/`rstrip` with Python's full whitespace set;
  - newline replacement, ASCII lower-casing, `"\n".join` with its inverse split;
  - slicing with a possibly negative bound;
  - `str()` of an integer, with its round trip and injectivity;
  - Python's `<` order on strings.
- `Prompt` (`prompt.dfy`) models `_format_reviews_for_prompt` and `_is_exit_command`.
  - The formatter is a method, and its `enumerate` loop is the method `BuildLines`.
  - The formatter is proved equal to a specification function, `FormatContext`, and the loop to `Lines`.
  - The lemmas state the shape of that function's result.
- `Indexer` (`indexer.dfy`) models the rest:
  - the column check and fills of `_load_dataframe`;
  - `_build_documents` as a loop method;
  - `_should_add_documents`;
  - the module-level add-if-absent guard, written against a `VectorStore` class that holds a location flag and a list of entries.
  - `IndexIfAbsent` is proved equal to a state-transition function, `IndexStep`. The lemmas about re-running and about ids are stated over `IndexStep`.

A retrieved document enters the formatter as its page content (a string). The
CSV file enters the loader as two values:
- whether the file exists;
- the table it parses to: its column names, and rows of index label and cells.

Each cell is either missing (pandas NaN) or its text.

Two length bounds are upper bounds, not exact lengths:
- A cut snippet is not always 401 characters long, only at most 401. `rstrip` runs after the cut at 400, so the snippet can be shorter; `SnippetCanBeShorterThanLimit` gives such an input. It is exactly 401 when the 400th normalised character is not whitespace.
- A truncated block is at most `max_chars + 14` characters long, for the same reason, provided `max_chars` is not negative. It is exactly that long when character `max_chars` of the joined lines is not whitespace.

## Model

| member | source | states |
|---|---|---|
| Text.LStripFacts | main.py:74 | `lstrip` removes exactly a whitespace prefix: the result is a suffix of the input, everything before it is whitespace, and it does not start with whitespace |
| Text.RStripFacts | main.py:76 | `rstrip` removes exactly a whitespace suffix: the result is a prefix of the input, everything after it is whitespace, and it does not end with whitespace |
| Text.StripHasNoEdgeSpace | main.py:74 | a stripped string has no whitespace at either end |
| Text.StripIsTrimmedPiece | main.py:74 | `strip` returns the contiguous piece of the input left after removing whitespace only from both ends |
| Text.StripPadded | vector.py:80 | stripping whitespace padding around a string with no edge whitespace returns that string |
| Text.ReplaceNewlinesFacts | main.py:74 | `replace("\n", " ")` keeps the length, leaves no newline, turns each newline into a space and keeps every other character |
| Text.LowerAsciiAt | main.py:96 | lower-casing keeps the length and maps each character through the ASCII case mapping |
| Text.SplitJoinLines | main.py:80 | `"\n".join` of newline-free lines is undone by splitting on newlines, so the block holds exactly those lines |
| Text.PySliceTo | main.py:84 | `s[:n]` is a prefix of `s` of length `min(n, len(s))` for `n >= 0`, and drops the last `-n` characters (or all) for negative `n` |
| Text.DigitsValueOfNatToString | vector.py:93 | the decimal rendering of a natural number reads back as that number |
| Text.IntToStringInjective | vector.py:93 | distinct integers have distinct `str()` renderings |
| Text.StrLessAsymmetric | vector.py:57-58 | Python's string order never holds both ways between two strings |
| Text.SortedIsUnique | vector.py:57-58 | two strictly sorted lists with the same elements are equal, so a strictly sorted list holding exactly a set's elements is what `sorted` returns for it |
| Prompt.Snippet | main.py:74-76 | no contract of its own: `SnippetHasNoNewline`, `SnippetHasNoEdgeSpace`, `ShortSnippetIsWhole`, `LongSnippetIsCut` and `SnippetCanBeShorterThanLimit` state its properties |
| Prompt.Normalize | main.py:74 | no contract of its own: `NormalizeShape` states its shape, `ReplaceNewlinesFacts` and `StripIsTrimmedPiece` its relation to the content |
| Prompt.NormalizeShape | main.py:74 | normalised content holds no newline and no edge whitespace |
| Prompt.SnippetHasNoNewline | main.py:74-76 | a snippet never contains a newline, whether cut or not |
| Prompt.SnippetHasNoEdgeSpace | main.py:74-76 | a snippet has no whitespace at either end |
| Prompt.ShortSnippetIsWhole | main.py:75 | content of at most 400 normalised characters is kept whole |
| Prompt.LongSnippetIsCut | main.py:75-76 | longer content is cut at 400: the snippet ends in the ellipsis, its body is the first 400 normalised characters with only their trailing whitespace dropped (the dropped part is all whitespace, the body is never empty and does not end in whitespace), it is 2 to 401 characters, and exactly 401 when the 400th character is not whitespace |
| Prompt.SnippetCanBeShorterThanLimit | main.py:75-76 | a cut snippet can be far shorter than 401 characters ("a", 400 spaces, "b" gives "a…") |
| Prompt.ReviewPrefix | main.py:77 | no contract of its own: the `- Review #<idx>: ` part of the line, named by `FittingBlockLines` |
| Prompt.ReviewLine | main.py:77 | no contract of its own: `ReviewLineHasNoNewline` and `FittingBlockLines` state what a line holds |
| Prompt.ReviewLineHasNoNewline | main.py:77 | a review line built from a newline-free snippet holds no newline |
| Prompt.FormatContext | main.py:56-86 | no contract of its own: the value the formatter returns, whose properties `EmptyGivesSentinel`, `FittingBlockLines`, `TruncatedBlock`, `BlockIsBounded`, `DefaultBlockIsBounded` and `SentinelIsNotAReviewBlock` state |
| Prompt.Lines | main.py:69-77 | one line per document; `BuildLines` computes it and `FittingBlockLines` states what each line holds |
| Prompt.Cutoff | main.py:83-84 | no contract of its own: `CutOffBlock` states what it keeps and what it appends |
| Prompt.BuildLines | main.py:69-77 | the `enumerate` loop gives one line per document, in order, line i being "- Review #i: " followed by document i's snippet |
| Prompt.FormatReviewsForPrompt | main.py:56-86 | the formatter computes `FormatContext`, and returns the sentinel exactly when there are no documents |
| Prompt.EmptyGivesSentinel | main.py:65-66 | no documents give the fixed "No matching reviews…" sentinel, whatever the bound |
| Prompt.FittingBlockLines | main.py:69-80 | a block within the bound is returned unchanged and splits into exactly one line per document, line i being "- Review #i: " followed by document i's snippet |
| Prompt.CutOffBlock | main.py:83-84 | a string over the bound is cut at `max_chars` with Python slice semantics, loses only its trailing whitespace (what is dropped is all whitespace, the head does not end in whitespace), and gets "\n… (truncated)" appended; for `max_chars >= 0` it is at most `max_chars + 14` long, and exactly that when character `max_chars` is not whitespace |
| Prompt.TruncatedBlock | main.py:83-84 | a block over the bound is the joined lines cut as `CutOffBlock` states: it ends with "\n… (truncated)", its head is the first `max_chars` characters with only trailing whitespace dropped and is non-empty when `max_chars > 0`, and for `max_chars >= 0` it is at most `max_chars + 14` long, exactly that when character `max_chars` is not whitespace (a negative bound can give more) |
| Prompt.BlockIsBounded | main.py:83-84 | for a non-empty document list and a bound of 0 or more, the block is never longer than `max_chars + 14`; the sentinel for an empty list ignores the bound |
| Prompt.DefaultBlockIsBounded | main.py:56 | at the default bound of 1800, every result, the 49-character sentinel included, is at most 1814 characters long |
| Prompt.SentinelEdges | main.py:66 | the sentinel is 49 characters long, starts with 'N' and ends with '.' |
| Prompt.JoinedLinesStartWithDash | main.py:77-80 | the joined lines of any non-empty document list start with '-' |
| Prompt.SentinelIsNotAReviewBlock | main.py:65-86 | a non-empty document list never yields the sentinel |
| Prompt.ExitWordHasNoEdgeSpace | main.py:96 | a string that lower-cases to an exit word has no edge whitespace |
| Prompt.IsExitCommand | main.py:89-96 | no contract of its own: `ExitCommandCharacterization` states what it accepts |
| Prompt.ExitCommandIsPadded | main.py:94-96 | every accepted input is an exit word, in any letter case, with only whitespace around it |
| Prompt.PaddedIsExitCommand | main.py:94-96 | every exit word, in any letter case, with only whitespace around it is accepted |
| Prompt.ExitCommandCharacterization | main.py:89-96 | input is an exit command if and only if it is an exit word in any letter case, with only whitespace around it |
| Prompt.PaddedUpperQuitIsExit | main.py:96 | `" QUIT "` is an exit command |
| Prompt.QuitsIsNotExit | main.py:96 | `"quits"` is not an exit command |
| Prompt.BlankIsNotExit | main.py:94-96 | empty or all-whitespace input is not an exit command |
| Indexer.ColumnOrderIsSorted | vector.py:57 | the required columns in Python string order are Date, Rating, Review, Title |
| Indexer.Filter | vector.py:58 | filtering a list keeps exactly the kept elements, and keeps it strictly sorted |
| Indexer.SortedNames | vector.py:57-58 | `sorted()` of a set of column names is strictly increasing and holds exactly those names |
| Indexer.SortedRequiredColumns | vector.py:57 | the expected-columns list of the error is Date, Rating, Review, Title |
| Indexer.AbsentColumns | vector.py:52-53 | no contract of its own: `LoadDataFrame` states that the error lists exactly the required columns the table lacks |
| Indexer.FillText | vector.py:62-63 | `fillna("")`: a missing cell becomes "", a present one keeps its text |
| Indexer.LoadRecord | vector.py:62-63 | Title and Review are filled as `FillText` states; Rating, Date and the index label pass through |
| Indexer.LoadDataFrame | vector.py:34-65 | a missing file fails first; otherwise loading fails exactly when a required column is absent, reporting all required columns and exactly the absent ones, both sorted; on success there is one filled record per row, in row order |
| Indexer.Content | vector.py:80 | no contract of its own: `EmptyFieldsGiveEmptyContent`, `ContentOfTrimmedFields` and `StripIsTrimmedPiece` state what it gives |
| Indexer.DocumentOf | vector.py:80-90 | no contract of its own: the document of one record, as `BuildDocuments` and `FreshIndexMatchesRows` state it |
| Indexer.IdOf | vector.py:93 | no contract of its own: `DistinctIndexesGiveDistinctIds` and `DigitsValueOfNatToString` state that ids are decimal renderings that tell rows apart |
| Indexer.BuildDocuments | vector.py:68-95 | one document and one id per record in order, the `k`-th being `DocumentOf` and `IdOf` of record `k`: content `strip(title + " " + review)`, metadata rating, date and `source_row` = index label, id `str(index)` |
| Indexer.EmptyFieldsGiveEmptyContent | vector.py:80 | empty Title and Review give empty content |
| Indexer.ContentOfTrimmedFields | vector.py:80 | trimmed fields are joined by exactly one space, and an empty field leaves just the other one |
| Indexer.DistinctIndexesGiveDistinctIds | vector.py:93 | records with distinct index labels get distinct ids |
| Indexer.Entries | vector.py:125-128 | one entry per record, in order; `FreshIndexMatchesRows` states each entry's id, content and metadata |
| Indexer.ShouldAddDocuments | vector.py:98-104 | no contract of its own: `IndexIfAbsent`, `PresentLocationNeverIndexes` and `SecondRunIsNoOp` state that documents are added only while the location does not exist |
| Indexer.IndexStep | vector.py:120-130 | no contract of its own: one run of the guard, whose properties `SecondRunIsNoOp`, `PresentLocationNeverIndexes`, `IndexStepKeepsConsistent`, `FreshIndexMatchesRows` and `FreshIndexIdsDistinct` state |
| Indexer.IndexStepKeepsConsistent | vector.py:120-130 | a run never leaves entries in a store whose location does not exist |
| Indexer.PresentLocationNeverIndexes | vector.py:113-120 | a store opened at an existing location is never indexed: every run skips and leaves it as it is, an empty one included |
| Indexer.SecondRunIsNoOp | vector.py:98-104 | after a run that did not fail the store location exists, so a later run skips and changes nothing, whatever CSV it would read |
| Indexer.FreshIndexMatchesRows | vector.py:120-130 | indexing into an absent store yields one entry per row, in row order, each with the row's decimal id, the stripped Title-and-Review content of the filled row, and the row's rating, date and source row |
| Indexer.FreshIndexIdsDistinct | vector.py:93 | rows with distinct index labels give the store distinct ids |
| Indexer.VectorStore.constructor | vector.py:113-117 | opens the store with the given location flag and entries; a store whose location does not exist holds none |
| Indexer.VectorStore.AddDocuments | vector.py:128 | appends one (id, document) entry per document, in order, and leaves the location flag alone |
| Indexer.VectorStore.Persist | vector.py:130 | the location exists afterwards and the entries are unchanged |
| Indexer.IndexIfAbsent | vector.py:120-130 | the guard moves the store exactly as `IndexStep` says (skip when the location exists; otherwise load, build, add and persist, or stop with the load error having added nothing); a consistent store stays consistent |
| Indexer.RunTwice | vector.py:120-130 | once the first run succeeds, a second run is skipped and the store keeps the first run's state |

## Left out

- Embedding, similarity search and the retriever are left out (vector.py:107-117, 135-137). They are library code, so the formatter takes the retrieved documents as given.
- The language model, the prompt template and the question loop's input and output are left out (main.py outside lines 56-96). They are I/O or library code.
- Reading and parsing the CSV file is left out. `pd.read_csv` becomes the `Table` parameter, and `os.path.exists` becomes a boolean.
- What the `Chroma(...)` constructor does to the disk is left out (vector.py:113-117). The model treats the location as created only by `persist()`. If the library created the persist directory while constructing the store, that would happen at vector.py:113-117, before the check at vector.py:120 in the same run. The first run would then skip too, and the store would never get any documents. `PresentLocationNeverIndexes` states this outcome for a store opened at an existing location.
- Indexer.FreshIndexMatchesRows and the indexing branch of Indexer.IndexIfAbsent hold only because the model lets the store be opened with its location absent (`locationExists == false`). That matches the code as written only if the `Chroma(...)` constructor does not create the directory.
- The wording of error messages and exception types is left out. Errors are `FileNotFound` and `SchemaError(expected, missing)`.
- `astype(str)` on non-text cells is left out (number and date rendering). Cells are modelled as text already.
- `getattr(d, "page_content", str(d))` is left out. Each document is its page content.
- Prompt.IsExitCommand lower-cases ASCII letters only. For membership in {q, quit, exit} this gives the same answer as Python's `str.lower`: the only non-ASCII characters whose lower-case forms contain ASCII letters are U+0130 and U+212A, and they give "i̇" and "k", neither of which can form those words.
- Python's integer width needs no modelling: indices are unbounded in Python as they are here.
