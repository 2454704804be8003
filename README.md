# Policy-Extractor, modelled in Dafny

Policy-Extractor pulls policy statements out of city-planning documents
(PDF, Word, plain text). It has two modes:

- **Paragraph mode** (`backend/extract.py`) cuts a document into
  paragraphs. For a PDF this uses the layout of the page's text blocks. It
  then sends each paragraph to a language model and collects one row per
  paragraph.
- **Label mode** (`backend/extract_by_label.py`) takes a PDF page by page.
  It looks for the caller's policy labels, such as "Policy 6.2:", using
  patterns that generalise each label. Only the pages on which a label is
  found are sent to the model.

A keyword tagger (`backend/filter.py`) files a policy under plan elements.
The Excel export sizes its columns by a small formula.

This project models that logic and proves what it promises. There are eight
modules, in seven files:

| module | file | what it models |
|---|---|---|
| `Wrappers`, `Text` | `text.dfy` | The Python string operations the code relies on: `strip`, `lower`, `in`, `join`, `split`, `splitlines`, `sorted(set(...))`, and the classes `\s`, `\w` and `\d`. |
| `PageCleaner` | `page_cleaner.dfy` | `clean_page_text`, `extract_text_with_page_numbers`, `clean_all_pages`, and the PDF branch of label-mode `extract_text`. |
| `LabelMatcher` | `label_matcher.dfy` | `generate_broad_regex` and `find_policy_labels`. It has a small pattern datatype and a backtracking matcher for it, plus `findall`. |
| `Layout` | `layout.dfy` | `extract_paragraphs_from_pdf`. |
| `Extract` | `extract.dfy` | The file-type dispatch of both `extract_text` functions, and the column widths of `save_to_excel`. |
| `Scheduler` | `scheduler.dfy` | `process_document`, `process_document_with_labels`, and the error rule of both query functions. |
| `PolicyFilter` | `filter.dfy` | `tag_policy_element` over `ELEMENT_KEYWORDS`. |

`extract_paragraphs_from_pdf` appears twice, in `backend/extract.py` and in
`extraction_utils.py`. The two copies are the same statement for statement,
so `Layout` models the algorithm once and its rows cite both files. Every
property proved for it holds for both copies.

**How the model is built:**

- The loops of the source are methods with loop invariants: the cleaning
  loops, the label compiler, the block loop, the two schedulers, the
  column-width loop and the tagger.
- Each method is proved equal to a specification function.
- The promised properties are proved as lemmas about those functions.

**How the outside world is represented:**

- **Language model:** a function from the chunk to a `Reply`, which is one
  of a response text, no response, or a raised exception with its message.
  In label mode the function also receives the labels found on the page.
- **Progress, messages and pauses:** the progress bar, the progress text,
  the warnings, `st.info`, `st.stop` and `time.sleep` are recorded in order
  as an event log. They are not performed.
- **Files:** an upload is its name plus what the parsers would read from
  it: the PDF's block lists, its page texts, the Word paragraphs, and the
  decoded text.
- **Label-finder parameter:** the label-mode loop takes the label finder as
  a parameter (`Scheduler.Finder`). `ProcessDocumentWithLabels` passes it
  `LabelMatcher.FindPolicyLabels`, and that call is what makes the model
  match `find_policy_labels`. The lemmas about the loop hold for any finder,
  so they hold for that one in particular.

**One place where the code defeats its own line merge.** The merge keeps a
line break after a line that ends in `.`, `?`, `!` or `:`: it appends `"\n"`
after such a line (`backend/extract_by_label.py:62-63`), so that only the
other lines run on with a space. But the next step, the whitespace collapse
`re.sub(r"\s+", " ", ...)` (`:69`), turns that newline into a space before
the `" \n "` rewrite (`:70`) can see it. So no line break survives cleaning.
The model follows the code: `PageCleaner.CleanPageIsNormal` proves that a
cleaned page holds no line break at all.

## Model

| member | source | states |
|---|---|---|
| Text.Strip | backend/extract_by_label.py:28 | `s.strip()` has no whitespace at either end and is no longer than `s` |
| Text.StripSlice | backend/extract_by_label.py:55 | the stripped string is a slice of the original with only whitespace cut off around it |
| Text.StripEmpty | backend/extract_by_label.py:52 | stripping leaves nothing exactly when the line is all whitespace (`not line.strip()`) |
| Text.StripIdempotent | backend/extract_by_label.py:225 | stripping an already stripped text changes nothing, so `para_text.strip()` of a stripped page is the page |
| Text.SpaceChars | backend/extract_by_label.py:69 | `\s` and `isspace()` are exactly the listed characters: ASCII tab to CR, U+001C–U+001F, space, U+0085, U+00A0, U+1680, U+2000–U+200A, U+2028, U+2029, U+202F, U+205F, U+3000 |
| Text.Lower | backend/filter.py:17 | `lower()` keeps the length and lower-cases each character |
| Text.Split | backend/extract.py:83 | `split(sep)` yields at least one piece, none holds the separator, and joining the pieces with it gives the text back |
| Text.SplitJoinBlankLine | backend/extract_by_label.py:81 | pages without newlines, joined with blank lines, split back into exactly those pages |
| Text.SplitLines | backend/extract_by_label.py:38 | `splitlines()` yields lines without line breaks |
| Text.SplitLinesSpec | backend/extract_by_label.py:38 | `splitlines()` loses exactly the line breaks: the lines, concatenated, are the text without its break characters, and there is one line per break (`\r\n` counted once), plus one for text after the last break |
| Text.SortedSet | backend/extract_by_label.py:157 | `sorted(set(xs))` is strictly increasing and holds exactly the elements of `xs` |
| Text.StrictlySortedUnique | backend/extract_by_label.py:157 | two strictly sorted lists with the same elements are equal, so `SortedSet` is the one sorted list of the distinct elements |
| Text.LessTransitive | backend/extract_by_label.py:157 | Python's string order is transitive (also irreflexive and total: `LessIrreflexive`, `LessTotal`) |
| PageCleaner.KeepLines | backend/extract_by_label.py:38-55 | the line loop produces `KeptLines(lines)`: the stripped lines that none of the four filters drops, in order |
| PageCleaner.KeptLines | backend/extract_by_label.py:41-55 | every kept line is non-empty and stripped, and there are no more kept lines than lines |
| PageCleaner.KeptLinesFrom | backend/extract_by_label.py:46-55 | every kept line is the stripped form of a line that is not a page header, not a bare year, not a date, and not blank |
| PageCleaner.KeptLinesHas | backend/extract_by_label.py:46-55 | every line that no filter drops is kept, stripped |
| PageCleaner.KeptLinesAppend | backend/extract_by_label.py:41-55 | the line filter works line by line: the lines of two parts are kept in order, the first part's before the second's |
| PageCleaner.MergeLines | backend/extract_by_label.py:58-66 | the merge loop appends each line with its separator: `"\n"` after a line ending in `.?!:`, `" "` after another non-last line, nothing after the last |
| PageCleaner.Collapse | backend/extract_by_label.py:69 | `re.sub(r"\s+", " ", s)` is no longer than `s`, empty exactly when `s` is, and starts with whitespace exactly when `s` does |
| PageCleaner.CollapseSingleSpaced | backend/extract_by_label.py:69 | after the collapse every whitespace character is a single space not followed by whitespace |
| PageCleaner.CollapseNonSpace | backend/extract_by_label.py:69 | the collapse changes nothing but whitespace |
| PageCleaner.NormaliseMerged | backend/extract_by_label.py:58-72 | merging, collapsing, the `" \n "` rewrite and the strip together give the kept lines, each collapsed, joined by single spaces |
| PageCleaner.NormalHasNoNewline | backend/extract_by_label.py:70 | on collapsed, trimmed text the `" \n "` rewrite changes nothing |
| PageCleaner.CleanPageText | backend/extract_by_label.py:37-72 | `clean_page_text` gives the closed form `CleanPage`: no line break, single spaces between other characters only, no whitespace at the ends |
| PageCleaner.CleanPageIsNormal | backend/extract_by_label.py:37-72 | a cleaned page has no line break and no double or edge whitespace, and it is empty exactly when every line was dropped |
| PageCleaner.CleanPageContent | backend/extract_by_label.py:55-72 | cleaning loses and invents no character of the kept lines other than whitespace, and keeps their order |
| PageCleaner.NumberedPages | backend/extract_by_label.py:27-32 | one entry per page, numbered from 1 in order, holding the page's stripped text |
| PageCleaner.ExtractTextWithPageNumbers | backend/extract_by_label.py:23-34 | the page loop produces `NumberedPages(raw)`: page `i + 1` holds the stripped text of the `i`-th page |
| PageCleaner.PdfChunks | backend/extract_by_label.py:110-117 | the chunk loop keeps exactly the pages with non-empty cleaned text, each under its own page number, with every such page present |
| PageCleaner.KeptPagesFrom | backend/extract_by_label.py:110-117 | every chunk is the non-empty cleaned text of one of the pages, under that page's number |
| PageCleaner.KeptPagesHas | backend/extract_by_label.py:110-117 | every page whose cleaned text is not empty has its chunk |
| PageCleaner.KeptPagesIncreasing | backend/extract_by_label.py:110-117 | dropping empty pages keeps the page numbers increasing |
| PageCleaner.PdfChunkNumbersIncrease | backend/extract_by_label.py:27-32 | chunk page numbers are strictly increasing and lie between 1 and the number of pages |
| PageCleaner.CleanAllPages | backend/extract_by_label.py:75-82 | `clean_all_pages` joins the cleaned pages with blank lines, and splitting the result at blank lines gives the cleaned pages back |
| PageCleaner.CleanTextsSplit | backend/extract_by_label.py:81 | no cleaned page holds the blank line that separates pages, so the joined text can be split back into its pages |
| LabelMatcher.RunEnd | backend/extract_by_label.py:140 | a run of one token class ends at the first character of another class, or at the end |
| LabelMatcher.TokensSpec | backend/extract_by_label.py:140 | `re.findall(r'\w+\|\d+\|[^\w\s]+\|\s+', s)` gives non-empty runs of one class, neighbours differ in class, and together they spell `s` |
| LabelMatcher.TokensUnique | backend/extract_by_label.py:140 | the tokenisation is the only one with those properties |
| LabelMatcher.TokensAppend | backend/extract_by_label.py:140 | tokenising splits at every boundary between characters of different classes |
| LabelMatcher.PatternOf | backend/extract_by_label.py:142-150 | each token becomes its item, in order: whitespace `\s+`, a dotted number `[\d\.]+`, a word `\w+`, anything else itself, literally |
| LabelMatcher.GenerateBroadRegex | backend/extract_by_label.py:139-151 | the compiler loop produces `BroadPattern(s)`, and that pattern fully matches `s` |
| LabelMatcher.BroadPatternMatchesLabel | backend/extract_by_label.py:139-151 | the pattern built from a label matches the label itself |
| LabelMatcher.PatternOfMatches | backend/extract_by_label.py:142-151 | the items of any list of non-empty tokens match their concatenation |
| LabelMatcher.SlotVariantMatches | backend/extract_by_label.py:142-151 | replacing a number by another number, or a word by another word, gives the same pattern, which matches the variant too |
| LabelMatcher.PolicyLabelCoversSibling | backend/extract_by_label.py:139-151 | the pattern of "Policy 6.2:" matches "Policy 6.3:" |
| LabelMatcher.AcceptsCaseless | backend/extract_by_label.py:155 | under `re.IGNORECASE` a class accepts a letter in either case alike |
| LabelMatcher.MatchesFrame | backend/extract_by_label.py:155-156 | a match depends only on the characters it covers, up to letter case |
| LabelMatcher.MatchesConcat | backend/extract_by_label.py:154 | matches of two patterns at adjacent places make a match of their concatenation |
| LabelMatcher.ClassEnd | backend/extract_by_label.py:156 | a greedy `+` takes the longest accepted run |
| LabelMatcher.ClassEndLongest | backend/extract_by_label.py:156 | every accepted run ends no later than the greedy one |
| LabelMatcher.MatchAt | backend/extract_by_label.py:156 | the backtracking search at one position returns only real matches, ending at or after the floor |
| LabelMatcher.MatchAtComplete | backend/extract_by_label.py:156 | the backtracking misses nothing: when a match from a position exists, one is found |
| LabelMatcher.FirstMatch | backend/extract_by_label.py:154-156 | the alternation returns a match of one of its alternatives |
| LabelMatcher.FirstMatchComplete | backend/extract_by_label.py:154-156 | when any alternative matches at a position, the alternation does |
| LabelMatcher.Search | backend/extract_by_label.py:156 | a found result is a match of the alternation at or after the starting position, and a match at that position itself ends at or after the floor |
| LabelMatcher.SearchLeftmost | backend/extract_by_label.py:156 | the search is leftmost: no position before the one it returns, or none at all when it returns nothing, starts a match (at the starting position, one ending at or after the floor) |
| LabelMatcher.SearchComplete | backend/extract_by_label.py:156 | when the alternation matches at or after a position, the search finds a match |
| LabelMatcher.Scan | backend/extract_by_label.py:156 | `findall`'s spans are real matches, in order and non-overlapping, and never the same empty match twice |
| LabelMatcher.FindAll | backend/extract_by_label.py:156 | each piece `findall` returns is the text of one of its match spans |
| LabelMatcher.FindAllNonEmpty | backend/extract_by_label.py:156 | when the alternation matches anywhere, `findall` returns something |
| LabelMatcher.Alternatives | backend/extract_by_label.py:154 | the alternation has one pattern per label, and no labels give the empty pattern |
| LabelMatcher.FindLabels | backend/extract_by_label.py:157 | the found labels are strictly sorted, hence without duplicates, and are exactly the stripped matches |
| LabelMatcher.FoundLabelsComeFromPage | backend/extract_by_label.py:153-158 | every found label is a trimmed piece of the page that some label's pattern matches |
| LabelMatcher.FindLabelsNonEmpty | backend/extract_by_label.py:153-158 | a page on which the alternation matches anywhere yields a found label |
| LabelMatcher.LabelMatchesOnPage | backend/extract_by_label.py:153-156 | a label written on the page in any letter case is matched there by its own pattern |
| LabelMatcher.LabelOnPageIsFound | backend/extract_by_label.py:153-158 | a page holding one of the labels, in any letter case, yields at least one found label |
| LabelMatcher.NoLabelsFindEmpty | backend/extract_by_label.py:154-158 | with no labels the combined pattern is empty, and the only label found is `""` |
| Layout.InsertBlock | backend/extract.py:30 | inserting a block gives the old blocks plus it, as a multiset |
| Layout.SortBlocks | backend/extract.py:30 | the sort is a permutation of the page's blocks |
| Layout.SortBlocksSorted | extraction_utils.py:20 | the sorted blocks are in ascending `(y0, x0)` order |
| Layout.InsertSorted | backend/extract.py:30 | inserting into sorted blocks keeps them sorted |
| Layout.InsertStable | backend/extract.py:30 | insertion places the new block after every existing block with the same key |
| Layout.SortBlocksStable | backend/extract.py:30 | the sort is stable: blocks with the same key keep their relative order, and all of them remain |
| Layout.AppendPageParagraphs | backend/extract.py:29-54 | the per-page body appends exactly that page's paragraphs to those already found |
| Layout.ExtractParagraphsFromPdf | extraction_utils.py:4-46 | the page loop gives `PdfParagraphs`, the pages' paragraphs in page order, each non-empty and stripped (the same for `backend/extract.py:23-56`) |
| Layout.RunTracks | backend/extract.py:35-51 | along the block loop the state tracks the non-blank blocks seen so far: they are well formed (non-empty, stripped), joined by spaces they are the paragraphs, and there is one paragraph more than cuts |
| Layout.PageParagraphsSpec | extraction_utils.py:18-44 | a page's paragraphs are exactly `Groups` of its non-blank blocks in sorted order: one paragraph per stretch between consecutive cuts, its block texts joined by single spaces; so they are non-empty and stripped, and there is one more than there are cuts, or none for a page without text |
| Layout.CutsSpec | backend/extract.py:42-49 | a position `j` is a cut, where a new paragraph starts, exactly when `0 < j` and non-blank block `j` starts more than the threshold below the bottom of block `j - 1` |
| Layout.RunGroups | backend/extract.py:35-51 | along the block loop, the emitted paragraphs and the running one are the groups of the non-blank blocks seen so far |
| Layout.GroupsBreak | backend/extract.py:42-46 | a block after a gap wider than the threshold starts a paragraph of its own |
| Layout.GroupsMerge | backend/extract.py:47-48 | a block after a narrower gap is added, after one space, to the last paragraph |
| Layout.RunSkipsBlank | extraction_utils.py:26-30 | a block whose stripped text is empty changes nothing, not even `last_bottom` |
| Layout.TwoBlocks | backend/extract.py:42-49 | two non-blank blocks in reading order are split exactly when the second starts more than the threshold below the first; a gap equal to the threshold joins them with one space |
| Layout.PdfParagraphsSplit | extraction_utils.py:18-44 | paragraphs never cross a page: the pages before and after any point produce their paragraphs independently |
| Layout.PdfParagraphsClean | backend/extract.py:53-54 | every paragraph of the document is non-empty and stripped |
| Extract.NonBlankStripped | backend/extract.py:79 | the comprehension yields non-empty stripped texts, no more than it was given |
| Extract.NonBlankStrippedAppend | backend/extract.py:82-84 | the comprehension keeps order: the pieces of two parts come out first part first |
| Extract.NonBlankStrippedFrom | backend/extract.py:83 | every result is the stripped text of one of the pieces |
| Extract.NonBlankStrippedOne | backend/extract.py:83 | one piece yields its stripped text, or nothing when that is empty |
| Extract.TxtParagraphsHaveNoBlankLine | backend/extract.py:82-84 | no paragraph of a text file holds the blank line it was cut at |
| Extract.ExtractText | backend/extract.py:60-90 | an unsupported name is refused with "Unsupported file type.", a supported one never is; every chunk is non-empty and stripped |
| Extract.ExtractTextByLabel | backend/extract_by_label.py:86-133 | a PDF gives its cleaned non-empty pages with their numbers; Word and text files give their paragraphs; any other name is refused |
| Extract.LongestCell | backend/extract.py:203 | the longest cell length bounds every cell of the column and is reached by one of them, or is 0 without rows |
| Extract.ColumnWidths | backend/extract.py:201-204 | one width per column, each `min(max(longest cell, header) + 5, 60)`; a table without rows has no columns |
| Extract.ColumnWidthSpec | backend/extract.py:198-204 | a width is at most 60; it is at least 5 more than the header and than each cell, capped at 60; and it is 60 or exactly 5 more than the header or one cell |
| Scheduler.PolicyOfReply | backend/extract.py:110-115 | a raised exception is stored as a text starting "Error:"; a response is stored stripped; no response is stored as "No response" |
| Scheduler.ChunkRecords | backend/extract.py:154-161 | one record per chunk, numbered `i + 1` in order, holding the stripped chunk and its policy |
| Scheduler.ProcessDocument | backend/extract.py:123-177 | a refused upload stops with the error; over 1500 chunks gives `{}` and only a warning; otherwise the records of `ChunkRecords` and the log of `ChunkLog` |
| Scheduler.ParagraphLoop | backend/extract.py:151-164 | the paragraph loop gives `ChunkRecords` and produces the event log `ChunkLog` |
| Scheduler.ChunkLogSpec | backend/extract.py:154-164 | after `k` passes exactly the first `k` chunks have been queried, in order; there is one pause per pass except after the last chunk; the log ends on a full progress bar |
| Scheduler.ChunkEventsSpec | backend/extract.py:155-164 | one pass queries its chunk once and pauses unless it is the last |
| Scheduler.ProcessDocumentSpec | backend/extract.py:133-164 | within the quota every chunk is queried exactly once, in order, with `total - 1` pauses, and record `i` is numbered `i + 1` and holds chunk `i` |
| Scheduler.EventsAppend | backend/extract.py:154-164 | queries and pauses of two stretches of the log add up |
| Scheduler.Filter | backend/extract_by_label.py:194 | the filtered pages pass the test, and there are no more of them than pages |
| Scheduler.FilterFrom | backend/extract_by_label.py:194 | every page kept comes from the input |
| Scheduler.FilterHas | backend/extract_by_label.py:194 | every input page that passes the test is kept |
| Scheduler.FilterIncreasing | backend/extract_by_label.py:194 | filtering keeps page numbers increasing |
| Scheduler.NonEmptyPages | backend/extract_by_label.py:194 | `page_chunks` holds only pages with non-empty text |
| Scheduler.ProcessDocumentWithLabels | backend/extract_by_label.py:190-232 | over 1000 raw pages gives `{}` and only a warning; otherwise the records of `PageRecords` and the log of `PageLog`, with pauses guarded by the raw page count |
| Scheduler.LabelLoop | backend/extract_by_label.py:215-230 | the page loop gives one record per page on which labels are found, and the event log `PageLog` |
| Scheduler.PageEventsSpec | backend/extract_by_label.py:217-230 | a page without labels is not queried and reaches no pause; a page with labels is queried once and pauses when `i < sleepBound - 1`, the guard bound being the raw page count in the as-written run and the number of visited pages in the corrected one |
| Scheduler.PageLogQueries | backend/extract_by_label.py:215-230 | the pages queried are exactly those on which a label is found, in order |
| Scheduler.PageRecordsFound | backend/extract_by_label.py:218-227 | the records are those of the pages on which a label is found, in order |
| Scheduler.RawPagesFrom | backend/extract_by_label.py:193-194 | each kept page is a raw page, numbered from 1, non-empty once stripped |
| Scheduler.RawPagesHas | backend/extract_by_label.py:193-194 | every raw page that is non-empty once stripped and passes the test is kept |
| Scheduler.LabelPagesFrom | backend/extract_by_label.py:193-221 | each queried page is a raw page, numbered from 1, non-empty once stripped and bearing a label |
| Scheduler.LabelRunQueries | backend/extract_by_label.py:215-227 | one query per record, in order, each on the text the record holds |
| Scheduler.LabelRecordsIncreasing | backend/extract_by_label.py:215-227 | the records are in increasing page order |
| Scheduler.LabelRecordOf | backend/extract_by_label.py:218-227 | each record is for a non-empty page with a found label, and holds its page number, the stripped page and the policy the model gives for that page and those labels |
| Scheduler.LabelRecordsComplete | backend/extract_by_label.py:215-227 | every non-empty page on which a label is found has its record |
| Scheduler.AsWrittenRunEndsOnPause | backend/extract_by_label.py:229-230 | as written, the pages "Policy 1" and "" with the label "Policy 1" make the run end on a pause |
| Scheduler.ProcessDocumentWithLabelsFixed | backend/extract_by_label.py:190-232 | as `ProcessDocumentWithLabels`, with the pause guarded by the number of pages the loop visits |
| Scheduler.FixedRunEndsWithoutPause | backend/extract_by_label.py:229-230 | with the corrected guard the last pass never pauses, so the run never ends on a pause; the pauses are exactly one per labelled page before the last page visited |
| Scheduler.PageLogSleeps | backend/extract_by_label.py:215-230 | while the passes stay below the guard bound, the pauses so far are one per labelled page |
| Scheduler.AsWrittenPausesAfterEveryQuery | backend/extract_by_label.py:229-230 | when the guard bound exceeds the number of visited pages, as `len(text_chunks)` does once a page is blank, every query is followed by a pause, the last one included |
| PolicyFilter.MatchIndices | backend/filter.py:19-21 | the matching table positions are increasing, and a position is listed exactly when one of its keywords occurs |
| PolicyFilter.CollectTags | backend/filter.py:18-21 | the element loop collects `Matching(text_lower, table)` |
| PolicyFilter.TagPolicyElement | backend/filter.py:16-22 | `tag_policy_element` gives `Tags(text)` |
| PolicyFilter.TableNames | backend/filter.py:3-13 | the element names are distinct, and none is "Other" |
| PolicyFilter.MatchingHas | backend/filter.py:19-21 | with distinct names, an element is listed exactly when one of its keywords occurs |
| PolicyFilter.MatchingEmpty | backend/filter.py:19-22 | nothing is listed exactly when no element has an occurring keyword, and only element names are listed |
| PolicyFilter.TagsNonEmpty | backend/filter.py:22 | the tags are never empty |
| PolicyFilter.TagMembership | backend/filter.py:17-21 | an element is a tag exactly when one of its keywords is a substring of the lower-cased text |
| PolicyFilter.TagsOther | backend/filter.py:21-22 | the tags are `["Other"]` exactly when no keyword of any element occurs, and "Other" never stands beside an element tag |
| PolicyFilter.TagsOrdered | backend/filter.py:19-21 | the tags follow table order, and none is repeated |
| PolicyFilter.CapitalKeywordNeverMatches | backend/filter.py:17-20 | a keyword holding a capital letter never occurs in the lower-cased text |
| PolicyFilter.NoiseKeywordNLRNeverMatches | backend/filter.py:8 | the Noise keyword "NLR" never matches any text |

## Left out

- The file parsers (PyMuPDF, pdfplumber, python-docx, `read().decode()`) are left out. An upload is given by its name and by what they would read from it. Block coordinates are integers, not floats.
- The Gemini client, the prompts and the API key are left out. The model is a function from the chunk (and the labels found on it) to a reply. It is deterministic, `Ok`/`Err` becomes `Response`/`Raised`, and `NoResponse` stands for a falsy response.
- The Streamlit calls and `time.sleep` are recorded as events, not performed. Progress is kept as the integer pair `(i + 1, total)`, not the float `(i + 1) / total`.
- The estimated processing time is left out because it is float arithmetic that is only displayed.
- Pandas and xlsxwriter are left out: the DataFrame becomes a sequence of records, and the Excel export keeps only its width formula. Each cell's text stands for `astype(str)` of the cell, so the width of the integer number column is not derived from the integer.
- `app.py` and `backend/rag.py` are not part of this model. The first is the interface and the second is sentence embeddings with a FAISS index.
- Text.Lower: lower-cases ASCII letters only, while Python's `lower()` folds all of Unicode.
- Text.IsWordChar: `\w` and `\d` are taken to be ASCII, while Python's `re` is Unicode by default.
- LabelMatcher.AcceptsCaseless: case-insensitive matching is modelled as ASCII case folding. Python's `re.IGNORECASE` also equates a few non-ASCII letters with ASCII ones (U+0131, U+017F, U+212A).
- PageCleaner.IsPageHeader: the `[A-Z]*` of the header pattern is taken to accept ASCII letters only, but under `re.IGNORECASE` it also accepts U+0131, U+017F and U+212A.
- Scheduler.ProcessDocumentWithLabels: the `pd.DataFrame(results)` and the `{}` over the quota are represented by `Table` and `OverQuota`.
- The `print` for a page without labels is kept as the event `NoLabelsFound`, in place of console output.
- `extract_text` of the label mode stops the script for an unsupported file with `st.stop()`. The model returns `Failure("Unsupported file type.")` instead.
- `process_document` stops through `extract_text` (`backend/extract.py:87-88`, called at `:125`), which calls `st.error` and `st.stop()` for an unsupported file; the model's `ProcessDocument` returns `Halted` instead.

## Findings

| source | as written | input that shows it | evidently intended | confidence | as-written member | corrected member |
|---|---|---|---|---|---|---|
| backend/extract_by_label.py:229-230 | the pause after a queried page is guarded by `i < total_chunks - 1`, where `total_chunks` counts the raw pages but `i` counts only the non-empty ones | pages "Policy 1" and "" with the label "Policy 1": the only page is queried with `i = 0 < 1`, so the run ends on a pause | the last pass of the loop does not pause, just as the paragraph loop at `backend/extract.py:163-164` never pauses after its last chunk | not executed | Scheduler.AsWrittenRunEndsOnPause | Scheduler.FixedRunEndsWithoutPause |

`Scheduler.ProcessDocumentWithLabels` keeps the guard as written.
`Scheduler.ProcessDocumentWithLabelsFixed` guards the pause by the number of
pages the loop visits. Both are proved against `Scheduler.PageLog`, and the
two lemmas above are about that log under each guard.
`Scheduler.AsWrittenPausesAfterEveryQuery` generalises the example: as written,
once any page is blank, every query is followed by a pause, the last one
included. The corrected guard removes the pause of the last pass only. When
the last pages visited carry no label, the pause after the last query stays,
and `FixedRunEndsWithoutPause` states the exact count: one pause per labelled
page before the last page visited.
