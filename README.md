# DocQuery core: HWP text extraction, Markdown search, file naming

A Dafny model of three parts of DocQuery, with proofs about each.

- **HWP extractor** (`get_hwp_text`, `convert_tables` in `services/hwp_converter_service.py`). It checks the two streams every HWP 5.0 file has and reads the compression bit. It collects the `BodyText/Section<k>` streams and orders them by `k`. It walks each section as length-framed records. Each paragraph-text record (tag 67) is decoded as UTF-16LE (RFC 2781, section 2.2), its control characters are removed, and it is split into right-stripped lines. Runs of blank lines are collapsed and the text is assembled. Finally, maximal runs of "tabular" lines become Markdown pipe tables.
- **Keyword search** (`SearchService.search_keyword`). It finds every case-insensitive, non-overlapping occurrence of the keyword in every Markdown file, line by line. Each match is classified as a whole word (`complete`) or not (`partial`) and gets a 50-character context snippet. The result keeps the match count and the first ten snippets per file.
- **File handler** (`FileHandler`). It checks an upload's extension against the allow-list and replaces the characters a file system refuses. It filters the two folder listings and derives the `.md` name a converted document is saved under.

Modules, one per file:

- `Results`: `Option`, and `Result` with `Err` standing for an exception that escapes.
- `Seqs`: slicing identities for any element type.
- `PyStr`: the Python `str` operations the code calls.
- `Utf16`: strict UTF-16LE decoding and the encoder it inverts.
- `HwpText`: one paragraph-text record's lines.
- `HwpRecords`: the record walk over a section buffer.
- `HwpNormalize`: blank-line collapse and assembly.
- `HwpTables`: `convert_tables`.
- `HwpConverter`: `get_hwp_text`.
- `Search`: `search_keyword`.
- `FileHandling`: `FileHandler`.

The loops of the source are methods with loop invariants. Each method is proved equal to a specification function, and the properties are lemmas about those functions:

- the record loop: `HwpRecords.ReadRecords`;
- the collapse loop: `HwpNormalize.CollapseBlankLines`;
- the table scanner: `HwpTables.ConvertTables`;
- the section loops: `HwpConverter.ListSections` and `HwpConverter.GetHwpText`;
- the search loops: `Search.SearchKeyword`, `Search.SearchFile` and `Search.SearchLine`;
- the handler loops: `FileHandling.FileHandler.SafeFilename`, `GetInputFiles` and `GetOutputFiles`.

Exceptions that escape `get_hwp_text` are explicit error values (`HwpConverter.HwpError`):

- the `ValueError` for a file that is not HWP;
- the `IndexError` of a short `FileHeader` or a short entry;
- the `ValueError` of `int()`;
- a missing stream;
- a zlib error;
- the `struct.error` of a header cut short.

Python's integers are unbounded, like Dafny's. The one 32-bit quantity, the record header word, is read from four bytes. `&` and `>>` on it are written as `%` and `/` by powers of two.

Notes on the code as written, which the model follows:

- The control-character removal at line 42 of `services/hwp_converter_service.py` also deletes `\t`. So the text `get_hwp_text` hands to `convert_tables` never holds a tab, and its tables are only ever found through runs of two or more spaces (`HwpConverter.MarkdownNoTab`).
- A section entry `Section01` is read from the path `BodyText/Section1`, because the path is rebuilt from `int("01")`. If that stream does not exist, the whole extraction fails.
- A zlib error in one section, or a record header begun with fewer than four bytes left, raises out of `get_hwp_text`. No section is skipped.

## Model

| member | source | states |
|---|---|---|
| Utf16.DecodeLE | services/hwp_converter_service.py:38 | Strict UTF-16LE decoding: an odd number of bytes always fails, and a decoded text has at most half as many characters as bytes |
| Utf16.DecodeEncode | services/hwp_converter_service.py:38 | Decoding inverts encoding for every string, surrogate pairs included |
| Utf16.DecodeEncodeChar | services/hwp_converter_service.py:38 | One character's bytes followed by any bytes decode to that character followed by the decode of the rest, and fail exactly when the rest fails |
| Utf16.EncodeDecode | services/hwp_converter_service.py:38 | A successful decode re-encodes to exactly the input bytes |
| Utf16.DecodeIffEncoded | services/hwp_converter_service.py:37-40 | The strict decode succeeds exactly on the byte strings that are the encoding of some text, so every other payload takes the lenient path |
| Utf16.LoneLowSurrogateFails | services/hwp_converter_service.py:37-40 | A low surrogate with no high surrogate before it makes the strict decode fail, whatever follows |
| Utf16.UnpairedHighSurrogateFails | services/hwp_converter_service.py:37-40 | A high surrogate at the end, or followed by anything but a low surrogate, makes the strict decode fail |
| HwpText.DecodeText | services/hwp_converter_service.py:37-40 | The strict decode is used when it succeeds; the lenient decode only when it fails |
| HwpText.RemoveControls | services/hwp_converter_service.py:42 | The result holds no character in 0x00-0x1F and keeps every other character of the input |
| HwpText.RemoveControlsAppend | services/hwp_converter_service.py:42 | Removal commutes with concatenation, so surviving characters keep their order |
| HwpText.RemoveControlsKeepsClean | services/hwp_converter_service.py:42 | Text without control characters is unchanged |
| HwpText.RecordLines | services/hwp_converter_service.py:36-44 | What one tag-67 record contributes (decode, control removal, `splitlines`, `rstrip`); no contract of its own, its properties are `HwpText.RecordLinesClean`, `HwpText.RecordLinesSlices`, `HwpText.RecordLinesKeepText` (the surviving text reaches the lines) and `HwpText.RecordLinesOne` |
| HwpText.RecordLinesSlices | services/hwp_converter_service.py:42-44 | The record gives one line per `splitlines()` piece of the cleaned text, in order; line k is the right-strip of piece k, and each piece is a contiguous slice of the cleaned text |
| HwpText.RecordLinesKeepText | services/hwp_converter_service.py:42-44 | Nothing of the record's cleaned text is lost but line boundaries: the pieces the lines are right-stripped from concatenate to that text with its boundaries removed |
| HwpText.RecordLinesOne | services/hwp_converter_service.py:42-44 | A record whose cleaned text is non-empty and holds no line boundary gives exactly one line, the right-stripped text |
| HwpText.RStripAll | services/hwp_converter_service.py:43-44 | One right-stripped line per piece, in the order of the pieces |
| HwpText.RecordLinesClean | services/hwp_converter_service.py:36-44 | Every line a record contributes has no control character, no line boundary, and equals its own right-strip |
| HwpRecords.TagOf | services/hwp_converter_service.py:33 | `header & 0x3ff` is below 0x400 |
| HwpRecords.SizeOf | services/hwp_converter_service.py:34 | `(header >> 20) & 0xfff` is below 0x1000 |
| HwpRecords.RecordAt | services/hwp_converter_service.py:35-44 | The lines of the record at a cursor (none unless its tag is 67); no contract of its own, stated through `HwpRecords.WalkStepTo` and `HwpRecords.AppendText` |
| HwpRecords.WalkFrom | services/hwp_converter_service.py:30-45 | The record walk from a cursor; no contract of its own, its properties are `HwpRecords.ReadRecords`, `HwpRecords.WalkFailsOnlyAtShortHeader`, `HwpRecords.TruncatedPayloadEndsWalk` and `HwpRecords.WalkEncoded` |
| HwpRecords.HeaderWord | services/hwp_converter_service.py:32 | The little-endian header word is below 2^32 |
| HwpRecords.HeaderFields | services/hwp_converter_service.py:33-34 | The tag is bits 0-9 and the size bits 20-31 of the header; bits 10-19 affect neither |
| HwpRecords.HeaderFieldsOfBytes | services/hwp_converter_service.py:32-34 | Tag and size read directly off the four header bytes |
| HwpRecords.Payload | services/hwp_converter_service.py:36 | The payload is the declared slice when it fits, and the rest of the buffer when the length runs past the end |
| HwpRecords.WalkStepTo | services/hwp_converter_service.py:31-45 | One iteration: the record's own lines come first, and the walk resumes at exactly cursor + 4 + size, whatever the tag |
| HwpRecords.AppendText | services/hwp_converter_service.py:36-44 | Appends exactly the lines of the decoded, cleaned payload |
| HwpRecords.ReadRecords | services/hwp_converter_service.py:30-45 | The `while i < size` loop computes the walk: the lines of every record in order, or the offset of a short header |
| HwpRecords.TruncatedPayloadEndsWalk | services/hwp_converter_service.py:31-45 | A length running past the end raises nothing: the rest of the buffer is the payload and the walk stops after it |
| HwpRecords.WalkFailsOnlyAtShortHeader | services/hwp_converter_service.py:31-32 | The walk fails only at a header begun with one to three bytes left |
| HwpRecords.WalkLinesClean | services/hwp_converter_service.py:30-45 | Every line of a section that parses is clean |
| HwpRecords.WalkEncoded | services/hwp_converter_service.py:30-45 | Walking a buffer of encoded records yields exactly the text of the tag-67 records in record order; other tags and the level bits contribute nothing |
| HwpNormalize.Collapse | services/hwp_converter_service.py:48-56 | The collapse of blank-line runs; no contract of its own, its properties are the `Collapse…` lemmas below (among them `HwpNormalize.CollapseBlankRun`: a blank run leaves exactly one `""`) and `HwpNormalize.CollapseBlankLines` |
| HwpNormalize.CollapseFrom | services/hwp_converter_service.py:48-56 | The loop from a given `prev_blank`; no contract of its own, its properties are `HwpNormalize.CollapseBlankRun`, `HwpNormalize.CollapseNonBlankLine` and the `Collapse…` lemmas below |
| HwpNormalize.CollapseBlankRun | services/hwp_converter_service.py:49-53 | A run of one or more blank lines becomes exactly one `""`, or nothing right after a blank, and sets `prev_blank` |
| HwpNormalize.CollapseNonBlankLine | services/hwp_converter_service.py:54-56 | A non-blank line is kept unchanged and clears `prev_blank` |
| HwpNormalize.CollapseExample | services/hwp_converter_service.py:48-56 | `["a", "", "", "", "b"]` collapses to `["a", "", "b"]` |
| HwpNormalize.IsBlankIsStripEmpty | services/hwp_converter_service.py:50 | A line is blank exactly when its strip is empty |
| HwpNormalize.CollapseBlankLines | services/hwp_converter_service.py:48-56 | The `cleaned`/`prev_blank` loop computes the collapse |
| HwpNormalize.CollapseNoAdjacentBlanks | services/hwp_converter_service.py:48-56 | The collapsed list never has two consecutive blank entries, nor a leading blank after a blank |
| HwpNormalize.CollapseBlanksEmpty | services/hwp_converter_service.py:50-53 | The only blank entry the collapse writes is `""` |
| HwpNormalize.CollapseKeepsNonBlank | services/hwp_converter_service.py:54-56 | The collapse keeps exactly the non-blank lines, in order |
| HwpNormalize.CollapseEntries | services/hwp_converter_service.py:48-56 | Each entry of the result is `""` or an input line |
| HwpNormalize.CollapseFixed | services/hwp_converter_service.py:48-56 | A list already in collapsed shape is a fixed point |
| HwpNormalize.CollapseIdempotent | services/hwp_converter_service.py:48-56 | Collapsing twice equals collapsing once |
| HwpNormalize.Assemble | services/hwp_converter_service.py:57 | The text is a body followed by one `'\n'`, and the body is the join of the collapsed lines with its leading and trailing whitespace cut off: a slice of the join, with only whitespace outside it and none at its ends |
| HwpNormalize.AssembleOneNewline | services/hwp_converter_service.py:57 | The text ends in exactly one `'\n'` |
| HwpNormalize.AssembledNoTab | services/hwp_converter_service.py:42-57 | Assembled clean lines hold no tab |
| HwpTables.IsTabular | services/hwp_converter_service.py:69 | A line is tabular when it holds a tab or two spaces in a row (the condition of lines 69 and 72); no contract of its own, used by `HwpTables.RunEndMaximal` and `HwpTables.GroupsWellFormed` |
| HwpTables.HasSpaceRun | services/hwp_converter_service.py:69 | `re.search(r' {2,}', line)`; no contract of its own, see `HwpTables.SplitOfRunFree` |
| HwpTables.SplitSpaceRuns | services/hwp_converter_service.py:77 | `re.split(r' (2,)')`: a leading run gives an empty first piece, otherwise the first piece starts with the first character |
| HwpTables.DropGap | services/hwp_converter_service.py:77 | A run of spaces followed by a non-space is consumed whole, so a separator match is maximal |
| HwpTables.SplitSpaceRunsAfterPiece | services/hwp_converter_service.py:77 | A piece without double spaces, then a gap of two or more spaces, then text not starting with a space, splits into that piece followed by the split of the text |
| HwpTables.JoinGaps | services/hwp_converter_service.py:77 | Pieces joined with the given gaps start with the first piece, and one piece joins to itself |
| HwpTables.SplitSpaceRunsRunFree | services/hwp_converter_service.py:77 | No piece holds two spaces in a row |
| HwpTables.SplitSpaceRunsOfJoin | services/hwp_converter_service.py:77 | Splitting undoes a join of separable pieces by gaps of any width of two or more spaces each: the pieces come back exactly |
| HwpTables.SplitOfRunFree | services/hwp_converter_service.py:77 | A piece without a double space is not split |
| HwpTables.SplitSpaceRunsChars | services/hwp_converter_service.py:77 | The splitter only removes characters |
| HwpTables.Cells | services/hwp_converter_service.py:74-77 | A table line has at least one cell |
| HwpTables.CellsTrimmed | services/hwp_converter_service.py:75-77 | Every cell is stripped at both ends |
| HwpTables.CellsNoTab | services/hwp_converter_service.py:74-77 | No cell holds a tab |
| HwpTables.RenderRow | services/hwp_converter_service.py:88 | One pipe-table row (lines 88 and 91); no contract of its own, stated by `HwpTables.RenderRowFramed` |
| HwpTables.RenderRowFramed | services/hwp_converter_service.py:88 | A rendered row is `"\| "`, the cells joined by `" \| "`, then `" \|"`, and nothing else |
| HwpTables.Separator | services/hwp_converter_service.py:89 | The `---` separator line; no contract of its own, its form is stated by `HwpTables.TableShape` |
| HwpTables.RenderTable | services/hwp_converter_service.py:81-92 | The lines of one rendered table; no contract of its own, its properties are `HwpTables.TableShape` and `HwpTables.TableRowAt` |
| HwpTables.MaxCols | services/hwp_converter_service.py:81 | The widest row's width: no row is wider, and some row has it |
| HwpTables.PadRow | services/hwp_converter_service.py:84 | A padded row has exactly `max_cols` cells: the row, then `''`s |
| HwpTables.PadRows | services/hwp_converter_service.py:83-84 | The in-place padding loop pads every row to `max_cols` |
| HwpTables.TableShape | services/hwp_converter_service.py:81-92 | A block of n rows renders as n + 2 lines: padded header, a separator of `max_cols` `---` cells, the n - 1 padded body rows, and `""` |
| HwpTables.TableRowAt | services/hwp_converter_service.py:90-91 | Body row k of a block is rendered padded to `max_cols`, on line k + 1 of the table |
| HwpTables.RunEnd | services/hwp_converter_service.py:72 | The end of the run of tabular lines starting at a line, which is past it when that line is tabular |
| HwpTables.RunEndMaximal | services/hwp_converter_service.py:67-79 | A run holds only tabular lines and is maximal |
| HwpTables.CollectBlock | services/hwp_converter_service.py:71-79 | The block loop stops at the end of the run and collects the cells of each of its lines |
| HwpTables.BlockCells | services/hwp_converter_service.py:71-79 | One list of cells per table line, as many as there are lines (`HwpTables.BlockCellsAt` gives each) |
| HwpTables.AppendTable | services/hwp_converter_service.py:81-92 | Appends exactly the rendered table |
| HwpTables.ConvertTablesSpec | services/hwp_converter_service.py:96 | The result always ends with `'\n'` |
| HwpTables.GroupFrom | services/hwp_converter_service.py:64-95 | The scan's grouping of lines into plain lines and tables; no contract of its own, its properties are `HwpTables.GroupsCoverLines`, `HwpTables.GroupsWellFormed` and `HwpTables.NoTableUnchanged` |
| HwpTables.GroupsCoverLines | services/hwp_converter_service.py:64-95 | The scan's grouping loses no line and reorders none |
| HwpTables.GroupsWellFormed | services/hwp_converter_service.py:67-95 | Plain units are non-tabular lines, tables hold only tabular lines, and each table is maximal |
| HwpTables.NoTableUnchanged | services/hwp_converter_service.py:93-95 | Without tabular lines every line is copied verbatim, in order |
| HwpTables.ConvertTables | services/hwp_converter_service.py:64-96 | The `while i < len(lines)` scanner computes the table conversion |
| HwpConverter.Compressed | services/hwp_converter_service.py:17 | `header[36] & 1 == 1`; no contract of its own, see `HwpConverter.HeaderOnlyBit0` |
| HwpConverter.SectionOf | services/hwp_converter_service.py:20-23 | What one listing entry contributes; no contract of its own, its properties are `HwpConverter.SectionOfIff`, `HwpConverter.OtherEntriesIgnored` and `HwpConverter.SectionEntryRoundTrip` |
| HwpConverter.SortSections | services/hwp_converter_service.py:24 | `sections.sort()`; no contract of its own, its properties are `HwpConverter.SortSectionsSorted` and `HwpConverter.SortedUnique` |
| HwpConverter.Markdown | services/hwp_converter_service.py:10-57 | The text `get_hwp_text` hands to `convert_tables`; no contract of its own, its properties are `HwpConverter.MarkdownNoTab` and `HwpConverter.GetHwpText` |
| HwpConverter.ListSections | services/hwp_converter_service.py:19-23 | The listing loop computes `CollectSections`: the section entries in listing order, or the exception of the first bad entry |
| HwpConverter.SectionOfIff | services/hwp_converter_service.py:20-23 | An entry yields a section exactly when it is `('BodyText', 'Section<k>', ...)` with `int` accepting `k`, and the path is rebuilt from that integer |
| HwpConverter.OtherEntriesIgnored | services/hwp_converter_service.py:21 | Entries outside `BodyText` are ignored |
| HwpConverter.SectionEntryRoundTrip | services/hwp_converter_service.py:21-23 | The entry of section k gives back section k with path `BodyText/Section<k>` |
| HwpConverter.CollectedWellFormed | services/hwp_converter_service.py:20-23 | Every collected section's path is the one rebuilt from its number |
| HwpConverter.CollectedFromEntries | services/hwp_converter_service.py:20-23 | Every collected section comes from a listed entry |
| HwpConverter.CollectedAllSections | services/hwp_converter_service.py:20-23 | Every `('BodyText', 'Section<k>')` entry that `int` accepts is collected |
| HwpConverter.CollectFailsAtFirstBadEntry | services/hwp_converter_service.py:20-23 | The listing raises exactly when some entry raises, and then with the exception of the first such entry |
| HwpConverter.CollectSections | services/hwp_converter_service.py:19-23 | The `sections` list before sorting; no contract of its own, its properties are `HwpConverter.ListSections`, `HwpConverter.CollectedWellFormed`, `HwpConverter.CollectedFromEntries`, `HwpConverter.CollectedAllSections` and `HwpConverter.CollectFailsAtFirstBadEntry` |
| HwpConverter.SectionPath | services/hwp_converter_service.py:23 | `f"BodyText/Section{idx}"`; no contract of its own, see `HwpConverter.SectionEntryRoundTrip` and `HwpConverter.SectionPathNotHeader` |
| HwpConverter.SortSectionsSorted | services/hwp_converter_service.py:24 | The sort orders by number and is a permutation |
| HwpConverter.SortedUnique | services/hwp_converter_service.py:24 | Any two ordered permutations of well-formed sections are equal, so ordering by number alone gives Python's tuple order |
| HwpConverter.ReadSection | services/hwp_converter_service.py:28-45 | One stream: missing stream, zlib error or short header raise; otherwise the record walk's lines |
| HwpConverter.Inflated | services/hwp_converter_service.py:27-29 | The buffer the walk reads: the raw stream, or its inflation when compressed, with a zlib error raised; no contract of its own, stated through `HwpConverter.ReadSection` |
| HwpConverter.SectionLines | services/hwp_converter_service.py:28-45 | One section's lines, or its exception; no contract of its own, `HwpConverter.ReadSection` computes it |
| HwpConverter.SectionsText | services/hwp_converter_service.py:26-45 | `md_lines` after the sections loop; no contract of its own, its properties are `HwpConverter.SectionsTextClean` and `HwpConverter.SectionsIgnoreHeader` |
| HwpConverter.GetHwpText | services/hwp_converter_service.py:10-59 | The whole extraction: stream checks, compression bit, sorted sections, record walk, collapse, assembly and table conversion |
| HwpConverter.Extracted | services/hwp_converter_service.py:10-59 | What `get_hwp_text` returns or raises; no contract of its own, its properties are `HwpConverter.GetHwpText`, `HwpConverter.MissingStreamRejected` and `HwpConverter.HeaderOnlyBit0` |
| HwpConverter.MissingStreamRejected | services/hwp_converter_service.py:13-14 | Without `FileHeader` or `\x05HwpSummaryInformation` the file is rejected, whatever else it holds |
| HwpConverter.HeaderOnlyBit0 | services/hwp_converter_service.py:16-17 | Only bit 0 of byte 36 of `FileHeader` affects the result |
| HwpConverter.SectionPathNotHeader | services/hwp_converter_service.py:23 | No section path is `FileHeader` |
| HwpConverter.SectionsIgnoreHeader | services/hwp_converter_service.py:27-28 | The sections' text does not depend on the `FileHeader` stream |
| HwpConverter.SectionsTextClean | services/hwp_converter_service.py:26-45 | Every line in `md_lines` is clean |
| HwpConverter.MarkdownNoTab | services/hwp_converter_service.py:42-57 | The text handed to `convert_tables` never holds a tab |
| PyStr.RStrip | services/hwp_converter_service.py:44 | `rstrip()`: a prefix with no trailing whitespace, and only whitespace was removed |
| PyStr.RStripIdempotent | services/hwp_converter_service.py:44 | Right-stripping twice equals once |
| PyStr.Strip | services/search_service.py:17 | `strip()` is empty exactly when the string is all whitespace, and otherwise starts and ends with a non-whitespace character |
| PyStr.StripIsStrip | services/search_service.py:17 | `strip()` cuts off only whitespace: the result is a slice of the string in place, with only whitespace before and after it |
| PyStr.StripOfUnique | services/hwp_converter_service.py:50 | Exactly one string is cut from a string that way, so the characterisation determines `strip()` |
| PyStr.StripIsStripOf | services/hwp_converter_service.py:50 | Any string so cut from `s` is `s.strip()` |
| PyStr.StripChars | services/hwp_converter_service.py:50 | Stripping only removes characters |
| PyStr.SplitLines | services/hwp_converter_service.py:43 | `splitlines()`; no contract of its own, its properties are `PyStr.SplitLinesChars`, `PyStr.SplitLinesSlices`, `PyStr.SplitLinesKeepsText`, `PyStr.SplitLinesOne` and `PyStr.SplitLinesOfJoin` |
| PyStr.SplitLinesSlices | services/hwp_converter_service.py:43 | Every piece of `splitlines()` is a contiguous slice of the string |
| PyStr.SplitLinesStep | services/hwp_converter_service.py:43 | A line without boundaries followed by `'\n'` is split off as the first piece |
| PyStr.SplitLinesOfJoin | services/hwp_converter_service.py:43 | `splitlines()` of boundary-free pieces joined with `'\n'` and ended by one `'\n'` gives back the pieces exactly, in order |
| PyStr.SplitLinesKeepsText | services/hwp_converter_service.py:43 | `splitlines()` drops only line boundaries: the pieces concatenate to the string with its boundary characters removed |
| PyStr.SplitLinesOne | services/hwp_converter_service.py:43 | A non-empty string without a line boundary is a single piece |
| PyStr.SplitLinesChars | services/hwp_converter_service.py:43 | `splitlines()` pieces hold no line boundary and only characters of the input |
| PyStr.JoinChars | services/hwp_converter_service.py:57 | A character of a join is in the separator or in a piece |
| PyStr.Split | services/search_service.py:31 | `split('\n')` gives at least one piece and no piece holds `'\n'` |
| PyStr.JoinSplit | services/search_service.py:31 | Joining the pieces with `'\n'` gives the content back |
| PyStr.ParseInt | services/hwp_converter_service.py:22 | `int()` on a string, `None` for the `ValueError`; no contract of its own, its properties are `PyStr.ParseIntOfString` and `PyStr.ParseIntNeedsDigit` |
| PyStr.ParseIntOfString | services/hwp_converter_service.py:22 | `int(str(i)) == i` for every integer |
| PyStr.ParseIntNeedsDigit | services/hwp_converter_service.py:22 | `int()` accepts only text that holds a digit |
| PyStr.Lower | models/file_handler.py:23 | `lower()` keeps the length and lowers each character in place |
| PyStr.RFind | models/file_handler.py:23 | `rfind`: -1 exactly when the character is absent, otherwise an occurrence |
| PyStr.RFindLast | models/file_handler.py:23 | No occurrence follows the one `rfind` reports |
| PyStr.RFindAfter | models/file_handler.py:23 | In `p + c + e` with no `c` in `e`, the last `c` is at `len(p)` |
| Search.FindFrom | services/search_service.py:33 | The start positions `finditer` reports from a position on; no contract of its own, its properties are `Search.FindFromSound` and `Search.FindFromComplete` |
| Search.FindFromSound | services/search_service.py:33 | `finditer` reports only matches, left to right, none overlapping the one before |
| Search.FindFromComplete | services/search_service.py:33 | `finditer` misses no match: every matching position is reported or inside a reported match |
| Search.ContextStart | services/search_service.py:49 | The context before a match is at most 50 characters, and exactly 50 when the line has them |
| Search.ContextEnd | services/search_service.py:50 | The context after a match is at most 50 characters, and exactly 50 when the line has them |
| Search.LineMatches | services/search_service.py:33 | Every reported match lies within its line |
| Search.SearchLine | services/search_service.py:33-69 | The inner loop appends one snippet per match, in order, and counts them |
| Search.SearchLines | services/search_service.py:32-69 | The line loop's snippets are those of every line in order, and `count` is their number |
| Search.SearchFile | services/search_service.py:27-69 | For one file, `count` is the number of matches and `snippets` holds them all, in discovery order |
| Search.SearchKeyword | services/search_service.py:12-79 | The search loop computes the result map |
| Search.BlankKeywordFindsNothing | services/search_service.py:17-18 | A keyword that is all whitespace gives an empty result |
| Search.SearchUpToKeys | services/search_service.py:24-75 | After each file, a file is in the result exactly when it was listed, readable and had a match, and its entry holds the count and the first ten snippets |
| Search.SearchResultKeys | services/search_service.py:71-75 | A file is in the result exactly when it is listed, readable and has a match; the entry's count is the total and its snippets the first min(10, count) |
| Search.Hits | services/search_service.py:72-75 | The count and the first ten snippets; no contract of its own, stated by `Search.SearchResultKeys` |
| Search.SearchUpTo | services/search_service.py:24-75 | `result` after the first n files; no contract of its own, stated by `Search.SearchUpToKeys` |
| Search.FileSnippets | services/search_service.py:31-69 | Every snippet of one file; no contract of its own, stated by `Search.SearchFile` and `Search.FileSnippetsMatch` |
| Search.SearchResult | services/search_service.py:12-79 | The result map of `search_keyword`; no contract of its own, its properties are `Search.SearchKeyword`, `Search.SearchResultKeys` and `Search.BlankKeywordFindsNothing` |
| Search.Classify | services/search_service.py:39-47 | `complete` or `partial`; no contract of its own, stated by `Search.SnippetType` |
| Search.MakeSnippet | services/search_service.py:49-68 | The snippet record of one match; no contract of its own, stated by `Search.SnippetFields` and `Search.SnippetType` |
| Search.SnippetFields | services/search_service.py:49-68 | `line_number` is i + 1; `matched` is `line[start:end]`; `before` is the previous line plus `'\n'` (only when i > 0) and at most 50 characters before the match; `after` is symmetric |
| Search.SnippetType | services/search_service.py:39-47 | `complete` exactly at a word boundary on both sides, otherwise `partial` |
| Search.LineSnippetsAt | services/search_service.py:33-69 | One snippet per match of the line, in the order of the matches |
| Search.MatchSnippetAt | services/search_service.py:33-59 | The snippet of each reported match is a match snippet |
| Search.LineSnippetsMatch | services/search_service.py:33-59 | Every snippet of a line is a match snippet |
| Search.FileSnippetsMatch | services/search_service.py:31-59 | Every snippet names a line of `content.split('\n')` and its `matched` text is a match reported on that line |
| FileHandling.FileHandler.AllowedFile | models/file_handler.py:17-27 | `allowed_file`; no contract of its own, its properties are `FileHandling.NoDotRejected`, `FileHandling.AllowedByLastExtension` and `FileHandling.InputFilesIn` |
| FileHandling.NoDotRejected | models/file_handler.py:19-21 | A filename with no `'.'` is rejected |
| FileHandling.AllowedByLastExtension | models/file_handler.py:23-24 | `base.ext` with no dot in `ext` is allowed exactly when `ext` in lower case is in the allowed set |
| FileHandling.Replace | models/file_handler.py:36 | `replace` keeps the length |
| FileHandling.ReplaceAt | models/file_handler.py:36 | `replace` changes exactly the occurrences of the character, in place |
| FileHandling.ReplaceEachAt | models/file_handler.py:35-36 | The replacement loop turns each replaced character into `_` and leaves every other character in place |
| FileHandling.ReplaceEach | models/file_handler.py:35-36 | The replacements keep the length of the name (`FileHandling.ReplaceEachAt` gives each character) |
| FileHandling.FileHandler.SafeFilename | models/file_handler.py:29-37 | The loop over `unsafe_chars` computes the sanitised name |
| FileHandling.SafeName | models/file_handler.py:33-37 | The sanitised name has the length of the input |
| FileHandling.SafeNameAt | models/file_handler.py:33-37 | Each of `/ \ : * ? " < > \|` becomes `_`; every other character is unchanged in place |
| FileHandling.SafeNameClean | models/file_handler.py:33-37 | The sanitised name holds none of the unsafe characters |
| FileHandling.SafeNameIdempotent | models/file_handler.py:33-37 | Sanitising twice equals sanitising once |
| FileHandling.FilterIn | models/file_handler.py:42-45 | A listed element is kept exactly when it is accepted |
| FileHandling.FilterAppend | models/file_handler.py:42-45 | Filtering commutes with concatenation, so the listing order is kept |
| FileHandling.FileHandler.GetInputFiles | models/file_handler.py:41-45 | The loop keeps the allowed names of the listing |
| FileHandling.InputFilesIn | models/file_handler.py:42-45 | A name is returned exactly when it is listed and allowed |
| FileHandling.InputFilesOrder | models/file_handler.py:42-45 | Input files keep the listing order |
| FileHandling.FileHandler.InputFiles | models/file_handler.py:39-45 | What `get_input_files` returns; no contract of its own, stated by `FileHandling.InputFilesIn` and `FileHandling.InputFilesOrder` |
| FileHandling.GetOutputFiles | models/file_handler.py:49-53 | The loop keeps the `.md` names of the listing |
| FileHandling.OutputFilesIn | models/file_handler.py:50-53 | A name is returned exactly when it is listed and ends with `.md` |
| FileHandling.OutputFilesOrder | models/file_handler.py:50-53 | Output files keep the listing order |
| FileHandling.OutputFiles | models/file_handler.py:47-53 | What `get_output_files` returns; no contract of its own, stated by `FileHandling.OutputFilesIn` and `FileHandling.OutputFilesOrder` |
| FileHandling.Basename | models/file_handler.py:71 | A basename holds no `/` |
| FileHandling.SplitExt | models/file_handler.py:72 | `os.path.splitext`; no contract of its own, its properties are `FileHandling.SplitExtParts`, `FileHandling.OutputNameOfFile` and `FileHandling.OutputNameNoExt` |
| FileHandling.SplitExtParts | models/file_handler.py:72 | Root and extension make up the name again, and an extension is a dot followed by no further dot or `/` |
| FileHandling.OutputName | models/file_handler.py:71-72 | The output name holds no `/` and ends with `.md` |
| FileHandling.PathJoin | models/file_handler.py:73 | `os.path.join`: the path ends with the name; an absolute name replaces the folder, a relative one is placed under the folder with one `/` between them |
| FileHandling.OutputNameOfFile | models/file_handler.py:71-72 | `dir/stem.ext`, with a stem that is not all dots, is saved as `stem.md` |
| FileHandling.OutputNameNoExt | models/file_handler.py:71-72 | A name with no dot after its first character (`README`, `.bashrc`) gets `.md` appended to the whole name |
| FileHandling.FileHandler.SaveMarkdownContent | models/file_handler.py:69-91 | Empty content writes nothing and returns `""`; otherwise the content is written to the output folder joined with the output name, and that path is returned unless the write raises |

## Left out

- The compound-file container (`olefile`, Microsoft Compound File Binary) is an input: the list of entries and a map from stream path to bytes. `olefile`'s case-insensitive stream lookup is not modelled; a path matches only exactly.
- Raw inflate (`zlib.decompress(raw, -15)`, RFC 1951) is a function parameter; `None` stands for a zlib error.
- The lenient fallback decode (`decode('utf-16', errors='ignore')`) is a function parameter: its byte-order-mark detection and ignore rules are not modelled.
- `str.isalnum` and the case folding of `re.IGNORECASE` are parameters of the search. The folding maps one character to one character, as the regular expression engine's simple case folding does.
- `str.lower()` in `allowed_file` is modelled for ASCII letters only; other letters are left unchanged.
- `int()` on the section suffix accepts surrounding whitespace, one sign and ASCII digits. Underscores between digits and non-ASCII digits are not modelled.
- Whitespace and line boundaries follow Python's sets for `strip`/`rstrip` and `splitlines`, listed by code point.
- File I/O is not modelled: `os.listdir`, `open`, `read`, `os.makedirs`, `file.save` and the write in `save_markdown_content`. Listings and file contents are parameters. A file whose read raises is absent from the search's contents map. The write's outcome is the `writeOk` parameter. The UTF-8 encoding with `errors='ignore'` is not modelled; the text is what is written.
- `SearchService._get_markdown_files` is not modelled separately: the search takes its list of files as a parameter. That list is what `FileHandling.OutputFiles` describes.
- Search.SearchKeyword: the result is a map, so the insertion order of Python's dict is not modelled.
- `print` and `traceback` calls, and the constructor's `os.makedirs`, are left out as output only.
- `FileHandler.save_uploaded_file` is not modelled: it is file I/O around `safe_filename`, which is modelled.
- Paths follow POSIX rules for `os.path.basename`, `os.path.splitext` and `os.path.join`; Windows separators are not modelled.
- `services/converter_service.py`, `app.py` and the controllers (threads, locks, timestamps, Flask routing) are not part of this model.
