# codespan-reporting: source positions and snippet layout, in Dafny

This project models two parts of the `codespan-reporting` crate and proves
properties of them:

- **Source files** (`codespan-reporting/src/files.rs`). A `SimpleFile` holds
  an origin, the source text (as UTF-8 bytes) and the line starts computed
  once at creation. On top of that it answers:
  - `line_start` and `line_range`;
  - `line_index`, a binary search over the line starts;
  - `line`;
  - `column_index` and `column_number`, which count characters before a byte
    offset and attribute an offset inside a character to that character.

  `SimpleFiles` is an append-only table of such files addressed by index,
  together with its `Files` delegations (`origin`, `line_index`, `line`,
  `source`).
- **The snippet layout engine** (`codespan-reporting/src/term/views.rs`).
  `RichDiagnostic::emit`:
  - turns each label into a `FileMark` holding every line it covers;
  - groups the marks by file, in the order the files are first met;
  - stable-sorts each file's marks by `(start, end)`;
  - computes one gutter width (`outer_padding`) with `count_digits`;
  - writes a header, one block per file, the notes and a closing empty line
    to the renderer.

  `ShortDiagnostic::emit` writes one located header per primary label, or a
  single plain header when there is none.

Both parts are modelled in the form the Rust code has:

- Lookups and the iterator pipelines of files.rs are functions.
- `SimpleFile::new`, the binary search and `count_digits` are methods with
  loops.
- `SimpleFiles` is a class whose `add` appends to its `files` field.
- The renderer is a class whose `entries` field each `render` call appends to.
- The two `emit` functions are methods with the loops of views.rs. They are
  proved against a layout function, the display list as a function of the
  diagnostic and the file table: `Layout.RichLayout` and
  `Layout.ShortLayout`.
- A write that fails (`?` in Rust) is modelled by a renderer with a finite
  `room`. After the first failure nothing more is written, and the result
  reports the failure. `Rendering.Wrote` states this for every emitting
  method: the output is a prefix of the layout, and it is the whole layout
  exactly when every write succeeded.

Modules:

| file | module | contents |
|---|---|---|
| options.dfy | Options | `Option` |
| seqs.dfy | Seqs | sequence identities |
| str.dfy | Str | UTF-8 bytes, `is_char_boundary`, characters before an offset, `trim().is_empty()` |
| files.dfy | Files | files.rs |
| diagnostics.dfy | Diagnostics, DisplayList | the diagnostic records and display-list entries views.rs uses |
| digits.dfy | Decimal | `count_digits` |
| renderer.dfy | Rendering | the renderer as an entry sink |
| grouping.dfy | Grouping | marks, grouping, sorting and gutter width, as functions |
| layout.dfy | Layout | the display lists of both forms, as functions |
| layout_facts.dfy | LayoutFacts | properties of the display lists |
| views.dfy | Views | the two `emit` methods and their loops |

## Model

| member | source | states |
|---|---|---|
| Files.LineStartsShape | codespan-reporting/src/files.rs:51-54 | the line starts begin with 0 and are strictly increasing; each later one follows a newline byte; every newline at byte `i` contributes `i + 1`; none exceeds the source length |
| Files.NewlineEndsShape | codespan-reporting/src/files.rs:51-54 | the offsets after the newlines are strictly increasing, each follows a newline byte, and every newline is found |
| Files.LineStartsExample | codespan-reporting/src/files.rs:250-267 | the line starts of `foo\nbar\r\n\nbaz` are `[0, 4, 9, 10]` |
| Files.LineTextsExample | codespan-reporting/src/files.rs:269-282 | the line texts of that source are `foo\n`, `bar\r\n`, `\n` and `baz` |
| Files.NewSimpleFile | codespan-reporting/src/files.rs:122-130 | the loop that collects the line starts yields exactly `LineStarts(source)`, so the new file is valid and keeps its origin and source |
| Files.SimpleFile.LineStart | codespan-reporting/src/files.rs:142-150 | defined exactly for indices up to the number of line starts, never beyond the source, and the end of the source for the index one past the last line |
| Files.SimpleFile.LineRange | codespan-reporting/src/files.rs:152-157 | defined exactly for indices below the number of line starts, and then an ordered range inside the source |
| Files.LinesTextIsPrefix | codespan-reporting/src/files.rs:142-157 | the texts of the first `n` lines, joined, are the source up to the start of line `n` |
| Files.LinesReassembleSource | codespan-reporting/src/files.rs:152-157 | the texts of all line ranges, joined in order, are the whole source |
| Files.LineTextNewlines | codespan-reporting/src/files.rs:51-54 | a line holds a newline only as its last byte; every line but the last ends with one, and the last has none |
| Files.LastAtMost | codespan-reporting/src/files.rs:172-177 | the line `line_index` should find: the last index whose start is at or before the offset |
| Files.BinarySearch | codespan-reporting/src/files.rs:172-177 | the standard library's binary search on sorted values: a hit names an equal element, and a miss gives the insertion point with smaller values before it and larger ones after |
| Files.SimpleFile.LineIndexOf | codespan-reporting/src/files.rs:172-177 | the line of an offset starts at or before it, and the next line (if any) starts after it |
| Files.SimpleFile.LineIndex | codespan-reporting/src/files.rs:172-177 | the binary search, with a hit at `line` giving `line` and a miss at `n` giving `n - 1`, always returns `LineIndexOf(offset)` and never `None` |
| Files.LineIndexContains | codespan-reporting/src/files.rs:172-177 | an offset inside the source lies in the range of its line; an offset at or past the end maps to the last line |
| Files.LineIndexMonotone | codespan-reporting/src/files.rs:172-177 | `line_index` does not decrease as the offset grows |
| Files.SimpleFile.LineAt | codespan-reporting/src/files.rs:179-184 | `line(i)` is defined exactly when `line_range(i)` is, with number `i + 1` and that range |
| Files.ColumnIndexCases | codespan-reporting/src/files.rs:78-95 | 0 before the line start; the line's character count at or past its end; the characters before it at a character boundary; and inside a character, the index of the character it interrupts |
| Files.ColumnIndexBounded | codespan-reporting/src/files.rs:78-95 | the column index never exceeds the line's character count |
| Files.ColumnIndexMonotone | codespan-reporting/src/files.rs:78-95 | the column index does not decrease as the offset grows |
| Files.ColumnIndexExample | codespan-reporting/src/files.rs:56-77 | for the line of three characters (4, 3 and 4 bytes) starting at byte 2, the documented column indices 0, 0, 0, 1, 2 and 3 at bytes 0, 2, 3, 6, 10 and 13, and column numbers 1 and 4 at the first and last of these |
| Files.ColumnNumber | codespan-reporting/src/files.rs:97-116 | the column number is between 1 and the character count plus 1 |
| Files.SimpleFiles.constructor | codespan-reporting/src/files.rs:204-207 | a new database is empty |
| Files.SimpleFiles.Add | codespan-reporting/src/files.rs:209-215 | returns the previous file count and appends exactly the new file, leaving the earlier ones unchanged |
| Files.SimpleFiles.Get | codespan-reporting/src/files.rs:217-220 | `None` exactly when the id is not below the file count, otherwise that file |
| Files.SimpleFiles.Origin | codespan-reporting/src/files.rs:231-233 | defined exactly for stored ids, and then that file's origin |
| Files.SimpleFiles.LineIndex | codespan-reporting/src/files.rs:235-237 | defined exactly for stored ids, and then that file's `line_index` |
| Files.SimpleFiles.LineAt | codespan-reporting/src/files.rs:239-241 | defined exactly for stored ids and existing lines, and then that file's `line` |
| Files.SimpleFiles.Source | codespan-reporting/src/files.rs:243-245 | defined exactly for stored ids, and then that file's source |
| Str.CharsBeforeMonotone | codespan-reporting/src/files.rs:82-86 | the number of character starts before an offset does not decrease with the offset |
| Str.CharsBeforeSaturates | codespan-reporting/src/files.rs:82-86 | at or past the end of the text, the character starts before an offset are all the characters |
| Decimal.CountDigits | codespan-reporting/src/term/views.rs:11-19 | the loop returns the digit count: 0 for 0, and otherwise the `c` with `10^(c-1) <= n < 10^c` |
| Decimal.DigitsBounds | codespan-reporting/src/term/views.rs:11-19 | `Digits(n)` is 0 exactly for 0, and otherwise lies between `10^(c-1)` and `10^c` |
| Decimal.DigitsMonotone | codespan-reporting/src/term/views.rs:11-19 | a smaller number never needs more digits |
| Grouping.MarkOf | codespan-reporting/src/term/views.rs:62-87 | a label's mark keeps its range and message, has the label's severity (`Some` for primary, `None` for secondary), and holds one line per line from the start line to the end line |
| Grouping.MarkLineAt | codespan-reporting/src/term/views.rs:79-85 | line `k` of a label's mark is line `start + k` of its file, as `files.line` gives it |
| Grouping.MarkOfWellFormed | codespan-reporting/src/term/views.rs:76-87 | a mark has at least one line; its range starts at or after the start of its first line and ends at or after the start of its last; and a multi-line mark starts on a character boundary of its first line |
| Grouping.FindFile | codespan-reporting/src/term/views.rs:92-95 | the `find` over the groups: `None` exactly when no group has the file, otherwise the first group that has it |
| Grouping.GroupCoversLabels | codespan-reporting/src/term/views.rs:62-107 | every label's file has a group |
| LayoutFacts.GroupsExactlyWithLabels | codespan-reporting/src/term/views.rs:62-107 | there are groups exactly when there are labels |
| Grouping.GroupOrder | codespan-reporting/src/term/views.rs:62-107 | the groups appear in the order of their files' first labels |
| Grouping.GroupFilesDistinct | codespan-reporting/src/term/views.rs:92-106 | no file has two groups |
| Grouping.GroupOrigins | codespan-reporting/src/term/views.rs:96-102 | each group names a file of the table and carries its origin |
| Grouping.GroupMarks | codespan-reporting/src/term/views.rs:92-106 | each group's marks are those of the labels of its file, in label order |
| Grouping.MarksOfFileSource | codespan-reporting/src/term/views.rs:92-106 | every mark of a file's group comes from a label of that file |
| Grouping.MarksOfFileComplete | codespan-reporting/src/term/views.rs:92-106 | every label's mark is in its file's group |
| Grouping.GroupKeepsEveryLabel | codespan-reporting/src/term/views.rs:92-106 | the groups hold as many marks in total as there are labels |
| Grouping.SortMarksSpec | codespan-reporting/src/term/views.rs:109-116 | each file's sorted marks are ordered by `(start, end)`, are a permutation of the unsorted marks, and keep the relative order of marks with equal ranges |
| Grouping.InsertMarkSorted | codespan-reporting/src/term/views.rs:109-116 | inserting a mark keeps the marks sorted by range |
| Grouping.InsertMarkStable | codespan-reporting/src/term/views.rs:109-116 | after inserting a mark, the marks with any given range are those before, in the same order, followed by the new mark when it has that range |
| Grouping.InsertMarkPermutes | codespan-reporting/src/term/views.rs:109-116 | inserting a mark adds exactly that mark to the multiset of marks |
| Grouping.SortedGroupsWellFormed | codespan-reporting/src/term/views.rs:109-116 | after sorting, every group still has at least one mark and all its marks are well formed |
| Grouping.OuterPaddingFits | codespan-reporting/src/term/views.rs:60-85 | the gutter is wide enough for the number of every line of every label |
| Grouping.OuterPaddingAttained | codespan-reporting/src/term/views.rs:60-85 | the gutter is 0 without labels, and otherwise exactly the width of some label's end line number |
| Grouping.MaxDigitsCovers | codespan-reporting/src/term/views.rs:82 | the running maximum of digit counts is at least each of them |
| Grouping.MaxDigitsAttained | codespan-reporting/src/term/views.rs:82 | the running maximum of digit counts is one of them, or 0 for none |
| Views.CollectLines | codespan-reporting/src/term/views.rs:79-85 | the line-collecting loop yields the lines from start to end and widens the gutter to the end line's digit count |
| Views.LabelMark | codespan-reporting/src/term/views.rs:63-87 | builds the mark of one label, `MarkOf`, and the widened gutter |
| Views.AddToGroup | codespan-reporting/src/term/views.rs:92-106 | the find-or-push appends the mark to the file's group, or opens a group carrying the file's origin |
| Views.GroupLabel | codespan-reporting/src/term/views.rs:62-107 | one loop pass turns the groups and gutter of the labels so far into those of one more label |
| Views.GroupLabels | codespan-reporting/src/term/views.rs:56-107 | the grouping loop yields `Group` and `OuterPadding` of all labels |
| Views.SortFileMarks | codespan-reporting/src/term/views.rs:109-116 | sorts every group's marks by range |
| Layout.LeftEntries | codespan-reporting/src/term/views.rs:276-283 | one `MultiLeft` source line per line in between, in order |
| Layout.NoteEntries | codespan-reporting/src/term/views.rs:317-322 | one `SourceNote` per note, in order |
| Layout.FileLocus | codespan-reporting/src/term/views.rs:151-162 | a block's locus has the group's origin and the first line number of its first mark, and a column within the line |
| Layout.LocusOf | codespan-reporting/src/term/views.rs:364-374 | a label's locus has its file's origin and the number of the line holding its start |
| Layout.PrimaryLabels | codespan-reporting/src/term/views.rs:361 | the filter keeps exactly the primary labels: every label it keeps is primary and one of the diagnostic's, and every primary label is kept |
| LayoutFacts.PrimaryLabelsAppend | codespan-reporting/src/term/views.rs:361 | filtering distributes over concatenation, so the primary labels stay in label order |
| LayoutFacts.RichFraming | codespan-reporting/src/term/views.rs:118-326 | the rich output starts with the plain header and ends with `Empty`, with the notes, in order, just before that `Empty`; with labels its second entry is `Empty`, and without labels it is just the header, the notes and the closing `Empty` |
| LayoutFacts.RichPadding | codespan-reporting/src/term/views.rs:118-326 | every entry of the rich output that has a gutter uses the one `outer_padding` |
| LayoutFacts.RichLoci | codespan-reporting/src/term/views.rs:144-167 | the rich output has one `SourceStart` per group, in group order, carrying that group's locus |
| LayoutFacts.BlockLocus | codespan-reporting/src/term/views.rs:151-162 | each block's locus is the locus of a label of its file whose range is least among that file's labels |
| LayoutFacts.SortedFirstMark | codespan-reporting/src/term/views.rs:109-116 | the first sorted mark is one of the marks and has the least range |
| LayoutFacts.SingleLineLabel | codespan-reporting/src/term/views.rs:205-217 | a label on one line yields exactly one source line, carrying `Single(start - line start .. end - line start, message)` |
| LayoutFacts.MultiLineLabel | codespan-reporting/src/term/views.rs:230-301 | a label on lines `s < e` yields `e - s + 1` source lines, numbered from `s + 1`: `MultiTopLeft` when the text before the mark is blank, else `MultiTop`; then `MultiLeft`; then `MultiBottom(end - last line start, message)` |
| LayoutFacts.LocatedHeadersArePrimary | codespan-reporting/src/term/views.rs:359-379 | the located headers are those of the primary labels, in label order |
| LayoutFacts.ShortShape | codespan-reporting/src/term/views.rs:354-393 | the short output holds only headers: one located header per primary label, in order, or one plain header when there is none |
| Rendering.Renderer.Render | codespan-reporting/src/term/views.rs:125-130 | a write appends one entry when the writer has room, and otherwise fails and changes nothing |
| Rendering.Put | codespan-reporting/src/term/views.rs:125-130 | `render(..)?`: once a write has failed, nothing more is written |
| Views.EmitSingleLine | codespan-reporting/src/term/views.rs:205-217 | writes the single-line mark's source line |
| Views.EmitTop | codespan-reporting/src/term/views.rs:230-267 | writes the first line of a multi-line mark, `MultiTopLeft` or `MultiTop` as the prefix is blank or not |
| Views.EmitMarkedLines | codespan-reporting/src/term/views.rs:276-283 | the loop writes a `MultiLeft` line for each line in between |
| Views.EmitMultiLine | codespan-reporting/src/term/views.rs:230-301 | writes the top, the lines in between and the bottom of a multi-line mark |
| Views.EmitMark | codespan-reporting/src/term/views.rs:189-303 | writes a mark's source lines, single- or multi-line |
| Views.EmitMarks | codespan-reporting/src/term/views.rs:177-304 | the loop writes `SourceEmpty` before the first mark and `SourceBreak` before each later one, then the mark |
| Views.EmitFile | codespan-reporting/src/term/views.rs:151-308 | writes a file's `SourceStart` with its locus, its marks and a closing `SourceEmpty` |
| Views.EmitFiles | codespan-reporting/src/term/views.rs:144-309 | the loop writes the block of every group, in order |
| Views.EmitNotes | codespan-reporting/src/term/views.rs:317-322 | the loop writes every note, in order |
| Views.EmitRichEntries | codespan-reporting/src/term/views.rs:118-326 | writes the header, `Empty` when there are groups, the blocks, the notes and the closing `Empty` |
| Views.EmitRich | codespan-reporting/src/term/views.rs:35-326 | `RichDiagnostic::emit` writes the rich layout of the diagnostic, or a prefix of it when a write fails |
| Views.LabelLocus | codespan-reporting/src/term/views.rs:364-374 | the origin, line index, line and column lookups give the label's locus |
| Views.EmitShort | codespan-reporting/src/term/views.rs:343-396 | `ShortDiagnostic::emit` writes the short layout: the counted loop gives one located header per primary label, then the plain header if the count is 0 |

## Left out

- codespan-reporting/src/term/views/source_snippet/border.rs, termcolor, the `Config` styles and the glyphs. These only draw entries on a terminal; the model stops at the entries.
- The renderer is reduced to the list of entries written so far and how many more writes the writer accepts. Partial writes and the kinds of I/O error are not modelled. A failed write stands for any `io::Error` that `?` returns.
- crate::diagnostic and crate::term::display_list are not part of this model. Their records are restated with the fields views.rs uses. The always-empty `left_marks` of `SourceEmpty` and `SourceBreak` is dropped.
- The `Files` trait, generics, lifetimes and `Arc<str>` sharing are left out. views.rs is modelled against `SimpleFiles`, with file ids as indices.
- `SimpleFile::origin` and `SimpleFile::source` (files.rs:133-140) and the `origin` and `source` of the `Files` impl for a single `SimpleFile` (files.rs:168-170, 186-188) are field reads. They appear as the datatype's `origin` and `source` fields. The `line_index` and `line` of that impl (files.rs:172-184) are `Files.SimpleFile.LineIndex` and `Files.SimpleFile.LineAt`.
- views.rs reads a `files::Line` with `number`, `start`, `source` and `column_number`, but files.rs's `Line` has only `number` and `range`. The model builds the former (`Grouping.Line`) from the latter and the file's source. Its `column_number` is `Files.ColumnNumber` of the line's text and start.
- Text is a sequence of bytes. Nothing requires it to be valid UTF-8; `is_char_boundary` and the character count agree with Rust's on valid UTF-8.
- The `.expect(..)` calls, the `unwrap` and the string slicing that can panic in views.rs become preconditions:
  - every label names a stored file;
  - its start is not after its end;
  - a multi-line label starts on a character boundary of its first line.

  `Views.EmitShort` asks only the first of these, of primary labels.
- Rust's stable `sort_by_key` is modelled as a stable insertion sort. The model shares its result (sorted, a permutation, stable), not its algorithm or its cost.
- The `None => continue` branches (views.rs:153, 192) cannot be taken. Every group has at least one mark, and every mark at least one line. The model proves this and leaves the branches out.
- `usize` overflow is not modelled: line numbers, offsets and counts are unbounded naturals. Overflow would need a source longer than the address space.
- The body of `RichDiagnostic::emit` is split into one method per loop or branch (`Views.GroupLabel`, `Views.EmitFile`, `Views.EmitMark` and so on). Each keeps the order of the original's writes.
