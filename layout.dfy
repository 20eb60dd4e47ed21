/** The display list that `RichDiagnostic::emit` and `ShortDiagnostic::emit`
    write, as functions of the diagnostic and the files
    (codespan-reporting/src/term/views.rs:118-326 and 359-393). */
module Layout {
  import opened Options
  import opened Str
  import Files
  import opened Diagnostics
  import opened DisplayList
  import opened Grouping

  /** A source line carrying one mark. */
  function MarkedLine(pad: nat, line: Line, severity: MarkSeverity, mark: Mark): Entry {
    SourceLine(pad, line.number, line.source, [Some((severity, mark))])
  }

  /** The top of a multi-line mark: `MultiTopLeft` when only blanks precede
      the mark on its first line, otherwise an underline up to the mark. */
  function TopMark(m: FileMark): Mark
    requires MarkWellFormed(m) && |m.lines| > 1
  {
    var markStart := m.range.start - m.lines[0].start;
    if IsBlank(m.lines[0].source[..markStart]) then MultiTopLeft else MultiTop(markStart)
  }

  /** A `MultiLeft` source line for each of `lines`, in order. */
  function LeftEntries(lines: seq<Line>, severity: MarkSeverity, pad: nat): (es: seq<Entry>)
    ensures |es| == |lines|
    ensures forall k :: 0 <= k < |lines| ==> es[k] == MarkedLine(pad, lines[k], severity, MultiLeft)
  {
    if lines == [] then []
    else LeftEntries(lines[..|lines| - 1], severity, pad) + [MarkedLine(pad, lines[|lines| - 1], severity, MultiLeft)]
  }

  /** The source lines of one mark: a `Single` underline when it covers one
      line; otherwise its top, a `MultiLeft` for every line in between, and
      its bottom with the message. */
  function MarkEntries(m: FileMark, pad: nat): seq<Entry>
    requires MarkWellFormed(m)
  {
    var first := m.lines[0];
    if |m.lines| == 1 then
      [MarkedLine(pad, first, m.severity,
                  Single(Files.Range(m.range.start - first.start, m.range.end - first.start), m.message))]
    else
      var last := m.lines[|m.lines| - 1];
      [MarkedLine(pad, first, m.severity, TopMark(m))]
      + LeftEntries(m.lines[1..|m.lines| - 1], m.severity, pad)
      + [MarkedLine(pad, last, m.severity, MultiBottom(m.range.end - last.start, m.message))]
  }

  ghost predicate MarksWellFormed(marks: seq<FileMark>) {
    forall j :: 0 <= j < |marks| ==> MarkWellFormed(marks[j])
  }

  /** The marks of one file, each after a separator: `SourceEmpty` before the
      first, `SourceBreak` before every later one. */
  function MarksEntries(marks: seq<FileMark>, pad: nat): seq<Entry>
    requires MarksWellFormed(marks)
  {
    if marks == [] then []
    else
      MarksEntries(marks[..|marks| - 1], pad)
      + [if |marks| == 1 then SourceEmpty(pad) else SourceBreak(pad)]
      + MarkEntries(marks[|marks| - 1], pad)
  }

  /** The locus of a file's block: the first line of its first mark, and the
      column of the mark's start on it. */
  function FileLocus(g: MarkedFile): (locus: Locus)
    requires |g.marks| > 0 && MarkWellFormed(g.marks[0])
    ensures locus.origin == g.origin && locus.lineNumber == g.marks[0].lines[0].number
    ensures 1 <= locus.columnNumber <= CharCount(g.marks[0].lines[0].source) + 1
  {
    var m := g.marks[0];
    var line := m.lines[0];
    Locus(g.origin, line.number, Files.ColumnNumber(line.source, line.start, m.range.start))
  }

  /** The block of one file: its locus, its marks, and a closing empty line. */
  function FileBlock(g: MarkedFile, pad: nat): seq<Entry>
    requires |g.marks| > 0 && MarksWellFormed(g.marks)
  {
    [SourceStart(pad, FileLocus(g))] + MarksEntries(g.marks, pad) + [SourceEmpty(pad)]
  }

  /** The blocks of all files, in order. */
  function Blocks(groups: seq<MarkedFile>, pad: nat): seq<Entry>
    requires GroupsWellFormed(groups)
  {
    if groups == [] then []
    else Blocks(groups[..|groups| - 1], pad) + FileBlock(groups[|groups| - 1], pad)
  }

  /** One `SourceNote` per note, in order. */
  function NoteEntries(notes: seq<string>, pad: nat): (es: seq<Entry>)
    ensures |es| == |notes|
    ensures forall k :: 0 <= k < |notes| ==> es[k] == SourceNote(pad, notes[k])
  {
    if notes == [] then []
    else NoteEntries(notes[..|notes| - 1], pad) + [SourceNote(pad, notes[|notes| - 1])]
  }

  /** The unlocated header of a diagnostic. */
  function PlainHeader(diag: Diagnostic): Entry {
    Header(None, diag.severity, diag.code, diag.message)
  }

  /** Everything `RichDiagnostic::emit` writes, given the sorted groups and
      the gutter width. */
  function RichEntries(diag: Diagnostic, groups: seq<MarkedFile>, pad: nat): seq<Entry>
    requires GroupsWellFormed(groups)
  {
    [PlainHeader(diag)]
    + (if groups == [] then [] else [Empty])
    + Blocks(groups, pad)
    + NoteEntries(diag.notes, pad)
    + [Empty]
  }

  /** The sorted groups of a diagnostic's labels. */
  function SortedGroups(table: Table, diag: Diagnostic): (groups: seq<MarkedFile>)
    requires AllRenderable(table, diag.labels)
    ensures GroupsWellFormed(groups)
  {
    SortedGroupsWellFormed(table, diag.severity, diag.labels);
    SortGroups(Group(table, diag.severity, diag.labels))
  }

  /** The display list of the rich form of a diagnostic. */
  function RichLayout(table: Table, diag: Diagnostic): seq<Entry>
    requires AllRenderable(table, diag.labels)
  {
    RichEntries(diag, SortedGroups(table, diag), OuterPadding(table, diag.labels))
  }

  /** The locus of a label: its file's origin, and the line and column of its
      start. */
  function LocusOf(table: Table, lab: Label): (locus: Locus)
    requires ValidTable(table) && lab.fileId < |table|
    ensures locus.origin == table[lab.fileId].origin
    ensures locus.lineNumber == StartLineIndex(table, lab) + 1
  {
    var file := table[lab.fileId];
    var line := ViewLine(file, StartLineIndex(table, lab));
    Locus(file.origin, line.number, Files.ColumnNumber(line.source, line.start, lab.range.start))
  }

  /** The primary labels, in order. */
  function PrimaryLabels(labels: seq<Label>): (primary: seq<Label>)
    ensures forall k :: 0 <= k < |primary| ==> primary[k].style == Primary
    ensures forall k :: 0 <= k < |primary| ==> primary[k] in labels
    ensures |primary| <= |labels|
    ensures forall k :: 0 <= k < |labels| && labels[k].style == Primary ==> labels[k] in primary
  {
    if labels == [] then []
    else
      PrimaryLabels(labels[..|labels| - 1])
      + (if labels[|labels| - 1].style == Primary then [labels[|labels| - 1]] else [])
  }

  /** The primary labels are in the file table. */
  ghost predicate PrimaryInTable(table: Table, labels: seq<Label>) {
    forall k :: 0 <= k < |labels| && labels[k].style == Primary ==> labels[k].fileId < |table|
  }

  /** The located header of a primary label. */
  function LocatedHeader(table: Table, diag: Diagnostic, lab: Label): Entry
    requires ValidTable(table) && lab.fileId < |table|
  {
    Header(Some(LocusOf(table, lab)), diag.severity, diag.code, diag.message)
  }

  /** The headers of the primary labels among `labels`, in order. */
  function LocatedHeaders(table: Table, diag: Diagnostic, labels: seq<Label>): seq<Entry>
    requires ValidTable(table) && PrimaryInTable(table, labels)
  {
    if labels == [] then []
    else
      var lab := labels[|labels| - 1];
      LocatedHeaders(table, diag, labels[..|labels| - 1])
      + (if lab.style == Primary then [LocatedHeader(table, diag, lab)] else [])
  }

  /** The display list of the short form of a diagnostic: a located header
      per primary label, or the plain header when there is none. */
  function ShortLayout(table: Table, diag: Diagnostic): seq<Entry>
    requires ValidTable(table) && PrimaryInTable(table, diag.labels)
  {
    var headers := LocatedHeaders(table, diag, diag.labels);
    if headers == [] then [PlainHeader(diag)] else headers
  }
}
