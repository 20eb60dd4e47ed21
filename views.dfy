/** `RichDiagnostic::emit` and `ShortDiagnostic::emit`
    (codespan-reporting/src/term/views.rs), step by step: the loops that
    group the labels by file, sort each file's marks and write the display
    list, each proved to compute the layout that `Layout` defines. */
module Views {
  import opened Options
  import opened Str
  import Files
  import opened Diagnostics
  import opened DisplayList
  import opened Decimal
  import opened Grouping
  import opened Layout
  import opened Rendering
  import opened Seqs

  /** The lines `s..=e` of a file, each as `Files::line` and the source
      slice give it, with the gutter widened to fit each line's number: the
      `(start_line_index..=end_line_index).map(..)` closure, which also
      updates `outer_padding`. */
  method CollectLines(files: Files.SimpleFiles, fileId: nat, s: nat, e: nat, outerPadding: nat)
    returns (lines: seq<Line>, outerPadding': nat)
    requires files.Valid() && fileId < |files.files| && s <= e < |files.files[fileId].lineStarts|
    ensures lines == ViewLines(files.files[fileId], s, e - s + 1)
    ensures outerPadding' == Max(outerPadding, Digits(e + 1))
  {
    ghost var file := files.files[fileId];
    var source := files.Source(fileId).value;
    lines := [];
    outerPadding' := outerPadding;
    var lineIndex := s;
    while lineIndex <= e
      invariant s <= lineIndex <= e + 1
      invariant lines == ViewLines(file, s, lineIndex - s)
      invariant outerPadding' == if lineIndex == s then outerPadding else Max(outerPadding, Digits(lineIndex))
    {
      var l := files.LineAt(fileId, lineIndex).value;
      var line := Line(l.number, l.range.start, source[l.range.start..l.range.end]);
      assert line == ViewLine(file, lineIndex);
      var width := CountDigits(line.number);
      WidenStep(outerPadding, outerPadding', s, lineIndex);
      outerPadding' := Max(outerPadding', width);
      ViewLinesSnoc(file, s, lineIndex - s, line);
      lines := lines + [line];
      lineIndex := lineIndex + 1;
    }
  }

  /** One more line collected. */
  lemma {:induction false} ViewLinesSnoc(file: Files.SimpleFile, s: nat, n: nat, line: Line)
    requires file.Valid() && s + n < |file.lineStarts| && line == ViewLine(file, s + n)
    ensures ViewLines(file, s, n) + [line] == ViewLines(file, s, n + 1)
  {
  }

  /** The gutter after one more line, from the gutter before it. */
  lemma {:induction false} WidenStep(outerPadding: nat, current: nat, s: nat, lineIndex: nat)
    requires s <= lineIndex
    requires current == if lineIndex == s then outerPadding else Max(outerPadding, Digits(lineIndex))
    ensures Max(current, Digits(lineIndex + 1)) == Max(outerPadding, Digits(lineIndex + 1))
  {
    DigitsMonotone(lineIndex, lineIndex + 1);
  }

  /** One label's `FileMark`, and the gutter widened to fit its lines. */
  method LabelMark(files: Files.SimpleFiles, severity: Severity, lab: Label, outerPadding: nat)
    returns (mark: FileMark, outerPadding': nat)
    requires files.Valid() && InTable(files.files, lab)
    ensures mark == MarkOf(files.files, severity, lab)
    ensures outerPadding' == Max(outerPadding, Digits(EndLineIndex(files.files, lab) + 1))
  {
    var startIndex := files.LineIndex(lab.fileId, lab.range.start);
    var endIndex := files.LineIndex(lab.fileId, lab.range.end);
    Files.LineIndexMonotone(files.files[lab.fileId], lab.range.start, lab.range.end);
    var lines;
    lines, outerPadding' := CollectLines(files, lab.fileId, startIndex.value, endIndex.value, outerPadding);
    mark := FileMark(SeverityOf(severity, lab.style), lines, lab.range, lab.message);
  }

  /** `std::cmp::max`. */
  function Max(a: nat, b: nat): nat {
    if a < b then b else a
  }

  /** The `match` on `marked_files.iter_mut().find(..)`: the mark joins the
      first group of its file, or opens a new group, with the file's origin,
      at the end. */
  method AddToGroup(files: Files.SimpleFiles, markedFiles: seq<MarkedFile>, fileId: nat, mark: FileMark)
    returns (markedFiles': seq<MarkedFile>)
    requires fileId < |files.files|
    ensures markedFiles' == AddMark(markedFiles, fileId, files.files[fileId].origin, mark)
  {
    var j := 0;
    while j < |markedFiles| && markedFiles[j].fileId != fileId
      invariant j <= |markedFiles|
      invariant forall i :: 0 <= i < j ==> markedFiles[i].fileId != fileId
    {
      j := j + 1;
    }
    if j == |markedFiles| {
      var origin := files.Origin(fileId).value;
      markedFiles' := markedFiles + [MarkedFile(fileId, origin, [mark])];
    } else {
      var found := FindFile(markedFiles, fileId);
      assert found.Some? && !(found.value < j) && !(j < found.value);
      markedFiles' := markedFiles[j := markedFiles[j].(marks := markedFiles[j].marks + [mark])];
    }
  }

  /** The groups after one more label. */
  lemma {:induction false} GroupSnoc(table: Table, severity: Severity, prefix: seq<Label>, lab: Label)
    requires ValidTable(table) && AllInTable(table, prefix) && InTable(table, lab)
    ensures AllInTable(table, prefix + [lab])
    ensures Group(table, severity, prefix + [lab])
      == AddMark(Group(table, severity, prefix), lab.fileId, table[lab.fileId].origin, MarkOf(table, severity, lab))
  {
    var labels := prefix + [lab];
    SnocInit(prefix, lab);
    assert AllInTable(table, labels);
  }

  /** The gutter after one more label. */
  lemma {:induction false} OuterPaddingSnoc(table: Table, prefix: seq<Label>, lab: Label)
    requires ValidTable(table) && AllInTable(table, prefix) && InTable(table, lab)
    ensures AllInTable(table, prefix + [lab])
    ensures OuterPadding(table, prefix + [lab])
      == Max(OuterPadding(table, prefix), Digits(EndLineIndex(table, lab) + 1))
  {
    var labels := prefix + [lab];
    SnocInit(prefix, lab);
    assert AllInTable(table, labels);
    var ns := EndNumbers(table, labels);
    assert ns == EndNumbers(table, prefix) + [EndLineIndex(table, lab) + 1];
    SnocInit(EndNumbers(table, prefix), EndLineIndex(table, lab) + 1);
  }

  /** One pass of the grouping loop: the label's mark joins its file's
      group and the gutter grows to fit its lines, so that the groups and
      the gutter become those of the labels seen so far followed by it. */
  method GroupLabel(files: Files.SimpleFiles, severity: Severity, ghost prefix: seq<Label>, lab: Label,
                    markedFiles: seq<MarkedFile>, outerPadding: nat)
    returns (markedFiles': seq<MarkedFile>, outerPadding': nat)
    requires files.Valid() && AllInTable(files.files, prefix) && InTable(files.files, lab)
    requires markedFiles == Group(files.files, severity, prefix)
    requires outerPadding == OuterPadding(files.files, prefix)
    ensures markedFiles' == Group(files.files, severity, prefix + [lab])
    ensures outerPadding' == OuterPadding(files.files, prefix + [lab])
  {
    ghost var table := files.files;
    var mark;
    mark, outerPadding' := LabelMark(files, severity, lab, outerPadding);
    markedFiles' := AddToGroup(files, markedFiles, lab.fileId, mark);
    assert files.files == table;
    GroupStepOf(table, severity, prefix, lab, markedFiles, mark, markedFiles');
    PaddingStepOf(table, prefix, lab, outerPadding, outerPadding');
  }

  /** The groups after one more label, from those before it. */
  lemma {:induction false} GroupStepOf(table: Table, severity: Severity, prefix: seq<Label>, lab: Label,
                                       before: seq<MarkedFile>, mark: FileMark, after: seq<MarkedFile>)
    requires ValidTable(table) && AllInTable(table, prefix) && InTable(table, lab)
    requires before == Group(table, severity, prefix) && mark == MarkOf(table, severity, lab)
    requires after == AddMark(before, lab.fileId, table[lab.fileId].origin, mark)
    ensures AllInTable(table, prefix + [lab]) && after == Group(table, severity, prefix + [lab])
  {
    GroupSnoc(table, severity, prefix, lab);
  }

  /** The gutter after one more label, from the gutter before it. */
  lemma {:induction false} PaddingStepOf(table: Table, prefix: seq<Label>, lab: Label, before: nat, after: nat)
    requires ValidTable(table) && AllInTable(table, prefix) && InTable(table, lab)
    requires before == OuterPadding(table, prefix)
    requires after == Max(before, Digits(EndLineIndex(table, lab) + 1))
    ensures AllInTable(table, prefix + [lab]) && after == OuterPadding(table, prefix + [lab])
  {
    OuterPaddingSnoc(table, prefix, lab);
  }

  /** The first loop of `RichDiagnostic::emit`: every label's mark is added
      to the group of its file, or opens a new group, while the gutter grows
      to fit every line number. */
  method GroupLabels(diag: Diagnostic, files: Files.SimpleFiles) returns (markedFiles: seq<MarkedFile>, outerPadding: nat)
    requires files.Valid() && AllInTable(files.files, diag.labels)
    ensures markedFiles == Group(files.files, diag.severity, diag.labels)
    ensures outerPadding == OuterPadding(files.files, diag.labels)
  {
    ghost var table := files.files;
    markedFiles := [];
    outerPadding := 0;
    for i := 0 to |diag.labels|
      invariant files.files == table
      invariant AllInTable(table, diag.labels[..i])
      invariant markedFiles == Group(table, diag.severity, diag.labels[..i])
      invariant outerPadding == OuterPadding(table, diag.labels[..i])
    {
      markedFiles, outerPadding := GroupLabel(files, diag.severity, diag.labels[..i], diag.labels[i], markedFiles, outerPadding);
      TakeSnoc(diag.labels, i);
    }
    TakeAll(diag.labels);
  }

  /** The second loop of `RichDiagnostic::emit`: each file's marks, in
      place, sorted by their ranges. */
  method SortFileMarks(groups: seq<MarkedFile>) returns (markedFiles: seq<MarkedFile>)
    ensures markedFiles == SortGroups(groups)
  {
    markedFiles := groups;
    for i := 0 to |markedFiles|
      invariant |markedFiles| == |groups|
      invariant forall k :: 0 <= k < i ==> markedFiles[k] == SortGroups(groups)[k]
      invariant forall k :: i <= k < |markedFiles| ==> markedFiles[k] == groups[k]
    {
      markedFiles := markedFiles[i := markedFiles[i].(marks := SortMarks(markedFiles[i].marks))];
    }
  }

  /** The source lines of one mark, as the match on `split_first` and
      `split_last` writes them. */
  method EmitMark(r: Renderer, m: FileMark, outerPadding: nat, ok: bool,
                  ghost before: seq<Entry>, ghost room: nat, ghost attempted: seq<Entry>)
    returns (ok': bool)
    requires MarkWellFormed(m) && Wrote(r, before, room, attempted, ok)
    modifies r
    ensures Wrote(r, before, room, attempted + MarkEntries(m, outerPadding), ok')
  {
    if |m.lines| == 1 {
      ok' := EmitSingleLine(r, m, outerPadding, ok, before, room, attempted);
    } else {
      ok' := EmitMultiLine(r, m, outerPadding, ok, before, room, attempted);
    }
  }

  /** A mark on one line: a `Single` underline from its start to its end,
      relative to the line. */
  method EmitSingleLine(r: Renderer, m: FileMark, outerPadding: nat, ok: bool,
                        ghost before: seq<Entry>, ghost room: nat, ghost attempted: seq<Entry>)
    returns (ok': bool)
    requires MarkWellFormed(m) && |m.lines| == 1 && Wrote(r, before, room, attempted, ok)
    modifies r
    ensures Wrote(r, before, room, attempted + MarkEntries(m, outerPadding), ok')
  {
    var startLine := m.lines[0];
    var markStart := m.range.start - startLine.start;
    var markEnd := m.range.end - startLine.start;
    ok' := Put(r, SourceLine(outerPadding, startLine.number, startLine.source,
                             [Some((m.severity, Single(Files.Range(markStart, markEnd), m.message)))]),
               ok, before, room, attempted);
  }

  /** A mark over several lines: its top on the first, `MultiLeft` on each
      line in between, and its bottom with the message on the last. */
  method EmitMultiLine(r: Renderer, m: FileMark, outerPadding: nat, ok: bool,
                       ghost before: seq<Entry>, ghost room: nat, ghost attempted: seq<Entry>)
    returns (ok': bool)
    requires MarkWellFormed(m) && |m.lines| > 1 && Wrote(r, before, room, attempted, ok)
    modifies r
    ensures Wrote(r, before, room, attempted + MarkEntries(m, outerPadding), ok')
  {
    var startLine := m.lines[0];
    var endLine := m.lines[|m.lines| - 1];
    var markedLines := m.lines[1..|m.lines| - 1];
    ok' := EmitTop(r, m, outerPadding, ok, before, room, attempted);
    ghost var top := [MarkedLine(outerPadding, startLine, m.severity, TopMark(m))];
    ok' := EmitMarkedLines(r, markedLines, m.severity, outerPadding, ok', before, room, attempted + top);
    ghost var middle := LeftEntries(markedLines, m.severity, outerPadding);
    var markEnd := m.range.end - endLine.start;
    ghost var bottom := [MarkedLine(outerPadding, endLine, m.severity, MultiBottom(markEnd, m.message))];
    ok' := Put(r, SourceLine(outerPadding, endLine.number, endLine.source,
                             [Some((m.severity, MultiBottom(markEnd, m.message)))]),
               ok', before, room, attempted + top + middle);
    MultiEntriesParts(attempted, m, outerPadding, top, middle, bottom);
  }

  /** The first line of a multi-line mark: `MultiTopLeft` when only blanks
      precede the mark on it, otherwise an underline up to the mark. */
  method EmitTop(r: Renderer, m: FileMark, outerPadding: nat, ok: bool,
                 ghost before: seq<Entry>, ghost room: nat, ghost attempted: seq<Entry>)
    returns (ok': bool)
    requires MarkWellFormed(m) && |m.lines| > 1 && Wrote(r, before, room, attempted, ok)
    modifies r
    ensures Wrote(r, before, room, attempted + [MarkedLine(outerPadding, m.lines[0], m.severity, TopMark(m))], ok')
  {
    var startLine := m.lines[0];
    var markStart := m.range.start - startLine.start;
    var prefixSource := startLine.source[..markStart];
    if IsBlank(prefixSource) {
      ok' := Put(r, SourceLine(outerPadding, startLine.number, startLine.source, [Some((m.severity, MultiTopLeft))]),
                 ok, before, room, attempted);
    } else {
      ok' := Put(r, SourceLine(outerPadding, startLine.number, startLine.source, [Some((m.severity, MultiTop(markStart)))]),
                 ok, before, room, attempted);
    }
  }

  /** A multi-line mark's source lines: its top, the lines in between, its bottom. */
  lemma {:induction false} MultiEntriesParts(attempted: seq<Entry>, m: FileMark, pad: nat,
                                             top: seq<Entry>, middle: seq<Entry>, bottom: seq<Entry>)
    requires MarkWellFormed(m) && |m.lines| > 1
    requires top == [MarkedLine(pad, m.lines[0], m.severity, TopMark(m))]
    requires middle == LeftEntries(m.lines[1..|m.lines| - 1], m.severity, pad)
    requires bottom == [MarkedLine(pad, m.lines[|m.lines| - 1], m.severity,
                                   MultiBottom(m.range.end - m.lines[|m.lines| - 1].start, m.message))]
    ensures attempted + top + middle + bottom == attempted + MarkEntries(m, pad)
  {
    assert MarkEntries(m, pad) == top + middle + bottom;
    Assoc4(attempted, top, middle, bottom);
  }

  /** The lines strictly inside a multi-line mark, each with `MultiLeft`. */
  method EmitMarkedLines(r: Renderer, markedLines: seq<Line>, severity: MarkSeverity, outerPadding: nat, ok: bool,
                         ghost before: seq<Entry>, ghost room: nat, ghost attempted: seq<Entry>)
    returns (ok': bool)
    requires Wrote(r, before, room, attempted, ok)
    modifies r
    ensures Wrote(r, before, room, attempted + LeftEntries(markedLines, severity, outerPadding), ok')
  {
    ok' := ok;
    for i := 0 to |markedLines|
      invariant Wrote(r, before, room, attempted + LeftEntries(markedLines[..i], severity, outerPadding), ok')
    {
      var markedLine := markedLines[i];
      ghost var done := LeftEntries(markedLines[..i], severity, outerPadding);
      ok' := Put(r, SourceLine(outerPadding, markedLine.number, markedLine.source, [Some((severity, MultiLeft))]),
                 ok', before, room, attempted + done);
      LeftEntriesStep(markedLines, i, severity, outerPadding);
      Assoc(attempted, done, [MarkedLine(outerPadding, markedLine, severity, MultiLeft)]);
    }
    TakeAll(markedLines);
  }

  /** The `MultiLeft` lines of the first `i + 1` lines. */
  lemma {:induction false} LeftEntriesStep(lines: seq<Line>, i: nat, severity: MarkSeverity, pad: nat)
    requires i < |lines|
    ensures LeftEntries(lines[..i + 1], severity, pad)
      == LeftEntries(lines[..i], severity, pad) + [MarkedLine(pad, lines[i], severity, MultiLeft)]
  {
    TakeInit(lines, i);
  }

  /** The note lines of the first `i + 1` notes. */
  lemma {:induction false} NoteEntriesStep(notes: seq<string>, i: nat, pad: nat)
    requires i < |notes|
    ensures NoteEntries(notes[..i + 1], pad) == NoteEntries(notes[..i], pad) + [SourceNote(pad, notes[i])]
  {
    TakeInit(notes, i);
  }

  /** The separator and the source lines of the last mark, after those of
      the marks before it. */
  lemma {:induction false} MarksEntriesLast(marks: seq<FileMark>, pad: nat)
    requires MarksWellFormed(marks) && marks != []
    ensures MarksWellFormed(marks[..|marks| - 1])
    ensures MarksEntries(marks, pad)
      == MarksEntries(marks[..|marks| - 1], pad)
         + [if |marks| == 1 then SourceEmpty(pad) else SourceBreak(pad)]
         + MarkEntries(marks[|marks| - 1], pad)
  {
  }

  /** The separator and the source lines of the mark at `i`, after those
      of the marks before it. */
  lemma {:induction false} MarksEntriesStep(marks: seq<FileMark>, i: nat, pad: nat)
    requires MarksWellFormed(marks) && i < |marks|
    ensures MarksWellFormed(marks[..i]) && MarksWellFormed(marks[..i + 1])
    ensures MarksEntries(marks[..i + 1], pad)
      == MarksEntries(marks[..i], pad) + [if i == 0 then SourceEmpty(pad) else SourceBreak(pad)] + MarkEntries(marks[i], pad)
  {
    TakeInit(marks, i);
    MarksEntriesLast(marks[..i + 1], pad);
  }

  /** The marks of one file, each after a separator: `SourceEmpty` before
      the first (`match i { 0 => .. }`), `SourceBreak` before every later one. */
  method EmitMarks(r: Renderer, marks: seq<FileMark>, outerPadding: nat, ok: bool,
                   ghost before: seq<Entry>, ghost room: nat, ghost attempted: seq<Entry>)
    returns (ok': bool)
    requires MarksWellFormed(marks) && Wrote(r, before, room, attempted, ok)
    modifies r
    ensures Wrote(r, before, room, attempted + MarksEntries(marks, outerPadding), ok')
  {
    ok' := ok;
    for i := 0 to |marks|
      invariant MarksWellFormed(marks[..i])
      invariant Wrote(r, before, room, attempted + MarksEntries(marks[..i], outerPadding), ok')
    {
      MarksEntriesStep(marks, i, outerPadding);
      ghost var done := MarksEntries(marks[..i], outerPadding);
      var separator := if i == 0 then SourceEmpty(outerPadding) else SourceBreak(outerPadding);
      ok' := Put(r, separator, ok', before, room, attempted + done);
      ok' := EmitMark(r, marks[i], outerPadding, ok', before, room, attempted + done + [separator]);
      Assoc4(attempted, done, [separator], MarkEntries(marks[i], outerPadding));
    }
    TakeAll(marks);
  }

  /** The block of one file: its locus, its marks, and a closing empty
      line. */
  method EmitFile(r: Renderer, g: MarkedFile, outerPadding: nat, ok: bool,
                  ghost before: seq<Entry>, ghost room: nat, ghost attempted: seq<Entry>)
    returns (ok': bool)
    requires |g.marks| > 0 && MarksWellFormed(g.marks) && Wrote(r, before, room, attempted, ok)
    modifies r
    ensures Wrote(r, before, room, attempted + FileBlock(g, outerPadding), ok')
  {
    var firstMark := g.marks[0];
    var firstLine := firstMark.lines[0];
    var locus := Locus(g.origin, firstLine.number,
                       Files.ColumnNumber(firstLine.source, firstLine.start, firstMark.range.start));
    assert locus == FileLocus(g);
    ghost var start := [SourceStart(outerPadding, locus)];
    ok' := Put(r, SourceStart(outerPadding, locus), ok, before, room, attempted);
    ok' := EmitMarks(r, g.marks, outerPadding, ok', before, room, attempted + start);
    ghost var marks := MarksEntries(g.marks, outerPadding);
    ok' := Put(r, SourceEmpty(outerPadding), ok', before, room, attempted + start + marks);
    assert FileBlock(g, outerPadding) == start + marks + [SourceEmpty(outerPadding)];
    Assoc4(attempted, start, marks, [SourceEmpty(outerPadding)]);
  }

  /** The block of every file, in order: the `for (_, marked_file) in
      &marked_files` loop. */
  method EmitFiles(r: Renderer, markedFiles: seq<MarkedFile>, outerPadding: nat, ok: bool,
                   ghost before: seq<Entry>, ghost room: nat, ghost attempted: seq<Entry>)
    returns (ok': bool)
    requires GroupsWellFormed(markedFiles) && Wrote(r, before, room, attempted, ok)
    modifies r
    ensures Wrote(r, before, room, attempted + Blocks(markedFiles, outerPadding), ok')
  {
    ok' := ok;
    for i := 0 to |markedFiles|
      invariant GroupsWellFormed(markedFiles[..i])
      invariant Wrote(r, before, room, attempted + Blocks(markedFiles[..i], outerPadding), ok')
    {
      BlocksStep(markedFiles, i, outerPadding);
      ghost var done := Blocks(markedFiles[..i], outerPadding);
      ok' := EmitFile(r, markedFiles[i], outerPadding, ok', before, room, attempted + done);
      Assoc(attempted, done, FileBlock(markedFiles[i], outerPadding));
    }
    TakeAll(markedFiles);
  }

  /** The blocks of the groups before `i`, then the block of group `i`. */
  lemma {:induction false} BlocksStep(groups: seq<MarkedFile>, i: nat, pad: nat)
    requires GroupsWellFormed(groups) && i < |groups|
    ensures GroupsWellFormed(groups[..i]) && GroupsWellFormed(groups[..i + 1])
    ensures |groups[i].marks| > 0 && MarksWellFormed(groups[i].marks)
    ensures Blocks(groups[..i + 1], pad) == Blocks(groups[..i], pad) + FileBlock(groups[i], pad)
  {
    TakeInit(groups, i);
    assert GroupsWellFormed(groups[..i + 1]);
  }

  /** A `SourceNote` for each note, in order. */
  method EmitNotes(r: Renderer, notes: seq<string>, outerPadding: nat, ok: bool,
                   ghost before: seq<Entry>, ghost room: nat, ghost attempted: seq<Entry>)
    returns (ok': bool)
    requires Wrote(r, before, room, attempted, ok)
    modifies r
    ensures Wrote(r, before, room, attempted + NoteEntries(notes, outerPadding), ok')
  {
    ok' := ok;
    for i := 0 to |notes|
      invariant Wrote(r, before, room, attempted + NoteEntries(notes[..i], outerPadding), ok')
    {
      ghost var done := NoteEntries(notes[..i], outerPadding);
      ok' := Put(r, SourceNote(outerPadding, notes[i]), ok', before, room, attempted + done);
      NoteEntriesStep(notes, i, outerPadding);
      Assoc(attempted, done, [SourceNote(outerPadding, notes[i])]);
    }
    TakeAll(notes);
  }

  /** `RichDiagnostic::emit`: groups the labels, sorts each file's marks,
      then writes the header, an empty line if there are marks, every
      file's block, the notes and a closing empty line, stopping at the
      first failed write. */
  method EmitRich(diag: Diagnostic, files: Files.SimpleFiles, r: Renderer) returns (ok: bool)
    requires files.Valid() && AllRenderable(files.files, diag.labels)
    modifies r
    ensures Wrote(r, old(r.entries), old(r.room), RichLayout(files.files, diag), ok)
  {
    var markedFiles, outerPadding := GroupLabels(diag, files);
    markedFiles := SortFileMarks(markedFiles);
    assert markedFiles == SortedGroups(files.files, diag);
    ok := EmitRichEntries(diag, markedFiles, outerPadding, r);
  }

  /** What `RichDiagnostic::emit` writes once the groups are sorted and the
      gutter width is known: the header, an empty line when there are
      groups, each file's block, the notes and a closing empty line. */
  method EmitRichEntries(diag: Diagnostic, markedFiles: seq<MarkedFile>, outerPadding: nat, r: Renderer)
    returns (ok: bool)
    requires GroupsWellFormed(markedFiles)
    modifies r
    ensures Wrote(r, old(r.entries), old(r.room), RichEntries(diag, markedFiles, outerPadding), ok)
  {
    ghost var before, room := r.entries, r.room;
    ok := true;
    assert Wrote(r, before, room, [], ok) by {
      assert before + Take([], room) == before;
    }
    ok := Put(r, Header(None, diag.severity, diag.code, diag.message), ok, before, room, []);
    ghost var head := [PlainHeader(diag)];
    assert [] + [PlainHeader(diag)] == head;
    if |markedFiles| != 0 {
      ok := Put(r, Empty, ok, before, room, head);
      head := head + [Empty];
    }
    assert head == [PlainHeader(diag)] + (if markedFiles == [] then [] else [Empty]);
    ok := EmitFiles(r, markedFiles, outerPadding, ok, before, room, head);
    ghost var blocks := Blocks(markedFiles, outerPadding);
    ok := EmitNotes(r, diag.notes, outerPadding, ok, before, room, head + blocks);
    ghost var notes := NoteEntries(diag.notes, outerPadding);
    ok := Put(r, Empty, ok, before, room, head + blocks + notes);
  }

  /** The locus of a label, as `ShortDiagnostic::emit` computes it: the
      file's origin, and the number of the line holding the label's start
      and the column of the start on it. */
  method LabelLocus(files: Files.SimpleFiles, lab: Label) returns (locus: Locus)
    requires files.Valid() && lab.fileId < |files.files|
    ensures locus == LocusOf(files.files, lab)
  {
    var origin := files.Origin(lab.fileId).value;
    var start := lab.range.start;
    var lineIndex := files.LineIndex(lab.fileId, start);
    var line := files.LineAt(lab.fileId, lineIndex.value).value;
    var source := files.Source(lab.fileId).value;
    var lineSource := source[line.range.start..line.range.end];
    locus := Locus(origin, line.number, Files.ColumnNumber(lineSource, line.range.start, start));
    assert ViewLine(files.files[lab.fileId], lineIndex.value) == Line(line.number, line.range.start, lineSource);
  }

  /** The located headers after one more label. */
  lemma {:induction false} LocatedHeadersLast(table: Table, diag: Diagnostic, labels: seq<Label>)
    requires ValidTable(table) && PrimaryInTable(table, labels) && labels != []
    ensures PrimaryInTable(table, labels[..|labels| - 1])
    ensures LocatedHeaders(table, diag, labels)
      == LocatedHeaders(table, diag, labels[..|labels| - 1])
         + (if labels[|labels| - 1].style == Primary then [LocatedHeader(table, diag, labels[|labels| - 1])] else [])
  {
  }

  /** The located headers of the labels before `i`, then that of label `i`
      if it is primary. */
  lemma {:induction false} LocatedHeadersStep(table: Table, diag: Diagnostic, labels: seq<Label>, i: nat)
    requires ValidTable(table) && PrimaryInTable(table, labels) && i < |labels|
    ensures PrimaryInTable(table, labels[..i]) && PrimaryInTable(table, labels[..i + 1])
    ensures labels[i].style == Primary ==> labels[i].fileId < |table|
    ensures LocatedHeaders(table, diag, labels[..i + 1])
      == LocatedHeaders(table, diag, labels[..i])
         + (if labels[i].style == Primary then [LocatedHeader(table, diag, labels[i])] else [])
  {
    TakeInit(labels, i);
    assert PrimaryInTable(table, labels[..i + 1]);
    LocatedHeadersLast(table, diag, labels[..i + 1]);
  }

  /** `ShortDiagnostic::emit`: a located header for each primary label, in
      order, counting them; the plain header when there was none; stopping
      at the first failed write. */
  method EmitShort(diag: Diagnostic, files: Files.SimpleFiles, r: Renderer) returns (ok: bool)
    requires files.Valid() && PrimaryInTable(files.files, diag.labels)
    modifies r
    ensures Wrote(r, old(r.entries), old(r.room), ShortLayout(files.files, diag), ok)
  {
    ghost var table := files.files;
    ghost var before, room := r.entries, r.room;
    ok := true;
    assert Wrote(r, before, room, [], ok) by {
      assert before + Take([], room) == before;
    }
    var primaryLabelsEncountered := 0;
    for i := 0 to |diag.labels|
      invariant files.files == table
      invariant primaryLabelsEncountered == |LocatedHeaders(table, diag, diag.labels[..i])|
      invariant Wrote(r, before, room, LocatedHeaders(table, diag, diag.labels[..i]), ok)
    {
      var lab := diag.labels[i];
      LocatedHeadersStep(table, diag, diag.labels, i);
      if lab.style == Primary {
        primaryLabelsEncountered := primaryLabelsEncountered + 1;
        var locus := LabelLocus(files, lab);
        ok := Put(r, Header(Some(locus), diag.severity, diag.code, diag.message), ok,
                  before, room, LocatedHeaders(table, diag, diag.labels[..i]));
      } else {
        assert LocatedHeaders(table, diag, diag.labels[..i + 1]) == LocatedHeaders(table, diag, diag.labels[..i]);
      }
    }
    TakeAll(diag.labels);
    if primaryLabelsEncountered == 0 {
      ok := Put(r, Header(None, diag.severity, diag.code, diag.message), ok, before, room, []);
    }
  }
}
