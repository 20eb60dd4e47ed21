/** How `RichDiagnostic::emit` prepares a diagnostic's labels before laying
    them out: one mark per label holding the lines it covers, the marks
    grouped by file in the order the files are first met, each group sorted
    by range, and one gutter width for the whole diagnostic
    (codespan-reporting/src/term/views.rs:56-116). */
module Grouping {
  import opened Options
  import opened Str
  import Files
  import opened Diagnostics
  import opened DisplayList
  import opened Decimal
  import opened Seqs

  /** The line that views.rs obtains from `Files::line`: its 1-based number,
      the offset it starts at and its text. */
  datatype Line = Line(number: nat, start: nat, source: seq<Byte>)

  /** `FileMark`: one label, resolved against its file. */
  datatype FileMark = FileMark(severity: MarkSeverity, lines: seq<Line>, range: Files.Range, message: string)

  /** One entry of `marked_files`: a file id, the file's origin and its marks. */
  datatype MarkedFile = MarkedFile(fileId: nat, origin: string, marks: seq<FileMark>)

  /** The files of a `SimpleFiles` database, by index. */
  type Table = seq<Files.SimpleFile>

  ghost predicate ValidTable(table: Table) {
    forall id :: 0 <= id < |table| ==> table[id].Valid()
  }

  /** A label names a file of the table and its range is not inverted. */
  predicate InTable(table: Table, lab: Label) {
    lab.fileId < |table| && lab.range.start <= lab.range.end
  }

  ghost predicate AllInTable(table: Table, labels: seq<Label>) {
    forall k :: 0 <= k < |labels| ==> InTable(table, labels[k])
  }

  /** A line of a file, as views.rs sees it. */
  function ViewLine(file: Files.SimpleFile, lineIndex: nat): Line
    requires file.Valid() && lineIndex < |file.lineStarts|
  {
    Line(lineIndex + 1, file.lineStarts[lineIndex], Files.LineText(file, lineIndex))
  }

  /** The `n` lines of a file from index `s` on, in order. */
  function ViewLines(file: Files.SimpleFile, s: nat, n: nat): (lines: seq<Line>)
    requires file.Valid() && s + n <= |file.lineStarts|
    ensures |lines| == n
  {
    if n == 0 then [] else ViewLines(file, s, n - 1) + [ViewLine(file, s + n - 1)]
  }

  /** The `k`-th of the lines from index `s` on is the line at `s + k`. */
  lemma {:induction false} ViewLinesAt(file: Files.SimpleFile, s: nat, n: nat, k: nat)
    requires file.Valid() && s + n <= |file.lineStarts| && k < n
    ensures ViewLines(file, s, n)[k] == ViewLine(file, s + k)
  {
    if k < n - 1 {
      ViewLinesAt(file, s, n - 1, k);
    }
  }

  function StartLineIndex(table: Table, lab: Label): nat
    requires ValidTable(table) && lab.fileId < |table|
  {
    table[lab.fileId].LineIndexOf(lab.range.start)
  }

  function EndLineIndex(table: Table, lab: Label): nat
    requires ValidTable(table) && lab.fileId < |table|
  {
    table[lab.fileId].LineIndexOf(lab.range.end)
  }

  /** The severity of a label's mark. */
  function SeverityOf(severity: Severity, style: LabelStyle): MarkSeverity {
    match style
    case Primary => Some(severity)
    case Secondary => None
  }

  /** The `FileMark` of a label: its severity, range and message, and every
      line from the line of its start to the line of its end. */
  function MarkOf(table: Table, severity: Severity, lab: Label): (mark: FileMark)
    requires ValidTable(table) && InTable(table, lab)
    ensures mark.severity == SeverityOf(severity, lab.style)
    ensures mark.range == lab.range && mark.message == lab.message
    ensures |mark.lines| == EndLineIndex(table, lab) - StartLineIndex(table, lab) + 1
  {
    var file := table[lab.fileId];
    var s := StartLineIndex(table, lab);
    var e := EndLineIndex(table, lab);
    Files.LineIndexMonotone(file, lab.range.start, lab.range.end);
    FileMark(SeverityOf(severity, lab.style), ViewLines(file, s, e - s + 1), lab.range, lab.message)
  }

  /** Line `k` of a label's mark is the `k`-th line from the one holding the
      label's start. */
  lemma {:induction false} MarkLineAt(table: Table, severity: Severity, lab: Label, k: nat)
    requires ValidTable(table) && InTable(table, lab)
    requires k <= EndLineIndex(table, lab) - StartLineIndex(table, lab)
    ensures k < |MarkOf(table, severity, lab).lines|
    ensures MarkOf(table, severity, lab).lines[k] == ViewLine(table[lab.fileId], StartLineIndex(table, lab) + k)
  {
    MarkLines(table, severity, lab);
    ViewLinesAt(table[lab.fileId], StartLineIndex(table, lab),
                EndLineIndex(table, lab) - StartLineIndex(table, lab) + 1, k);
  }

  lemma {:induction false} MarkLines(table: Table, severity: Severity, lab: Label)
    requires ValidTable(table) && InTable(table, lab)
    ensures StartLineIndex(table, lab) <= EndLineIndex(table, lab) < |table[lab.fileId].lineStarts|
    ensures MarkOf(table, severity, lab).lines
      == ViewLines(table[lab.fileId], StartLineIndex(table, lab),
                   EndLineIndex(table, lab) - StartLineIndex(table, lab) + 1)
  {
    Files.LineIndexMonotone(table[lab.fileId], lab.range.start, lab.range.end);
  }

  /** A label that views.rs can lay out without panicking: it is in the
      table and, when it spans several lines, its start falls on a character
      boundary of its first line, which the slice of the text before the
      mark requires. */
  predicate Renderable(table: Table, lab: Label)
    requires ValidTable(table)
  {
    && InTable(table, lab)
    && (StartLineIndex(table, lab) < EndLineIndex(table, lab) ==>
          IsCharBoundary(
            Files.LineText(table[lab.fileId], StartLineIndex(table, lab)),
            lab.range.start - table[lab.fileId].lineStarts[StartLineIndex(table, lab)]))
  }

  ghost predicate AllRenderable(table: Table, labels: seq<Label>) {
    && ValidTable(table)
    && AllInTable(table, labels)
    && forall k :: 0 <= k < |labels| ==> Renderable(table, labels[k])
  }

  /** What views.rs relies on when it subtracts line starts from a mark's
      range and slices the first line: there is a first line, it starts at
      or before the range, the last line starts at or before its end, and a
      multi-line mark starts on a character boundary of its first line. */
  predicate MarkWellFormed(m: FileMark) {
    && |m.lines| >= 1
    && m.lines[0].start <= m.range.start
    && m.lines[|m.lines| - 1].start <= m.range.end
    && (|m.lines| > 1 ==> IsCharBoundary(m.lines[0].source, m.range.start - m.lines[0].start))
  }

  lemma {:induction false} MarkOfWellFormed(table: Table, severity: Severity, lab: Label)
    requires ValidTable(table) && Renderable(table, lab)
    ensures MarkWellFormed(MarkOf(table, severity, lab))
  {
    var file := table[lab.fileId];
    var s := StartLineIndex(table, lab);
    var e := EndLineIndex(table, lab);
    var m := MarkOf(table, severity, lab);
    MarkLineAt(table, severity, lab, 0);
    MarkLineAt(table, severity, lab, e - s);
  }

  /** The index of the group of `fileId`: `marked_files.iter_mut().find(..)`. */
  function FindFile(groups: seq<MarkedFile>, fileId: nat): (r: Option<nat>)
    ensures r.None? <==> forall i :: 0 <= i < |groups| ==> groups[i].fileId != fileId
    ensures r.Some? ==> r.value < |groups| && groups[r.value].fileId == fileId
    ensures r.Some? ==> forall i :: 0 <= i < r.value ==> groups[i].fileId != fileId
  {
    if groups == [] then None
    else if groups[0].fileId == fileId then Some(0)
    else
      match FindFile(groups[1..], fileId)
      case None => None
      case Some(i) => Some(i + 1)
  }

  /** Adds a mark to the group of its file, or opens a new group at the end. */
  function AddMark(groups: seq<MarkedFile>, fileId: nat, origin: string, mark: FileMark): seq<MarkedFile> {
    match FindFile(groups, fileId)
    case None => groups + [MarkedFile(fileId, origin, [mark])]
    case Some(i) => groups[i := groups[i].(marks := groups[i].marks + [mark])]
  }

  /** `marked_files` after the grouping loop has seen `labels`. */
  function Group(table: Table, severity: Severity, labels: seq<Label>): seq<MarkedFile>
    requires ValidTable(table) && AllInTable(table, labels)
  {
    if labels == [] then []
    else
      var lab := labels[|labels| - 1];
      AddMark(
        Group(table, severity, labels[..|labels| - 1]),
        lab.fileId,
        table[lab.fileId].origin,
        MarkOf(table, severity, lab))
  }

  /** The marks of the labels of one file, in label order. */
  function MarksOfFile(table: Table, severity: Severity, labels: seq<Label>, fileId: nat): seq<FileMark>
    requires ValidTable(table) && AllInTable(table, labels)
  {
    if labels == [] then []
    else
      var lab := labels[|labels| - 1];
      MarksOfFile(table, severity, labels[..|labels| - 1], fileId)
      + (if lab.fileId == fileId then [MarkOf(table, severity, lab)] else [])
  }

  /** The position of the first label of a file, or `|labels|` if it has none. */
  function FirstLabelOf(labels: seq<Label>, fileId: nat): (k: nat)
    ensures k <= |labels|
    ensures k < |labels| ==> labels[k].fileId == fileId
    ensures forall j :: 0 <= j < k ==> labels[j].fileId != fileId
  {
    if labels == [] then 0
    else if labels[0].fileId == fileId then 0
    else FirstLabelOf(labels[1..], fileId) + 1
  }

  lemma {:induction false} FirstLabelOfAppend(labels: seq<Label>, lab: Label, fileId: nat)
    ensures FirstLabelOf(labels, fileId) < |labels| ==>
      FirstLabelOf(labels + [lab], fileId) == FirstLabelOf(labels, fileId)
    ensures FirstLabelOf(labels, fileId) == |labels| && lab.fileId == fileId ==>
      FirstLabelOf(labels + [lab], fileId) == |labels|
    ensures FirstLabelOf(labels, fileId) == |labels| && lab.fileId != fileId ==>
      FirstLabelOf(labels + [lab], fileId) == |labels| + 1
  {
    if labels != [] {
      assert (labels + [lab])[1..] == labels[1..] + [lab];
      FirstLabelOfAppend(labels[1..], lab, fileId);
    }
  }

  /** One step of the grouping loop: a label of a new file opens a group at
      the end; a label of a known file leaves the files and origins of the
      groups as they were. */
  lemma {:induction false} GroupStep(table: Table, severity: Severity, labels: seq<Label>)
    requires ValidTable(table) && AllInTable(table, labels) && labels != []
    ensures var before := Group(table, severity, labels[..|labels| - 1]);
      var groups := Group(table, severity, labels);
      var lab := labels[|labels| - 1];
      && (FindFile(before, lab.fileId).None? ==>
            groups == before + [MarkedFile(lab.fileId, table[lab.fileId].origin, [MarkOf(table, severity, lab)])])
      && (FindFile(before, lab.fileId).Some? ==>
            && |groups| == |before|
            && (forall i :: 0 <= i < |groups| ==>
                  groups[i].fileId == before[i].fileId && groups[i].origin == before[i].origin))
  {
  }

  /** A file keeps its group when a label is added. */
  lemma {:induction false} GroupKeepsFile(table: Table, severity: Severity, labels: seq<Label>, fileId: nat)
    requires ValidTable(table) && AllInTable(table, labels) && labels != []
    requires FindFile(Group(table, severity, labels[..|labels| - 1]), fileId).Some?
    ensures FindFile(Group(table, severity, labels), fileId).Some?
  {
    GroupStep(table, severity, labels);
    var before := Group(table, severity, labels[..|labels| - 1]);
    var i := FindFile(before, fileId).value;
    assert Group(table, severity, labels)[i].fileId == fileId;
  }

  /** The file of the last label has a group. */
  lemma {:induction false} GroupHasLastFile(table: Table, severity: Severity, labels: seq<Label>)
    requires ValidTable(table) && AllInTable(table, labels) && labels != []
    ensures FindFile(Group(table, severity, labels), labels[|labels| - 1].fileId).Some?
  {
    GroupStep(table, severity, labels);
    var before := Group(table, severity, labels[..|labels| - 1]);
    var fileId := labels[|labels| - 1].fileId;
    if FindFile(before, fileId).None? {
      assert Group(table, severity, labels)[|before|].fileId == fileId;
    } else {
      GroupKeepsFile(table, severity, labels, fileId);
    }
  }

  /** Every file with a label has a group. */
  lemma {:induction false} GroupCoversLabel(table: Table, severity: Severity, labels: seq<Label>, k: nat)
    requires ValidTable(table) && AllInTable(table, labels) && k < |labels|
    ensures FindFile(Group(table, severity, labels), labels[k].fileId).Some?
  {
    if k == |labels| - 1 {
      GroupHasLastFile(table, severity, labels);
    } else {
      GroupCoversLabel(table, severity, labels[..|labels| - 1], k);
      GroupKeepsFile(table, severity, labels, labels[k].fileId);
    }
  }

  lemma {:induction false} GroupCoversLabels(table: Table, severity: Severity, labels: seq<Label>)
    requires ValidTable(table) && AllInTable(table, labels)
    ensures forall k :: 0 <= k < |labels| ==> FindFile(Group(table, severity, labels), labels[k].fileId).Some?
  {
    forall k | 0 <= k < |labels|
      ensures FindFile(Group(table, severity, labels), labels[k].fileId).Some?
    {
      GroupCoversLabel(table, severity, labels, k);
    }
  }

  /** A file that no label names comes first at the end of the labels. */
  lemma {:induction false} FirstLabelOfAbsent(labels: seq<Label>, fileId: nat)
    requires forall k :: 0 <= k < |labels| ==> labels[k].fileId != fileId
    ensures FirstLabelOf(labels, fileId) == |labels|
  {
    if labels != [] {
      FirstLabelOfAbsent(labels[1..], fileId);
    }
  }

  /** A label whose file has no group yet is the first label of its file. */
  lemma {:induction false} NewFileFirstLabel(table: Table, severity: Severity, labels: seq<Label>, fileId: nat)
    requires ValidTable(table) && AllInTable(table, labels)
    requires FindFile(Group(table, severity, labels), fileId).None?
    ensures FirstLabelOf(labels, fileId) == |labels|
  {
    var groups := Group(table, severity, labels);
    GroupCoversLabels(table, severity, labels);
    forall k | 0 <= k < |labels|
      ensures labels[k].fileId != fileId
    {
      var i := FindFile(groups, labels[k].fileId).value;
      assert groups[i].fileId == labels[k].fileId;
    }
    FirstLabelOfAbsent(labels, fileId);
  }

  /** Every group's file has a label among `labels`, and the groups come in
      the order of those first labels. */
  ghost predicate OrderedByFirstLabel(labels: seq<Label>, groups: seq<MarkedFile>) {
    && (forall i :: 0 <= i < |groups| ==> FirstLabelOf(labels, groups[i].fileId) < |labels|)
    && (forall i, j :: 0 <= i < j < |groups| ==>
          FirstLabelOf(labels, groups[i].fileId) < FirstLabelOf(labels, groups[j].fileId))
  }

  /** Adding a label after the existing ones keeps the first labels of the
      files that already had one. */
  lemma {:induction false} OrderedAppendLabel(prefix: seq<Label>, lab: Label, groups: seq<MarkedFile>)
    requires OrderedByFirstLabel(prefix, groups)
    ensures OrderedByFirstLabel(prefix + [lab], groups)
    ensures forall i :: 0 <= i < |groups| ==> FirstLabelOf(prefix + [lab], groups[i].fileId) < |prefix|
  {
    forall i | 0 <= i < |groups|
      ensures FirstLabelOf(prefix + [lab], groups[i].fileId) == FirstLabelOf(prefix, groups[i].fileId)
    {
      FirstLabelOfAppend(prefix, lab, groups[i].fileId);
    }
  }

  /** Order is kept when the groups keep their files. */
  lemma {:induction false} OrderedSameFiles(labels: seq<Label>, before: seq<MarkedFile>, groups: seq<MarkedFile>)
    requires OrderedByFirstLabel(labels, before)
    requires |groups| == |before| && forall i :: 0 <= i < |groups| ==> groups[i].fileId == before[i].fileId
    ensures OrderedByFirstLabel(labels, groups)
  {
  }

  /** Order is kept when a group whose first label comes after all others is
      appended. */
  lemma {:induction false} OrderedNewGroup(labels: seq<Label>, before: seq<MarkedFile>, g: MarkedFile)
    requires OrderedByFirstLabel(labels, before) && labels != []
    requires forall i :: 0 <= i < |before| ==> FirstLabelOf(labels, before[i].fileId) < |labels| - 1
    requires FirstLabelOf(labels, g.fileId) == |labels| - 1
    ensures OrderedByFirstLabel(labels, before + [g])
  {
    var groups := before + [g];
    forall i, j | 0 <= i < j < |groups|
      ensures FirstLabelOf(labels, groups[i].fileId) < FirstLabelOf(labels, groups[j].fileId)
    {
      assert groups[i] == before[i];
    }
  }

  /** The groups come in the order in which the first labels of their files
      come; in particular no file has two groups. */
  lemma {:induction false} GroupOrdered(table: Table, severity: Severity, labels: seq<Label>)
    requires ValidTable(table) && AllInTable(table, labels)
    ensures OrderedByFirstLabel(labels, Group(table, severity, labels))
  {
    if labels != [] {
      var prefix := labels[..|labels| - 1];
      var lab := labels[|labels| - 1];
      assert labels == prefix + [lab];
      var before := Group(table, severity, prefix);
      GroupOrdered(table, severity, prefix);
      GroupStep(table, severity, labels);
      OrderedAppendLabel(prefix, lab, before);
      if FindFile(before, lab.fileId).None? {
        NewFileFirstLabel(table, severity, prefix, lab.fileId);
        FirstLabelOfAppend(prefix, lab, lab.fileId);
        OrderedNewGroup(labels, before, MarkedFile(lab.fileId, table[lab.fileId].origin, [MarkOf(table, severity, lab)]));
      } else {
        OrderedSameFiles(labels, before, Group(table, severity, labels));
      }
    }
  }

  /** `GroupOrdered`, stated outright. */
  lemma {:induction false} GroupOrder(table: Table, severity: Severity, labels: seq<Label>)
    requires ValidTable(table) && AllInTable(table, labels)
    ensures forall i :: 0 <= i < |Group(table, severity, labels)| ==>
      FirstLabelOf(labels, Group(table, severity, labels)[i].fileId) < |labels|
    ensures forall i, j :: 0 <= i < j < |Group(table, severity, labels)| ==>
      FirstLabelOf(labels, Group(table, severity, labels)[i].fileId)
        < FirstLabelOf(labels, Group(table, severity, labels)[j].fileId)
  {
    GroupOrdered(table, severity, labels);
  }

  /** No file has two groups. */
  lemma {:induction false} GroupFilesDistinct(table: Table, severity: Severity, labels: seq<Label>)
    requires ValidTable(table) && AllInTable(table, labels)
    ensures forall i, j :: 0 <= i < j < |Group(table, severity, labels)| ==> Group(table, severity, labels)[i].fileId != Group(table, severity, labels)[j].fileId
  {
    GroupOrder(table, severity, labels);
  }

  /** Each group belongs to a file of the table and carries its origin. */
  lemma {:induction false} GroupOrigins(table: Table, severity: Severity, labels: seq<Label>)
    requires ValidTable(table) && AllInTable(table, labels)
    ensures forall i :: 0 <= i < |Group(table, severity, labels)| ==> Group(table, severity, labels)[i].fileId < |table|
    ensures forall i :: 0 <= i < |Group(table, severity, labels)| ==> Group(table, severity, labels)[i].origin == table[Group(table, severity, labels)[i].fileId].origin
  {
    if labels != [] {
      GroupOrigins(table, severity, labels[..|labels| - 1]);
      GroupStep(table, severity, labels);
    }
  }

  /** Group `i` holds the marks of its file's labels, in label order. */
  lemma {:induction false} GroupMarksAt(table: Table, severity: Severity, labels: seq<Label>, i: nat)
    requires ValidTable(table) && AllInTable(table, labels)
    requires i < |Group(table, severity, labels)|
    ensures Group(table, severity, labels)[i].marks
      == MarksOfFile(table, severity, labels, Group(table, severity, labels)[i].fileId)
  {
    var prefix := labels[..|labels| - 1];
    var lab := labels[|labels| - 1];
    var before := Group(table, severity, prefix);
    var groups := Group(table, severity, labels);
    match FindFile(before, lab.fileId) {
      case None =>
        if i < |before| {
          GroupMarksAt(table, severity, prefix, i);
          assert groups[i] == before[i];
        } else {
          NewFileFirstLabel(table, severity, prefix, lab.fileId);
          MarksOfAbsentFile(table, severity, prefix, lab.fileId);
        }
      case Some(g) =>
        GroupMarksAt(table, severity, prefix, i);
        if i != g {
          GroupFilesDistinct(table, severity, prefix);
          assert before[i].fileId != before[g].fileId;
        }
    }
  }

  /** Each group holds the marks of its file's labels, in label order. */
  lemma {:induction false} GroupMarks(table: Table, severity: Severity, labels: seq<Label>)
    requires ValidTable(table) && AllInTable(table, labels)
    ensures forall i :: 0 <= i < |Group(table, severity, labels)| ==>
      Group(table, severity, labels)[i].marks == MarksOfFile(table, severity, labels, Group(table, severity, labels)[i].fileId)
  {
    forall i | 0 <= i < |Group(table, severity, labels)|
      ensures Group(table, severity, labels)[i].marks
        == MarksOfFile(table, severity, labels, Group(table, severity, labels)[i].fileId)
    {
      GroupMarksAt(table, severity, labels, i);
    }
  }

  /** Every mark of a file is the mark of a label naming it. */
  lemma {:induction false} MarksOfFileSource(table: Table, severity: Severity, labels: seq<Label>, fileId: nat, m: FileMark)
    returns (k: nat)
    requires ValidTable(table) && AllInTable(table, labels)
    requires m in MarksOfFile(table, severity, labels, fileId)
    ensures k < |labels| && labels[k].fileId == fileId && m == MarkOf(table, severity, labels[k])
  {
    var prefix := labels[..|labels| - 1];
    if m in MarksOfFile(table, severity, prefix, fileId) {
      k := MarksOfFileSource(table, severity, prefix, fileId, m);
      assert labels[k] == prefix[k];
    } else {
      k := |labels| - 1;
    }
  }

  /** The mark of every label naming a file is among the file's marks. */
  lemma {:induction false} MarksOfFileComplete(table: Table, severity: Severity, labels: seq<Label>, fileId: nat, k: nat)
    requires ValidTable(table) && AllInTable(table, labels)
    requires k < |labels| && labels[k].fileId == fileId
    ensures MarkOf(table, severity, labels[k]) in MarksOfFile(table, severity, labels, fileId)
  {
    var prefix := labels[..|labels| - 1];
    if k < |prefix| {
      assert labels[k] == prefix[k];
      MarksOfFileComplete(table, severity, prefix, fileId, k);
    }
  }

  /** A file with no labels has no marks. */
  lemma {:induction false} MarksOfAbsentFile(table: Table, severity: Severity, labels: seq<Label>, fileId: nat)
    requires ValidTable(table) && AllInTable(table, labels)
    requires FirstLabelOf(labels, fileId) == |labels|
    ensures MarksOfFile(table, severity, labels, fileId) == []
  {
    if labels != [] {
      var prefix := labels[..|labels| - 1];
      assert labels == prefix + [labels[|labels| - 1]];
      FirstLabelOfAppend(prefix, labels[|labels| - 1], fileId);
      MarksOfAbsentFile(table, severity, prefix, fileId);
    }
  }

  /** The number of marks over all groups. */
  function TotalMarks(groups: seq<MarkedFile>): nat {
    if groups == [] then 0 else TotalMarks(groups[..|groups| - 1]) + |groups[|groups| - 1].marks|
  }

  lemma {:induction false} TotalMarksAppend(groups: seq<MarkedFile>, g: MarkedFile)
    ensures TotalMarks(groups + [g]) == TotalMarks(groups) + |g.marks|
  {
    assert (groups + [g])[..|groups|] == groups;
  }

  lemma {:induction false} TotalMarksUpdate(groups: seq<MarkedFile>, i: nat, mark: FileMark)
    requires i < |groups|
    ensures TotalMarks(groups[i := groups[i].(marks := groups[i].marks + [mark])]) == TotalMarks(groups) + 1
  {
    var updated := groups[i := groups[i].(marks := groups[i].marks + [mark])];
    var n := |groups|;
    if i < n - 1 {
      assert updated[..n - 1] == groups[..n - 1][i := groups[i].(marks := groups[i].marks + [mark])];
      TotalMarksUpdate(groups[..n - 1], i, mark);
    } else {
      assert updated[..n - 1] == groups[..n - 1];
    }
  }

  /** No label is lost or duplicated: there are as many marks as labels. */
  lemma {:induction false} GroupKeepsEveryLabel(table: Table, severity: Severity, labels: seq<Label>)
    requires ValidTable(table) && AllInTable(table, labels)
    ensures TotalMarks(Group(table, severity, labels)) == |labels|
  {
    if labels != [] {
      var prefix := labels[..|labels| - 1];
      var lab := labels[|labels| - 1];
      GroupKeepsEveryLabel(table, severity, prefix);
      var before := Group(table, severity, prefix);
      var mark := MarkOf(table, severity, lab);
      match FindFile(before, lab.fileId) {
        case None =>
          TotalMarksAppend(before, MarkedFile(lab.fileId, table[lab.fileId].origin, [mark]));
        case Some(i) =>
          TotalMarksUpdate(before, i, mark);
      }
    }
  }

  /** `(a.start, a.end) <= (b.start, b.end)` in lexicographic order. */
  predicate RangeLe(a: Files.Range, b: Files.Range) {
    a.start < b.start || (a.start == b.start && a.end <= b.end)
  }

  ghost predicate SortedByRange(marks: seq<FileMark>) {
    forall i, j :: 0 <= i < j < |marks| ==> RangeLe(marks[i].range, marks[j].range)
  }

  /** Inserts a mark after every mark whose range is not greater. */
  function InsertMark(sorted: seq<FileMark>, mark: FileMark): seq<FileMark> {
    if sorted == [] || RangeLe(sorted[|sorted| - 1].range, mark.range) then sorted + [mark]
    else InsertMark(sorted[..|sorted| - 1], mark) + [sorted[|sorted| - 1]]
  }

  /** `marks.sort_by_key(|mark| (mark.range.start, mark.range.end))`, a
      stable sort, written as an insertion sort. */
  function SortMarks(marks: seq<FileMark>): seq<FileMark> {
    if marks == [] then []
    else InsertMark(SortMarks(marks[..|marks| - 1]), marks[|marks| - 1])
  }

  /** The marks with exactly the range `r`, in their order. */
  function WithRange(marks: seq<FileMark>, r: Files.Range): seq<FileMark> {
    if marks == [] then []
    else WithRange(marks[..|marks| - 1], r) + (if marks[|marks| - 1].range == r then [marks[|marks| - 1]] else [])
  }

  lemma {:induction false} WithRangeAppend(a: seq<FileMark>, b: seq<FileMark>, r: Files.Range)
    ensures WithRange(a + b, r) == WithRange(a, r) + WithRange(b, r)
  {
    if b != [] {
      assert (a + b)[..|a + b| - 1] == a + b[..|b| - 1];
      WithRangeAppend(a, b[..|b| - 1], r);
    } else {
      assert a + b == a;
    }
  }

  lemma {:induction false} InsertMarkPermutes(sorted: seq<FileMark>, mark: FileMark)
    ensures multiset(InsertMark(sorted, mark)) == multiset(sorted) + multiset{mark}
  {
    if !(sorted == [] || RangeLe(sorted[|sorted| - 1].range, mark.range)) {
      var rest := sorted[..|sorted| - 1];
      assert sorted == rest + [sorted[|sorted| - 1]];
      InsertMarkPermutes(rest, mark);
    }
  }

  lemma {:induction false} InsertMarkSorted(sorted: seq<FileMark>, mark: FileMark)
    requires SortedByRange(sorted)
    ensures SortedByRange(InsertMark(sorted, mark))
  {
    if !(sorted == [] || RangeLe(sorted[|sorted| - 1].range, mark.range)) {
      var rest := sorted[..|sorted| - 1];
      var last := sorted[|sorted| - 1];
      InsertMarkSorted(rest, mark);
      InsertMarkPermutes(rest, mark);
      var inserted := InsertMark(rest, mark);
      forall x | x in inserted
        ensures RangeLe(x.range, last.range)
      {
        assert x in multiset(inserted);
        if x != mark {
          var k :| 0 <= k < |rest| && rest[k] == x;
          assert sorted[k] == x;
        }
      }
      var result := inserted + [last];
      forall i, j | 0 <= i < j < |result|
        ensures RangeLe(result[i].range, result[j].range)
      {
        if j == |result| - 1 {
          assert result[i] in inserted;
        } else {
          assert result[i] == inserted[i] && result[j] == inserted[j];
        }
      }
    }
  }

  lemma {:induction false} InsertMarkStable(sorted: seq<FileMark>, mark: FileMark, r: Files.Range)
    ensures WithRange(InsertMark(sorted, mark), r)
      == WithRange(sorted, r) + (if mark.range == r then [mark] else [])
  {
    if sorted == [] || RangeLe(sorted[|sorted| - 1].range, mark.range) {
      WithRangeAppend(sorted, [mark], r);
      assert [mark][..0] == [];
    } else {
      var rest := sorted[..|sorted| - 1];
      var last := sorted[|sorted| - 1];
      assert sorted == rest + [last];
      InsertMarkStable(rest, mark, r);
      WithRangeAppend(InsertMark(rest, mark), [last], r);
      WithRangeAppend(rest, [last], r);
      assert [last][..0] == [];
    }
  }

  /** The sort orders marks by range, keeps exactly the same marks, and
      keeps marks with equal ranges in their original order. */
  lemma {:induction false} SortMarksSpec(marks: seq<FileMark>)
    ensures SortedByRange(SortMarks(marks))
    ensures multiset(SortMarks(marks)) == multiset(marks)
    ensures forall r :: WithRange(SortMarks(marks), r) == WithRange(marks, r)
  {
    if marks != [] {
      var rest := marks[..|marks| - 1];
      var last := marks[|marks| - 1];
      assert marks == rest + [last];
      SortMarksSpec(rest);
      InsertMarkSorted(SortMarks(rest), last);
      InsertMarkPermutes(SortMarks(rest), last);
      forall r
        ensures WithRange(SortMarks(marks), r) == WithRange(marks, r)
      {
        InsertMarkStable(SortMarks(rest), last, r);
        WithRangeAppend(rest, [last], r);
        assert [last][..0] == [];
      }
    }
  }

  /** Every group with its marks sorted. */
  function SortGroups(groups: seq<MarkedFile>): (sorted: seq<MarkedFile>)
    ensures |sorted| == |groups|
  {
    seq(|groups|, i requires 0 <= i < |groups| => groups[i].(marks := SortMarks(groups[i].marks)))
  }

  ghost predicate GroupsWellFormed(groups: seq<MarkedFile>) {
    forall i :: 0 <= i < |groups| ==>
      |groups[i].marks| > 0 && forall j :: 0 <= j < |groups[i].marks| ==> MarkWellFormed(groups[i].marks[j])
  }

  /** The sorted groups of a diagnostic have marks, all well formed. */
  lemma {:induction false} SortedGroupsWellFormed(table: Table, severity: Severity, labels: seq<Label>)
    requires AllRenderable(table, labels)
    ensures GroupsWellFormed(SortGroups(Group(table, severity, labels)))
  {
    var groups := Group(table, severity, labels);
    GroupOrder(table, severity, labels);
    GroupMarks(table, severity, labels);
    forall i | 0 <= i < |groups|
      ensures |SortMarks(groups[i].marks)| > 0
      ensures forall j :: 0 <= j < |SortMarks(groups[i].marks)| ==> MarkWellFormed(SortMarks(groups[i].marks)[j])
    {
      var fileId := groups[i].fileId;
      GroupOrder(table, severity, labels);
      assert FirstLabelOf(labels, groups[i].fileId) < |labels|;
      MarksOfFileWellFormed(table, severity, labels, fileId);
      MarksOfPresentFile(table, severity, labels, fileId);
      SortMarksSpec(groups[i].marks);
      forall j | 0 <= j < |SortMarks(groups[i].marks)|
        ensures MarkWellFormed(SortMarks(groups[i].marks)[j])
      {
        assert SortMarks(groups[i].marks)[j] in multiset(groups[i].marks);
      }
    }
  }

  lemma {:induction false} MarksOfFileWellFormed(table: Table, severity: Severity, labels: seq<Label>, fileId: nat)
    requires AllRenderable(table, labels)
    ensures forall m :: m in MarksOfFile(table, severity, labels, fileId) ==> MarkWellFormed(m)
  {
    if labels != [] {
      MarksOfFileWellFormed(table, severity, labels[..|labels| - 1], fileId);
      MarkOfWellFormed(table, severity, labels[|labels| - 1]);
    }
  }

  /** A file with a label has a mark. */
  lemma {:induction false} MarksOfPresentFile(table: Table, severity: Severity, labels: seq<Label>, fileId: nat)
    requires ValidTable(table) && AllInTable(table, labels)
    requires FirstLabelOf(labels, fileId) < |labels|
    ensures |MarksOfFile(table, severity, labels, fileId)| > 0
  {
    var prefix := labels[..|labels| - 1];
    if labels[|labels| - 1].fileId != fileId {
      assert labels == prefix + [labels[|labels| - 1]];
      FirstLabelOfAppend(prefix, labels[|labels| - 1], fileId);
      MarksOfPresentFile(table, severity, prefix, fileId);
    }
  }

  /** The 1-based number of the end line of each label, in order. */
  function EndNumbers(table: Table, labels: seq<Label>): (ns: seq<nat>)
    requires ValidTable(table) && AllInTable(table, labels)
    ensures |ns| == |labels|
  {
    if labels == [] then []
    else EndNumbers(table, labels[..|labels| - 1]) + [EndLineIndex(table, labels[|labels| - 1]) + 1]
  }

  lemma {:induction false} EndNumbersAt(table: Table, labels: seq<Label>, k: nat)
    requires ValidTable(table) && AllInTable(table, labels) && k < |labels|
    ensures EndNumbers(table, labels)[k] == EndLineIndex(table, labels[k]) + 1
  {
    if k < |labels| - 1 {
      EndNumbersAt(table, labels[..|labels| - 1], k);
    }
  }

  /** The largest digit count among `ns`; 0 when there are none. */
  function MaxDigits(ns: seq<nat>): nat {
    if ns == [] then 0
    else
      var before := MaxDigits(ns[..|ns| - 1]);
      var width := Digits(ns[|ns| - 1]);
      if before < width then width else before
  }

  lemma {:induction false} MaxDigitsCovers(ns: seq<nat>, k: nat)
    requires k < |ns|
    ensures Digits(ns[k]) <= MaxDigits(ns)
  {
    if k < |ns| - 1 {
      MaxDigitsCovers(ns[..|ns| - 1], k);
    }
  }

  lemma {:induction false} MaxDigitsAttained(ns: seq<nat>)
    ensures ns == [] ==> MaxDigits(ns) == 0
    ensures ns != [] ==> exists k :: 0 <= k < |ns| && MaxDigits(ns) == Digits(ns[k])
  {
    if ns != [] {
      var init := ns[..|ns| - 1];
      if init == [] || MaxDigits(init) < Digits(ns[|ns| - 1]) {
        assert MaxDigits(ns) == Digits(ns[|ns| - 1]);
      } else {
        MaxDigitsAttained(init);
        var k :| 0 <= k < |init| && MaxDigits(init) == Digits(init[k]);
        assert MaxDigits(ns) == Digits(ns[k]);
      }
    }
  }

  /** `outer_padding`: the largest digit count of any label's end line
      number (0 without labels). */
  function OuterPadding(table: Table, labels: seq<Label>): nat
    requires ValidTable(table) && AllInTable(table, labels)
  {
    MaxDigits(EndNumbers(table, labels))
  }

  /** The gutter is wide enough for the end line number of label `k`. */
  lemma {:induction false} OuterPaddingCoversEnd(table: Table, labels: seq<Label>, k: nat)
    requires ValidTable(table) && AllInTable(table, labels) && k < |labels|
    ensures Digits(EndLineIndex(table, labels[k]) + 1) <= OuterPadding(table, labels)
  {
    EndNumbersAt(table, labels, k);
    MaxDigitsCovers(EndNumbers(table, labels), k);
  }

  /** The gutter is wide enough for the end line number of every label. */
  lemma {:induction false} OuterPaddingCoversEnds(table: Table, labels: seq<Label>)
    requires ValidTable(table) && AllInTable(table, labels)
    ensures forall k :: 0 <= k < |labels| ==> Digits(EndLineIndex(table, labels[k]) + 1) <= OuterPadding(table, labels)
  {
    forall k | 0 <= k < |labels|
      ensures Digits(EndLineIndex(table, labels[k]) + 1) <= OuterPadding(table, labels)
    {
      OuterPaddingCoversEnd(table, labels, k);
    }
  }

  /** The gutter is wide enough for every line number of every label. */
  lemma {:induction false} OuterPaddingFits(table: Table, labels: seq<Label>)
    requires ValidTable(table) && AllInTable(table, labels)
    ensures forall k, n: nat :: 0 <= k < |labels| && n <= EndLineIndex(table, labels[k]) + 1 ==>
      Digits(n) <= OuterPadding(table, labels)
  {
    OuterPaddingCoversEnds(table, labels);
    forall k, n: nat | 0 <= k < |labels| && n <= EndLineIndex(table, labels[k]) + 1
      ensures Digits(n) <= OuterPadding(table, labels)
    {
      DigitsMonotone(n, EndLineIndex(table, labels[k]) + 1);
    }
  }

  /** The gutter is no wider than needed: without labels it is empty, and
      otherwise exactly as wide as the end line of some label needs. */
  lemma {:induction false} OuterPaddingAttained(table: Table, labels: seq<Label>)
    requires ValidTable(table) && AllInTable(table, labels)
    ensures labels == [] ==> OuterPadding(table, labels) == 0
    ensures labels != [] ==>
      exists k :: 0 <= k < |labels| && OuterPadding(table, labels) == Digits(EndLineIndex(table, labels[k]) + 1)
  {
    var ns := EndNumbers(table, labels);
    MaxDigitsAttained(ns);
    if labels != [] {
      var k :| 0 <= k < |ns| && MaxDigits(ns) == Digits(ns[k]);
      EndNumbersAt(table, labels, k);
    }
  }
}
