/** What the display lists of views.rs promise: their framing, one gutter
    width throughout, one block per file located at the file's first label,
    the source lines of each label, and the headers of the short form. */
module LayoutFacts {
  import opened Options
  import opened Str
  import Files
  import opened Diagnostics
  import opened DisplayList
  import opened Grouping
  import opened Layout

  // Framing

  /** A diagnostic has a group exactly when it has labels. */
  lemma {:induction false} GroupsExactlyWithLabels(table: Table, severity: Severity, labels: seq<Label>)
    requires ValidTable(table) && AllInTable(table, labels)
    ensures Group(table, severity, labels) == [] <==> labels == []
  {
    if labels != [] {
      GroupCoversLabels(table, severity, labels);
      assert FindFile(Group(table, severity, labels), labels[0].fileId).Some?;
    }
  }

  /** `RichEntries` opens with the plain header, follows it with an empty
      line exactly when there are groups, and ends with the notes, in order,
      and a final empty line. */
  lemma {:induction false} RichEntriesFraming(diag: Diagnostic, groups: seq<MarkedFile>, pad: nat)
    requires GroupsWellFormed(groups)
    ensures |RichEntries(diag, groups, pad)| >= 2 + |diag.notes|
    ensures RichEntries(diag, groups, pad)[0] == PlainHeader(diag)
    ensures RichEntries(diag, groups, pad)[|RichEntries(diag, groups, pad)| - 1] == Empty
    ensures groups != [] ==> RichEntries(diag, groups, pad)[1] == Empty
    ensures groups == [] ==> RichEntries(diag, groups, pad) == [PlainHeader(diag)] + NoteEntries(diag.notes, pad) + [Empty]
    ensures RichEntries(diag, groups, pad)[|RichEntries(diag, groups, pad)| - 1 - |diag.notes|..|RichEntries(diag, groups, pad)| - 1]
      == NoteEntries(diag.notes, pad)
  {
    var es := RichEntries(diag, groups, pad);
    var head := [PlainHeader(diag)] + (if groups == [] then [] else [Empty]) + Blocks(groups, pad);
    assert es == head + NoteEntries(diag.notes, pad) + [Empty];
    assert es[|head|..|es| - 1] == NoteEntries(diag.notes, pad);
    if groups == [] {
      assert Blocks(groups, pad) == [];
    }
  }

  /** The rich form opens with the plain header, follows it with an empty
      line exactly when the diagnostic has labels, and ends with the notes,
      in order, and a final empty line. */
  lemma {:induction false} RichFraming(table: Table, diag: Diagnostic)
    requires AllRenderable(table, diag.labels)
    ensures |RichLayout(table, diag)| >= 2 + |diag.notes|
    ensures RichLayout(table, diag)[0] == PlainHeader(diag)
    ensures RichLayout(table, diag)[|RichLayout(table, diag)| - 1] == Empty
    ensures diag.labels != [] ==> RichLayout(table, diag)[1] == Empty
    ensures diag.labels == [] ==> RichLayout(table, diag) == [PlainHeader(diag)] + NoteEntries(diag.notes, 0) + [Empty]
    ensures RichLayout(table, diag)[|RichLayout(table, diag)| - 1 - |diag.notes|..|RichLayout(table, diag)| - 1]
      == NoteEntries(diag.notes, OuterPadding(table, diag.labels))
  {
    GroupsExactlyWithLabels(table, diag.severity, diag.labels);
    RichEntriesFraming(diag, SortedGroups(table, diag), OuterPadding(table, diag.labels));
  }

  // One gutter width

  /** Every entry but a header or an empty line carries the gutter width `pad`. */
  predicate PaddedWith(e: Entry, pad: nat) {
    !(e.Header? || e.Empty?) ==> e.outerPadding == pad
  }

  ghost predicate AllPadded(es: seq<Entry>, pad: nat) {
    forall k :: 0 <= k < |es| ==> PaddedWith(es[k], pad)
  }

  lemma {:induction false} PaddedAppend(a: seq<Entry>, b: seq<Entry>, pad: nat)
    requires AllPadded(a, pad) && AllPadded(b, pad)
    ensures AllPadded(a + b, pad)
  {
    forall k | 0 <= k < |a + b|
      ensures PaddedWith((a + b)[k], pad)
    {
      if k >= |a| {
        assert (a + b)[k] == b[k - |a|];
      }
    }
  }

  lemma {:induction false} MarkEntriesPadded(m: FileMark, pad: nat)
    requires MarkWellFormed(m)
    ensures AllPadded(MarkEntries(m, pad), pad)
  {
  }

  lemma {:induction false} MarksEntriesPadded(marks: seq<FileMark>, pad: nat)
    requires MarksWellFormed(marks)
    ensures AllPadded(MarksEntries(marks, pad), pad)
  {
    if marks != [] {
      MarksEntriesPadded(marks[..|marks| - 1], pad);
      MarkEntriesPadded(marks[|marks| - 1], pad);
      var sep := if |marks| == 1 then SourceEmpty(pad) else SourceBreak(pad);
      PaddedAppend(MarksEntries(marks[..|marks| - 1], pad), [sep], pad);
      PaddedAppend(MarksEntries(marks[..|marks| - 1], pad) + [sep], MarkEntries(marks[|marks| - 1], pad), pad);
    }
  }

  lemma {:induction false} BlocksPadded(groups: seq<MarkedFile>, pad: nat)
    requires GroupsWellFormed(groups)
    ensures AllPadded(Blocks(groups, pad), pad)
  {
    if groups != [] {
      var g := groups[|groups| - 1];
      BlocksPadded(groups[..|groups| - 1], pad);
      MarksEntriesPadded(g.marks, pad);
      PaddedAppend([SourceStart(pad, FileLocus(g))], MarksEntries(g.marks, pad), pad);
      PaddedAppend([SourceStart(pad, FileLocus(g))] + MarksEntries(g.marks, pad), [SourceEmpty(pad)], pad);
      PaddedAppend(Blocks(groups[..|groups| - 1], pad), FileBlock(g, pad), pad);
    }
  }

  /** Every entry of the rich form is drawn with the one gutter width
      computed for the whole diagnostic. */
  lemma {:induction false} RichPadding(table: Table, diag: Diagnostic)
    requires AllRenderable(table, diag.labels)
    ensures AllPadded(RichLayout(table, diag), OuterPadding(table, diag.labels))
  {
    RichEntriesPadded(diag, SortedGroups(table, diag), OuterPadding(table, diag.labels));
  }

  lemma {:induction false} RichEntriesPadded(diag: Diagnostic, groups: seq<MarkedFile>, pad: nat)
    requires GroupsWellFormed(groups)
    ensures AllPadded(RichEntries(diag, groups, pad), pad)
  {
    BlocksPadded(groups, pad);
    var head := [PlainHeader(diag)] + (if groups == [] then [] else [Empty]);
    PaddedAppend(head, Blocks(groups, pad), pad);
    PaddedAppend(head + Blocks(groups, pad), NoteEntries(diag.notes, pad), pad);
    PaddedAppend(head + Blocks(groups, pad) + NoteEntries(diag.notes, pad), [Empty], pad);
  }

  // One block per file

  /** The loci of the `SourceStart` entries, in order. */
  function Loci(es: seq<Entry>): seq<Locus> {
    if es == [] then []
    else Loci(es[..|es| - 1]) + (if es[|es| - 1].SourceStart? then [es[|es| - 1].start] else [])
  }

  lemma {:induction false} LociAppend(a: seq<Entry>, b: seq<Entry>)
    ensures Loci(a + b) == Loci(a) + Loci(b)
  {
    if b != [] {
      assert (a + b)[..|a + b| - 1] == a + b[..|b| - 1];
      LociAppend(a, b[..|b| - 1]);
    } else {
      assert a + b == a;
    }
  }

  lemma {:induction false} NoLoci(es: seq<Entry>)
    requires forall k :: 0 <= k < |es| ==> !es[k].SourceStart?
    ensures Loci(es) == []
  {
    if es != [] {
      NoLoci(es[..|es| - 1]);
    }
  }

  /** A mark is drawn with source lines only. */
  lemma {:induction false} MarkEntriesAreLines(m: FileMark, pad: nat)
    requires MarkWellFormed(m)
    ensures forall k :: 0 <= k < |MarkEntries(m, pad)| ==> MarkEntries(m, pad)[k].SourceLine?
  {
  }

  lemma {:induction false} MarksEntriesHaveNoLocus(marks: seq<FileMark>, pad: nat)
    requires MarksWellFormed(marks)
    ensures Loci(MarksEntries(marks, pad)) == []
  {
    if marks != [] {
      var rest := marks[..|marks| - 1];
      var sep := if |marks| == 1 then SourceEmpty(pad) else SourceBreak(pad);
      var lines := MarkEntries(marks[|marks| - 1], pad);
      MarksEntriesHaveNoLocus(rest, pad);
      MarkEntriesAreLines(marks[|marks| - 1], pad);
      NoLoci([sep]);
      NoLoci(lines);
      LociAppend(MarksEntries(rest, pad), [sep]);
      LociAppend(MarksEntries(rest, pad) + [sep], lines);
    }
  }

  lemma {:induction false} FileBlockLoci(g: MarkedFile, pad: nat)
    requires |g.marks| > 0 && MarksWellFormed(g.marks)
    ensures Loci(FileBlock(g, pad)) == [FileLocus(g)]
  {
    var start := [SourceStart(pad, FileLocus(g))];
    MarksEntriesHaveNoLocus(g.marks, pad);
    NoLoci([SourceEmpty(pad)]);
    LociAppend(start, MarksEntries(g.marks, pad));
    LociAppend(start + MarksEntries(g.marks, pad), [SourceEmpty(pad)]);
    assert Loci(start) == [FileLocus(g)] by {
      assert start[..0] == [];
    }
  }

  /** The loci of the groups, in order. */
  function GroupLoci(groups: seq<MarkedFile>): (loci: seq<Locus>)
    requires GroupsWellFormed(groups)
    ensures |loci| == |groups|
    ensures forall i :: 0 <= i < |groups| ==> loci[i] == FileLocus(groups[i])
  {
    if groups == [] then []
    else GroupLoci(groups[..|groups| - 1]) + [FileLocus(groups[|groups| - 1])]
  }

  lemma {:induction false} BlocksLoci(groups: seq<MarkedFile>, pad: nat)
    requires GroupsWellFormed(groups)
    ensures Loci(Blocks(groups, pad)) == GroupLoci(groups)
  {
    if groups != [] {
      var rest := groups[..|groups| - 1];
      var g := groups[|groups| - 1];
      BlocksLoci(rest, pad);
      FileBlockLoci(g, pad);
      LociAppend(Blocks(rest, pad), FileBlock(g, pad));
    }
  }

  /** Only the second of four parts has loci. */
  lemma {:induction false} LociFrame(a: seq<Entry>, b: seq<Entry>, c: seq<Entry>, d: seq<Entry>)
    requires forall k :: 0 <= k < |a| ==> !a[k].SourceStart?
    requires forall k :: 0 <= k < |c| ==> !c[k].SourceStart?
    requires forall k :: 0 <= k < |d| ==> !d[k].SourceStart?
    ensures Loci(a + b + c + d) == Loci(b)
  {
    NoLoci(a);
    NoLoci(c);
    NoLoci(d);
    LociAppend(a, b);
    LociAppend(a + b, c);
    LociAppend(a + b + c, d);
  }

  /** `RichEntries` has one block per group, in the order of the groups,
      each opened at the locus of the group's first mark. */
  lemma {:induction false} RichEntriesLoci(diag: Diagnostic, groups: seq<MarkedFile>, pad: nat)
    requires GroupsWellFormed(groups)
    ensures Loci(RichEntries(diag, groups, pad)) == GroupLoci(groups)
  {
    BlocksLoci(groups, pad);
    LociFrame([PlainHeader(diag)] + (if groups == [] then [] else [Empty]), Blocks(groups, pad),
              NoteEntries(diag.notes, pad), [Empty]);
  }

  /** The rich form has one block per group, in the order of the groups,
      each opened at the locus of the group's first mark. */
  lemma {:induction false} RichLoci(table: Table, diag: Diagnostic)
    requires AllRenderable(table, diag.labels)
    ensures |Loci(RichLayout(table, diag))| == |SortedGroups(table, diag)|
    ensures forall i :: 0 <= i < |SortedGroups(table, diag)| ==>
      Loci(RichLayout(table, diag))[i] == FileLocus(SortedGroups(table, diag)[i])
  {
    RichEntriesLoci(diag, SortedGroups(table, diag), OuterPadding(table, diag.labels));
  }

  /** Sorting leaves the groups' files and origins where they were. */
  lemma {:induction false} SortedGroupsFiles(table: Table, diag: Diagnostic)
    requires AllRenderable(table, diag.labels)
    ensures |SortedGroups(table, diag)| == |Group(table, diag.severity, diag.labels)|
    ensures forall i :: 0 <= i < |SortedGroups(table, diag)| ==>
      && SortedGroups(table, diag)[i].fileId == Group(table, diag.severity, diag.labels)[i].fileId
      && SortedGroups(table, diag)[i].origin == Group(table, diag.severity, diag.labels)[i].origin
      && SortedGroups(table, diag)[i].marks == SortMarks(Group(table, diag.severity, diag.labels)[i].marks)
  {
  }

  /** The first mark after sorting is one of the marks, and its range is
      not greater than that of any of them. */
  lemma {:induction false} SortedFirstMark(marks: seq<FileMark>)
    requires marks != []
    ensures SortMarks(marks) != [] && SortMarks(marks)[0] in marks
    ensures forall m :: m in marks ==> RangeLe(SortMarks(marks)[0].range, m.range)
  {
    SortMarksSpec(marks);
    var sorted := SortMarks(marks);
    assert marks[0] in multiset(sorted);
    assert sorted[0] in multiset(marks);
    forall m | m in marks
      ensures RangeLe(sorted[0].range, m.range)
    {
      assert m in multiset(sorted);
      var p :| 0 <= p < |sorted| && sorted[p] == m;
      if p > 0 {
        assert RangeLe(sorted[0].range, sorted[p].range);
      }
    }
  }

  /** A group whose first mark is the mark of a label is located at that label. */
  lemma {:induction false} FileLocusOfLabel(table: Table, severity: Severity, g: MarkedFile, lab: Label)
    requires ValidTable(table) && Renderable(table, lab)
    requires |g.marks| > 0 && g.marks[0] == MarkOf(table, severity, lab)
    requires g.origin == table[lab.fileId].origin
    ensures MarkWellFormed(g.marks[0])
    ensures FileLocus(g) == LocusOf(table, lab)
  {
    MarkOfWellFormed(table, severity, lab);
    MarkLineAt(table, severity, lab, 0);
  }

  /** The block of a file is opened at the locus of its first label in range
      order: a label of that file whose range is not greater than that of
      any other label of the file. */
  lemma {:induction false} BlockLocus(table: Table, diag: Diagnostic, i: nat) returns (k: nat)
    requires AllRenderable(table, diag.labels)
    requires i < |SortedGroups(table, diag)|
    ensures k < |diag.labels| && diag.labels[k].fileId == SortedGroups(table, diag)[i].fileId
    ensures FileLocus(SortedGroups(table, diag)[i]) == LocusOf(table, diag.labels[k])
    ensures forall j :: 0 <= j < |diag.labels| && diag.labels[j].fileId == diag.labels[k].fileId ==>
      RangeLe(diag.labels[k].range, diag.labels[j].range)
  {
    var labels := diag.labels;
    var severity := diag.severity;
    var groups := Group(table, severity, labels);
    var g := SortedGroups(table, diag)[i];
    var fileId := groups[i].fileId;
    assert g == groups[i].(marks := SortMarks(groups[i].marks));
    GroupMarks(table, severity, labels);
    GroupOrigins(table, severity, labels);
    var marks := groups[i].marks;
    assert marks != [] by {
      assert |g.marks| > 0;
    }
    SortedFirstMark(marks);
    k := MarksOfFileSource(table, severity, labels, fileId, g.marks[0]);
    FileLocusOfLabel(table, severity, g, labels[k]);
    forall j | 0 <= j < |labels| && labels[j].fileId == labels[k].fileId
      ensures RangeLe(labels[k].range, labels[j].range)
    {
      MarksOfFileComplete(table, severity, labels, fileId, j);
    }
  }

  // The source lines of one label

  /** A label within one line becomes one source line of that line, with a
      `Single` underline from the start to the end of the label, measured from
      the start of the line. */
  lemma {:induction false} SingleLineLabel(table: Table, severity: Severity, lab: Label, pad: nat)
    requires ValidTable(table) && Renderable(table, lab)
    requires StartLineIndex(table, lab) == EndLineIndex(table, lab)
    ensures MarkWellFormed(MarkOf(table, severity, lab))
    ensures var file := table[lab.fileId];
      var s := StartLineIndex(table, lab);
      MarkEntries(MarkOf(table, severity, lab), pad) == [SourceLine(
        pad, s + 1, Files.LineText(file, s),
        [Some((SeverityOf(severity, lab.style),
               Single(Files.Range(lab.range.start - file.lineStarts[s], lab.range.end - file.lineStarts[s]),
                      lab.message)))])]
  {
    MarkOfWellFormed(table, severity, lab);
    MarkLineAt(table, severity, lab, 0);
  }

  /** The top of a label spanning several lines: `MultiTopLeft` when only
      blanks precede its start on its first line, otherwise an underline from
      the start of that line to the start of the label. */
  function LabelTop(table: Table, lab: Label): Mark
    requires ValidTable(table) && Renderable(table, lab)
    requires StartLineIndex(table, lab) < EndLineIndex(table, lab)
  {
    var file := table[lab.fileId];
    var s := StartLineIndex(table, lab);
    var markStart := lab.range.start - file.lineStarts[s];
    if IsBlank(Files.LineText(file, s)[..markStart]) then MultiTopLeft else MultiTop(markStart)
  }

  /** The bottom of a label spanning several lines: an underline from the
      start of its last line to its end, with its message. */
  function LabelBottom(table: Table, lab: Label): Mark
    requires ValidTable(table) && InTable(table, lab)
  {
    MultiBottom(lab.range.end - table[lab.fileId].lineStarts[EndLineIndex(table, lab)], lab.message)
  }

  /** The mark drawn on the `k`-th line of a label spanning several lines. */
  function MultiMarkAt(table: Table, lab: Label, k: nat): Mark
    requires ValidTable(table) && Renderable(table, lab)
    requires StartLineIndex(table, lab) < EndLineIndex(table, lab)
  {
    if k == 0 then LabelTop(table, lab)
    else if StartLineIndex(table, lab) + k < EndLineIndex(table, lab) then MultiLeft
    else LabelBottom(table, lab)
  }

  /** A mark over `n > 1` lines is drawn on each of them, in order: its top,
      `MultiLeft` in between, and its bottom. */
  lemma {:induction false} MultiMarkEntries(m: FileMark, pad: nat)
    requires MarkWellFormed(m) && |m.lines| > 1
    ensures |MarkEntries(m, pad)| == |m.lines|
    ensures forall k :: 0 <= k < |m.lines| ==>
      MarkEntries(m, pad)[k] == MarkedLine(pad, m.lines[k], m.severity,
        if k == 0 then TopMark(m)
        else if k + 1 < |m.lines| then MultiLeft
        else MultiBottom(m.range.end - m.lines[|m.lines| - 1].start, m.message))
  {
    var n := |m.lines|;
    var middle := m.lines[1..n - 1];
    var top := [MarkedLine(pad, m.lines[0], m.severity, TopMark(m))];
    var lefts := LeftEntries(middle, m.severity, pad);
    var bottom := [MarkedLine(pad, m.lines[n - 1], m.severity, MultiBottom(m.range.end - m.lines[n - 1].start, m.message))];
    var es := MarkEntries(m, pad);
    assert es == top + lefts + bottom;
    forall k | 0 < k < n - 1
      ensures es[k] == MarkedLine(pad, m.lines[k], m.severity, MultiLeft)
    {
      assert es[k] == lefts[k - 1];
    }
  }

  /** The top of a label's mark is `LabelTop`. */
  lemma {:induction false} TopMarkOf(table: Table, severity: Severity, lab: Label)
    requires ValidTable(table) && Renderable(table, lab)
    requires StartLineIndex(table, lab) < EndLineIndex(table, lab)
    ensures MarkWellFormed(MarkOf(table, severity, lab)) && |MarkOf(table, severity, lab).lines| > 1
    ensures TopMark(MarkOf(table, severity, lab)) == LabelTop(table, lab)
  {
    MarkOfWellFormed(table, severity, lab);
    MarkLineAt(table, severity, lab, 0);
  }

  /** The bottom of a label's mark is `LabelBottom`. */
  lemma {:induction false} BottomMarkOf(table: Table, severity: Severity, lab: Label)
    requires ValidTable(table) && Renderable(table, lab)
    requires StartLineIndex(table, lab) < EndLineIndex(table, lab)
    ensures MarkWellFormed(MarkOf(table, severity, lab))
    ensures MultiBottom(lab.range.end - MarkOf(table, severity, lab).lines[|MarkOf(table, severity, lab).lines| - 1].start,
                        lab.message) == LabelBottom(table, lab)
  {
    MarkOfWellFormed(table, severity, lab);
    MarkLineAt(table, severity, lab, EndLineIndex(table, lab) - StartLineIndex(table, lab));
  }

  /** The `k`-th source line of a label's multi-line mark. */
  lemma {:induction false} MultiMarkOf(table: Table, severity: Severity, lab: Label, pad: nat, k: nat)
    requires ValidTable(table) && Renderable(table, lab)
    requires StartLineIndex(table, lab) < EndLineIndex(table, lab)
    requires k <= EndLineIndex(table, lab) - StartLineIndex(table, lab)
    ensures MarkWellFormed(MarkOf(table, severity, lab))
    ensures k < |MarkEntries(MarkOf(table, severity, lab), pad)|
    ensures MarkEntries(MarkOf(table, severity, lab), pad)[k] == SourceLine(
        pad,
        StartLineIndex(table, lab) + k + 1,
        Files.LineText(table[lab.fileId], StartLineIndex(table, lab) + k),
        [Some((SeverityOf(severity, lab.style), MultiMarkAt(table, lab, k)))])
  {
    TopMarkOf(table, severity, lab);
    BottomMarkOf(table, severity, lab);
    var m := MarkOf(table, severity, lab);
    MultiMarkEntries(m, pad);
    MarkLineAt(table, severity, lab, k);
  }

  /** A label spanning lines `s < e` becomes one source line for each of
      them, in order: its top on line `s` (`MultiTopLeft` exactly when only
      blanks precede the label there), `MultiLeft` on every line in between,
      and its bottom with the message on line `e`. */
  lemma {:induction false} MultiLineLabel(table: Table, severity: Severity, lab: Label, pad: nat)
    requires ValidTable(table) && Renderable(table, lab)
    requires StartLineIndex(table, lab) < EndLineIndex(table, lab)
    ensures MarkWellFormed(MarkOf(table, severity, lab))
    ensures |MarkEntries(MarkOf(table, severity, lab), pad)|
      == EndLineIndex(table, lab) - StartLineIndex(table, lab) + 1
    ensures forall k :: 0 <= k < |MarkEntries(MarkOf(table, severity, lab), pad)| ==>
      MarkEntries(MarkOf(table, severity, lab), pad)[k] == SourceLine(
        pad,
        StartLineIndex(table, lab) + k + 1,
        Files.LineText(table[lab.fileId], StartLineIndex(table, lab) + k),
        [Some((SeverityOf(severity, lab.style), MultiMarkAt(table, lab, k)))])
  {
    MarkOfWellFormed(table, severity, lab);
    var m := MarkOf(table, severity, lab);
    MultiMarkEntries(m, pad);
    forall k | 0 <= k < |m.lines|
      ensures MarkEntries(m, pad)[k] == SourceLine(
        pad,
        StartLineIndex(table, lab) + k + 1,
        Files.LineText(table[lab.fileId], StartLineIndex(table, lab) + k),
        [Some((SeverityOf(severity, lab.style), MultiMarkAt(table, lab, k)))])
    {
      MultiMarkOf(table, severity, lab, pad, k);
    }
  }

  // The short form

  /** Filtering the primary labels distributes over concatenation, so the
      filter keeps the primary labels in their original order. */
  lemma {:induction false} PrimaryLabelsAppend(a: seq<Label>, b: seq<Label>)
    ensures PrimaryLabels(a + b) == PrimaryLabels(a) + PrimaryLabels(b)
  {
    if b == [] {
      assert a + b == a;
    } else {
      var init := b[..|b| - 1];
      assert (a + b)[..|a + b| - 1] == a + init;
      PrimaryLabelsAppend(a, init);
    }
  }

  /** The located headers are those of the primary labels, in order. */
  lemma {:induction false} LocatedHeadersArePrimary(table: Table, diag: Diagnostic, labels: seq<Label>)
    requires ValidTable(table) && PrimaryInTable(table, labels)
    ensures PrimaryInTable(table, PrimaryLabels(labels))
    ensures LocatedHeaders(table, diag, labels) == seq(|PrimaryLabels(labels)|,
      k requires 0 <= k < |PrimaryLabels(labels)| => LocatedHeader(table, diag, PrimaryLabels(labels)[k]))
  {
    if labels != [] {
      var prefix := labels[..|labels| - 1];
      var lab := labels[|labels| - 1];
      LocatedHeadersArePrimary(table, diag, prefix);
      forall k | 0 <= k < |PrimaryLabels(labels)|
        ensures PrimaryLabels(labels)[k].fileId < |table|
      {
        var p := PrimaryLabels(labels)[k];
        var j :| 0 <= j < |labels| && labels[j] == p;
      }
    }
  }

  /** The short form is only headers: one located header per primary label,
      in label order, or the single plain header when there is none. */
  lemma {:induction false} ShortShape(table: Table, diag: Diagnostic)
    requires ValidTable(table) && PrimaryInTable(table, diag.labels)
    ensures forall k :: 0 <= k < |ShortLayout(table, diag)| ==> ShortLayout(table, diag)[k].Header?
    ensures PrimaryLabels(diag.labels) == [] ==> ShortLayout(table, diag) == [PlainHeader(diag)]
    ensures PrimaryLabels(diag.labels) != [] ==>
      && |ShortLayout(table, diag)| == |PrimaryLabels(diag.labels)|
      && forall k :: 0 <= k < |PrimaryLabels(diag.labels)| ==>
           ShortLayout(table, diag)[k] == LocatedHeader(table, diag, PrimaryLabels(diag.labels)[k])
  {
    LocatedHeadersArePrimary(table, diag, diag.labels);
  }
}
