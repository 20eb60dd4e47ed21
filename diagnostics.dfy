/** The diagnostic records that the renderer reads. crate::diagnostic is not
    part of this model; the fields below are those that views.rs uses. */
module Diagnostics {
  import opened Options
  import Files

  datatype Severity = Bug | Error | Warning | Note | Help

  datatype LabelStyle = Primary | Secondary

  /** A byte range of one file, a style and a message. */
  datatype Label = Label(style: LabelStyle, fileId: nat, range: Files.Range, message: string)

  datatype Diagnostic = Diagnostic(
    severity: Severity,
    code: Option<string>,
    message: string,
    labels: seq<Label>,
    notes: seq<string>)
}

/** The render-agnostic entries a diagnostic is laid out into.
    crate::term::display_list is not part of this model; the variants and
    fields below are those that views.rs constructs. */
module DisplayList {
  import opened Options
  import opened Str
  import Files
  import opened Diagnostics

  /** A display-ready position. */
  datatype Locus = Locus(origin: string, lineNumber: nat, columnNumber: nat)

  /** The severity a mark is drawn with: the diagnostic's for a primary
      label, none for a secondary one. */
  type MarkSeverity = Option<Severity>

  /** The connector drawn for one label on one source line. */
  datatype Mark =
    | Single(range: Files.Range, message: string)
    | MultiTopLeft
    | MultiTop(upTo: nat)
    | MultiLeft
    | MultiBottom(upTo: nat, message: string)

  /** The `left_marks` of `SourceEmpty` and `SourceBreak` are always empty in
      views.rs and are not represented. */
  datatype Entry =
    | Header(locus: Option<Locus>, severity: Severity, code: Option<string>, message: string)
    | Empty
    | SourceStart(outerPadding: nat, start: Locus)
    | SourceBreak(outerPadding: nat)
    | SourceEmpty(outerPadding: nat)
    | SourceLine(outerPadding: nat, lineNumber: nat, source: seq<Byte>, marks: seq<Option<(MarkSeverity, Mark)>>)
    | SourceNote(outerPadding: nat, note: string)
}
