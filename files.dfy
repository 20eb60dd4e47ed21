/** Source files for diagnostic reporting: line starts, byte offset to line
    and column resolution, and a database of files addressed by index
    (codespan-reporting/src/files.rs). */
module Files {
  import opened Str
  import opened Options

  /** A half-open byte range `start..end`. */
  datatype Range = Range(start: nat, end: nat)

  /** `files::Line`: a 1-based line number and the byte range of the line. */
  datatype Line = Line(number: nat, range: Range)

  ghost predicate StrictlyIncreasing(xs: seq<nat>) {
    forall i, j :: 0 <= i < j < |xs| ==> xs[i] < xs[j]
  }

  /** The offsets just past each `'\n'` of `s`, in the order they occur. */
  function NewlineEnds(s: seq<Byte>): seq<nat> {
    if s == [] then []
    else NewlineEnds(s[..|s| - 1]) + (if s[|s| - 1] == Newline then [|s|] else [])
  }

  /** `line_starts`: 0, then `i + 1` for every `'\n'` at byte `i`. A newline
      byte never occurs inside a multi-byte UTF-8 character, so scanning the
      bytes finds what `match_indices('\n')` finds. */
  function LineStarts(source: seq<Byte>): seq<nat> {
    [0] + NewlineEnds(source)
  }

  lemma {:induction false} NewlineEndsShape(s: seq<Byte>)
    ensures StrictlyIncreasing(NewlineEnds(s))
    ensures forall k :: 0 <= k < |NewlineEnds(s)| ==>
      1 <= NewlineEnds(s)[k] <= |s| && s[NewlineEnds(s)[k] - 1] == Newline
    ensures forall i :: 0 <= i < |s| && s[i] == Newline ==> i + 1 in NewlineEnds(s)
  {
    if s != [] {
      var p := s[..|s| - 1];
      NewlineEndsShape(p);
      var before := NewlineEnds(p);
      var last: seq<nat> := if s[|s| - 1] == Newline then [|s|] else [];
      var ends := before + last;
      assert ends == NewlineEnds(s);
      forall k | 0 <= k < |ends|
        ensures 1 <= ends[k] <= |s| && s[ends[k] - 1] == Newline
      {
        if k < |before| {
          assert ends[k] == before[k] && p[before[k] - 1] == s[before[k] - 1];
        }
      }
      forall i, j | 0 <= i < j < |ends|
        ensures ends[i] < ends[j]
      {
        if j < |before| {
          assert ends[i] == before[i] && ends[j] == before[j];
        } else {
          assert ends[i] == before[i] <= |p|;
        }
      }
      forall i | 0 <= i < |s| && s[i] == Newline
        ensures i + 1 in ends
      {
        if i < |p| {
          assert p[i] == s[i];
          assert i + 1 in before;
        }
      }
    }
  }

  /** The line starts begin with 0 and increase strictly up to at most the
      length of the source; an offset other than 0 is a line start exactly
      when the byte before it is a newline. */
  lemma {:induction false} LineStartsShape(source: seq<Byte>)
    ensures |LineStarts(source)| >= 1 && LineStarts(source)[0] == 0
    ensures StrictlyIncreasing(LineStarts(source))
    ensures forall k :: 0 <= k < |LineStarts(source)| ==> LineStarts(source)[k] <= |source|
    ensures forall k :: 0 < k < |LineStarts(source)| ==> source[LineStarts(source)[k] - 1] == Newline
    ensures forall i :: 0 <= i < |source| && source[i] == Newline ==> i + 1 in LineStarts(source)
  {
    NewlineEndsShape(source);
    var ends := NewlineEnds(source);
    assert forall k :: 0 < k < |LineStarts(source)| ==> LineStarts(source)[k] == ends[k - 1];
  }

  /** The newline ends of the first line of the example below. */
  lemma {:induction false} NewlineEndsExampleHead()
    ensures NewlineEnds([102, 111, 111, 10, 98, 97, 114]) == [4]
  {
    var s: seq<Byte> := [102, 111, 111, 10, 98, 97, 114];
    assert NewlineEnds(s[..0]) == [];
    assert s[..1][..0] == s[..0];
    assert NewlineEnds(s[..1]) == [];
    assert s[..2][..1] == s[..1];
    assert NewlineEnds(s[..2]) == [];
    assert s[..3][..2] == s[..2];
    assert NewlineEnds(s[..3]) == [];
    assert s[..4][..3] == s[..3];
    assert NewlineEnds(s[..4]) == [4];
    assert s[..5][..4] == s[..4];
    assert NewlineEnds(s[..5]) == [4];
    assert s[..6][..5] == s[..5];
    assert NewlineEnds(s[..6]) == [4];
    assert s[..7] == s;
    assert s[..7][..6] == s[..6];
  }

  /** The line starts of the source used by the tests of files.rs. */
  lemma {:induction false} LineStartsExample()
    ensures LineStarts([102, 111, 111, 10, 98, 97, 114, 13, 10, 10, 98, 97, 122]) == [0, 4, 9, 10]
  {
    var s: seq<Byte> := [102, 111, 111, 10, 98, 97, 114, 13, 10, 10, 98, 97, 122];
    NewlineEndsExampleHead();
    assert s[..7] == [102, 111, 111, 10, 98, 97, 114];
    assert s[..8][..7] == s[..7];
    assert NewlineEnds(s[..8]) == [4];
    assert s[..9][..8] == s[..8];
    assert NewlineEnds(s[..9]) == [4, 9];
    assert s[..10][..9] == s[..9];
    assert NewlineEnds(s[..10]) == [4, 9, 10];
    assert s[..11][..10] == s[..10];
    assert NewlineEnds(s[..11]) == [4, 9, 10];
    assert s[..12][..11] == s[..11];
    assert NewlineEnds(s[..12]) == [4, 9, 10];
    assert s[..13] == s;
    assert s[..13][..12] == s[..12];
  }

  /** The largest index of `xs` whose value is at most `x`. */
  function LastAtMost(xs: seq<nat>, x: nat): (i: nat)
    requires |xs| > 0 && xs[0] <= x
    ensures i < |xs| && xs[i] <= x
    ensures forall j :: i < j < |xs| ==> x < xs[j]
  {
    if xs[|xs| - 1] <= x || |xs| == 1 then |xs| - 1
    else LastAtMost(xs[..|xs| - 1], x)
  }

  /** The outcome of `slice::binary_search`. */
  datatype SearchResult = Found(index: nat) | NotFound(insertAt: nat)

  /** `slice::binary_search` on a sorted slice: either an index holding `x`,
      or the position where `x` would be inserted to keep the slice sorted. */
  method BinarySearch(xs: seq<nat>, x: nat) returns (r: SearchResult)
    requires forall i, j :: 0 <= i < j < |xs| ==> xs[i] <= xs[j]
    ensures r.Found? ==> r.index < |xs| && xs[r.index] == x
    ensures r.NotFound? ==> r.insertAt <= |xs|
    ensures r.NotFound? ==> forall i :: 0 <= i < r.insertAt ==> xs[i] < x
    ensures r.NotFound? ==> forall i :: r.insertAt <= i < |xs| ==> x < xs[i]
  {
    var lo, hi := 0, |xs|;
    while lo < hi
      invariant 0 <= lo <= hi <= |xs|
      invariant forall i :: 0 <= i < lo ==> xs[i] < x
      invariant forall i :: hi <= i < |xs| ==> x < xs[i]
    {
      var mid := lo + (hi - lo) / 2;
      if xs[mid] < x {
        lo := mid + 1;
      } else if x < xs[mid] {
        hi := mid;
      } else {
        return Found(mid);
      }
    }
    return NotFound(lo);
  }

  /** `SimpleFile`: an origin (a displayable name), the source text, and the
      line starts computed once when the file is created. */
  datatype SimpleFile = SimpleFile(origin: string, source: seq<Byte>, lineStarts: seq<nat>)
  {
    /** The cached line starts are those of the source. */
    predicate Valid() {
      lineStarts == LineStarts(source)
    }

    /** `line_start`: a recorded line start, the end of the source for the
        index just past the last line, and nothing beyond that. */
    function LineStart(lineIndex: nat): (r: Option<nat>)
      requires Valid()
      ensures r.Some? <==> lineIndex <= |lineStarts|
      ensures r.Some? ==> r.value <= |source|
      ensures lineIndex == |lineStarts| ==> r == Some(|source|)
    {
      LineStartsShape(source);
      if lineIndex < |lineStarts| then Some(lineStarts[lineIndex])
      else if lineIndex == |lineStarts| then Some(|source|)
      else None
    }

    /** `line_range`: from the start of the line to the start of the next. */
    function LineRange(lineIndex: nat): (r: Option<Range>)
      requires Valid()
      ensures r.Some? <==> lineIndex < |lineStarts|
      ensures r.Some? ==> r.value.start <= r.value.end <= |source|
    {
      LineStartsShape(source);
      match LineStart(lineIndex)
      case None => None
      case Some(start) =>
        match LineStart(lineIndex + 1)
        case None => None
        case Some(next) => Some(Range(start, next))
    }

    /** The line that `line_index` reports for a byte offset: the last line
        starting at or before it. */
    function LineIndexOf(byteIndex: nat): (i: nat)
      requires Valid()
      ensures i < |lineStarts| && lineStarts[i] <= byteIndex
      ensures i + 1 < |lineStarts| ==> byteIndex < lineStarts[i + 1]
    {
      LineStartsShape(source);
      LastAtMost(lineStarts, byteIndex)
    }

    /** `Files::line_index` for a `SimpleFile`: a binary search over the line
        starts; an exact hit is that line, a miss the line before the
        insertion point. It never fails. */
    method LineIndex(byteIndex: nat) returns (r: Option<nat>)
      requires Valid()
      ensures r == Some(LineIndexOf(byteIndex))
    {
      LineStartsShape(source);
      var found := BinarySearch(lineStarts, byteIndex);
      match found {
        case Found(line) =>
          r := Some(line);
          var i := LineIndexOf(byteIndex);
          assert lineStarts[i] <= lineStarts[line];
        case NotFound(nextLine) =>
          assert lineStarts[0] <= byteIndex;
          r := Some(nextLine - 1);
          var i := LineIndexOf(byteIndex);
          assert lineStarts[i] <= byteIndex;
          assert i == LastAtMost(lineStarts, byteIndex);
          assert lineStarts[nextLine - 1] < byteIndex;
      }
    }

    /** `Files::line` for a `SimpleFile`. */
    function LineAt(lineIndex: nat): (r: Option<Line>)
      requires Valid()
      ensures r.Some? <==> LineRange(lineIndex).Some?
      ensures r.Some? ==> r.value.number == lineIndex + 1 && r.value.range == LineRange(lineIndex).value
    {
      match LineRange(lineIndex)
      case None => None
      case Some(range) => Some(Line(lineIndex + 1, range))
    }
  }

  /** `SimpleFile::new`: collects the line starts of the source. */
  method NewSimpleFile(origin: string, source: seq<Byte>) returns (file: SimpleFile)
    ensures file.Valid() && file.origin == origin && file.source == source
  {
    var starts := [0];
    for i := 0 to |source|
      invariant starts == [0] + NewlineEnds(source[..i])
    {
      assert source[..i + 1][..i] == source[..i];
      if source[i] == Newline {
        starts := starts + [i + 1];
      }
    }
    assert source[..|source|] == source;
    file := SimpleFile(origin, source, starts);
  }

  /** The text of one line, its line terminator included. */
  function LineText(file: SimpleFile, lineIndex: nat): seq<Byte>
    requires file.Valid() && lineIndex < |file.lineStarts|
  {
    var range := file.LineRange(lineIndex).value;
    file.source[range.start..range.end]
  }

  /** The line texts of the source used by the tests of files.rs:
      `foo\n`, `bar\r\n`, `\n` and `baz`. */
  lemma {:induction false} LineTextsExample()
    ensures var file := SimpleFile("test", [102, 111, 111, 10, 98, 97, 114, 13, 10, 10, 98, 97, 122], [0, 4, 9, 10]);
      && file.Valid()
      && LineText(file, 0) == [102, 111, 111, 10]
      && LineText(file, 1) == [98, 97, 114, 13, 10]
      && LineText(file, 2) == [10]
      && LineText(file, 3) == [98, 97, 122]
  {
    var file := SimpleFile("test", [102, 111, 111, 10, 98, 97, 114, 13, 10, 10, 98, 97, 122], [0, 4, 9, 10]);
    LineStartsExample();
    assert file.Valid();
    assert file.LineRange(0).value == Range(0, 4);
    assert file.LineRange(1).value == Range(4, 9);
    assert file.LineRange(2).value == Range(9, 10);
    assert file.LineRange(3).value == Range(10, 13);
  }

  /** The texts of the first `n` lines, one after the other. */
  function LinesText(file: SimpleFile, n: nat): seq<Byte>
    requires file.Valid() && n <= |file.lineStarts|
  {
    if n == 0 then [] else LinesText(file, n - 1) + LineText(file, n - 1)
  }

  lemma {:induction false} LinesTextIsPrefix(file: SimpleFile, n: nat)
    requires file.Valid() && n <= |file.lineStarts|
    ensures LinesText(file, n) == file.source[..file.LineStart(n).value]
  {
    if n > 0 {
      LinesTextIsPrefix(file, n - 1);
      var range := file.LineRange(n - 1).value;
      assert range == Range(file.LineStart(n - 1).value, file.LineStart(n).value);
      assert file.source[..range.start] + file.source[range.start..range.end] == file.source[..range.end];
    }
  }

  /** The line ranges tile the source: their texts, in order, are the whole
      source. */
  lemma {:induction false} LinesReassembleSource(file: SimpleFile)
    requires file.Valid()
    ensures LinesText(file, |file.lineStarts|) == file.source
  {
    LinesTextIsPrefix(file, |file.lineStarts|);
  }

  /** A newline can only be the last byte of a line; every line but the last
      ends with one, and the last line has none. */
  lemma {:induction false} LineTextNewlines(file: SimpleFile, lineIndex: nat)
    requires file.Valid() && lineIndex < |file.lineStarts|
    ensures forall k :: 0 <= k < |LineText(file, lineIndex)| - 1 ==> LineText(file, lineIndex)[k] != Newline
    ensures lineIndex + 1 < |file.lineStarts| ==>
      |LineText(file, lineIndex)| > 0 && LineText(file, lineIndex)[|LineText(file, lineIndex)| - 1] == Newline
    ensures lineIndex + 1 == |file.lineStarts| ==>
      forall k :: 0 <= k < |LineText(file, lineIndex)| ==> LineText(file, lineIndex)[k] != Newline
  {
    LineStartsShape(file.source);
    var starts := file.lineStarts;
    var range := file.LineRange(lineIndex).value;
    var text := LineText(file, lineIndex);
    forall k | 0 <= k < |text| && (k < |text| - 1 || lineIndex + 1 == |starts|)
      ensures text[k] != Newline
    {
      var i := range.start + k;
      NotLineStart(starts, lineIndex, i + 1);
      assert text[k] == file.source[i];
    }
  }

  /** In a strictly increasing sequence nothing lies strictly between two
      neighbours, or above the last element. */
  lemma {:induction false} NotLineStart(xs: seq<nat>, k: nat, x: nat)
    requires StrictlyIncreasing(xs) && k < |xs| && xs[k] < x
    requires k + 1 < |xs| ==> x < xs[k + 1]
    ensures x !in xs
  {
    forall j | 0 <= j < |xs|
      ensures xs[j] != x
    {
      if j < k {
        assert xs[j] < xs[k];
      } else if k + 1 < j {
        assert xs[k + 1] < xs[j];
      }
    }
  }

  /** `line_index` places every offset inside the source in the line whose
      range holds it, and every offset at or past the end in the last line. */
  lemma {:induction false} LineIndexContains(file: SimpleFile, byteIndex: nat)
    requires file.Valid()
    ensures byteIndex < |file.source| ==>
      file.LineRange(file.LineIndexOf(byteIndex)).value.start <= byteIndex < file.LineRange(file.LineIndexOf(byteIndex)).value.end
    ensures |file.source| <= byteIndex ==> file.LineIndexOf(byteIndex) == |file.lineStarts| - 1
  {
    LineStartsShape(file.source);
  }

  /** Line indices do not decrease as the byte offset grows. */
  lemma {:induction false} LineIndexMonotone(file: SimpleFile, b1: nat, b2: nat)
    requires file.Valid() && b1 <= b2
    ensures file.LineIndexOf(b1) <= file.LineIndexOf(b2)
  {
    LineStartsShape(file.source);
  }

  /** `column_index`: the number of characters of the line before the byte
      offset, attributing an offset inside a character to that character. */
  function ColumnIndex(lineSource: seq<Byte>, lineStart: nat, byteIndex: nat): nat {
    if byteIndex < lineStart then 0
    else
      var relative := byteIndex - lineStart;
      var count := CharsBefore(lineSource, relative);
      if relative >= |lineSource| then count
      else if IsCharBoundary(lineSource, relative) then count
      else
        CharsBeforeCountsStart(lineSource, 0, relative);
        count - 1
  }

  /** `column_number`: the 1-based column. */
  function ColumnNumber(lineSource: seq<Byte>, lineStart: nat, byteIndex: nat): (c: nat)
    ensures 1 <= c <= CharCount(lineSource) + 1
  {
    ColumnIndexBounded(lineSource, lineStart, byteIndex);
    ColumnIndex(lineSource, lineStart, byteIndex) + 1
  }

  /** The cases of `column_index`: 0 up to and at the line start; the
      character count at or past the end of the line; at a character
      boundary, the characters before it; inside a character, the characters
      before the boundary that character starts at. */
  lemma {:induction false} ColumnIndexCases(lineSource: seq<Byte>, lineStart: nat, byteIndex: nat)
    ensures byteIndex <= lineStart ==> ColumnIndex(lineSource, lineStart, byteIndex) == 0
    ensures lineStart + |lineSource| <= byteIndex ==>
      ColumnIndex(lineSource, lineStart, byteIndex) == CharCount(lineSource)
    ensures lineStart <= byteIndex && IsCharBoundary(lineSource, byteIndex - lineStart) ==>
      ColumnIndex(lineSource, lineStart, byteIndex) == CharsBefore(lineSource, byteIndex - lineStart)
    ensures forall p: nat ::
      lineStart + p < byteIndex < lineStart + |lineSource| && IsCharBoundary(lineSource, p)
      && (forall q :: p < q <= byteIndex - lineStart ==> !IsCharBoundary(lineSource, q))
      ==> ColumnIndex(lineSource, lineStart, byteIndex) == CharsBefore(lineSource, p)
  {
    if lineStart + |lineSource| <= byteIndex {
      CharsBeforeSaturates(lineSource, byteIndex - lineStart);
    }
    forall p: nat |
      lineStart + p < byteIndex < lineStart + |lineSource| && IsCharBoundary(lineSource, p)
      && (forall q :: p < q <= byteIndex - lineStart ==> !IsCharBoundary(lineSource, q))
      ensures ColumnIndex(lineSource, lineStart, byteIndex) == CharsBefore(lineSource, p)
    {
      CharsBeforeSkip(lineSource, p, byteIndex - lineStart);
    }
  }

  /** Only the boundary at `p` is counted between `p` and a later index `n`
      when no boundary lies strictly between them. */
  lemma {:induction false} CharsBeforeSkip(s: seq<Byte>, p: nat, n: nat)
    requires p < n <= |s| && IsCharBoundary(s, p)
    requires forall q :: p < q < n ==> !IsCharBoundary(s, q)
    ensures CharsBefore(s, n) == CharsBefore(s, p) + 1
  {
    if p + 1 < n {
      CharsBeforeSkip(s, p, n - 1);
    }
  }

  /** A column index never exceeds the number of characters of the line. */
  lemma {:induction false} ColumnIndexBounded(lineSource: seq<Byte>, lineStart: nat, byteIndex: nat)
    ensures ColumnIndex(lineSource, lineStart, byteIndex) <= CharCount(lineSource)
  {
    if lineStart <= byteIndex {
      var relative := byteIndex - lineStart;
      if relative < |lineSource| {
        CharsBeforeMonotone(lineSource, relative, |lineSource|);
      } else {
        CharsBeforeSaturates(lineSource, relative);
      }
    }
  }

  /** Column indices do not decrease as the byte offset grows. */
  lemma {:induction false} ColumnIndexMonotone(lineSource: seq<Byte>, lineStart: nat, b1: nat, b2: nat)
    requires b1 <= b2
    ensures ColumnIndex(lineSource, lineStart, b1) <= ColumnIndex(lineSource, lineStart, b2)
  {
    if lineStart <= b1 {
      var r1, r2 := b1 - lineStart, b2 - lineStart;
      CharsBeforeMonotone(lineSource, r1, r2);
      if r1 < r2 && r1 < |lineSource| && IsCharBoundary(lineSource, r1) {
        CharsBeforeCountsStart(lineSource, r1, r2);
      }
    }
  }

  /** The examples of the documentation of `column_index` and
      `column_number`: the line "🗻∈🌏" (characters of 4, 3 and 4 bytes)
      starting at byte 2. */
  lemma {:induction false} ColumnIndexExample()
    ensures var line: seq<Byte> := [0xF0, 0x9F, 0x97, 0xBB, 0xE2, 0x88, 0x88, 0xF0, 0x9F, 0x8C, 0x8F];
      && ColumnIndex(line, 2, 0) == 0
      && ColumnIndex(line, 2, 2) == 0
      && ColumnIndex(line, 2, 3) == 0
      && ColumnIndex(line, 2, 6) == 1
      && ColumnIndex(line, 2, 10) == 2
      && ColumnIndex(line, 2, 13) == 3
      && ColumnNumber(line, 2, 0) == 1
      && ColumnNumber(line, 2, 13) == 4
  {
  }

  /** `SimpleFiles`: a database of files, each addressed by the index at
      which it was added. */
  class SimpleFiles {
    var files: seq<SimpleFile>

    ghost predicate Valid()
      reads this
    {
      forall id :: 0 <= id < |files| ==> files[id].Valid()
    }

    /** `SimpleFiles::new`: an empty database. */
    constructor ()
      ensures Valid() && files == []
    {
      files := [];
    }

    /** `SimpleFiles::add`: appends one file and returns its index, the
        previous number of files; the files already there are unchanged. */
    method Add(origin: string, source: seq<Byte>) returns (fileId: nat)
      requires Valid()
      modifies this
      ensures Valid()
      ensures fileId == |old(files)|
      ensures files == old(files) + [SimpleFile(origin, source, LineStarts(source))]
    {
      fileId := |files|;
      var file := NewSimpleFile(origin, source);
      files := files + [file];
    }

    /** `SimpleFiles::get`: the file added with that index, if any. */
    function Get(fileId: nat): (r: Option<SimpleFile>)
      reads this
      ensures r.None? <==> |files| <= fileId
      ensures r.Some? ==> r.value == files[fileId]
    {
      if fileId < |files| then Some(files[fileId]) else None
    }

    /** `Files::origin`. */
    function Origin(fileId: nat): (r: Option<string>)
      reads this
      ensures r.Some? <==> fileId < |files|
      ensures r.Some? ==> r.value == files[fileId].origin
    {
      match Get(fileId)
      case None => None
      case Some(file) => Some(file.origin)
    }

    /** `Files::line_index`, delegated to the file. */
    method LineIndex(fileId: nat, byteIndex: nat) returns (r: Option<nat>)
      requires Valid()
      ensures r.Some? <==> fileId < |files|
      ensures r.Some? ==> r.value == files[fileId].LineIndexOf(byteIndex)
    {
      match Get(fileId) {
        case None =>
          r := None;
        case Some(file) =>
          r := file.LineIndex(byteIndex);
      }
    }

    /** `Files::line`, delegated to the file. */
    function LineAt(fileId: nat, lineIndex: nat): (r: Option<Line>)
      reads this
      requires Valid()
      ensures r.Some? <==> fileId < |files| && lineIndex < |files[fileId].lineStarts|
      ensures r.Some? ==> r.value == files[fileId].LineAt(lineIndex).value
    {
      match Get(fileId)
      case None => None
      case Some(file) => file.LineAt(lineIndex)
    }

    /** `Files::source`. */
    function Source(fileId: nat): (r: Option<seq<Byte>>)
      reads this
      ensures r.Some? <==> fileId < |files|
      ensures r.Some? ==> r.value == files[fileId].source
    {
      match Get(fileId)
      case None => None
      case Some(file) => Some(file.source)
    }
  }
}
