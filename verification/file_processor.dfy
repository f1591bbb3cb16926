/**
 * The insertion pass of `src/file_processor.py`: the indent of a line, the
 * indentation of a generated comment, the single-entry insertion, and the
 * loop of `process_java_file` that puts one comment per parsed element into
 * the file's line list before the list is joined and written back.
 *
 * Reading and writing the file, the backup copy, the per-file exception
 * logging and the debug output are left out: a file is its content string
 * and the result is the text that would be written, or None when the loop
 * raises.
 */
module FileProcessor {
  import opened Wrappers
  import opened Text
  import opened Seqs
  import opened JavaParser
  import opened CommentGenerator

  // ---------------------------------------------------------------------------
  // _get_indent

  /** `_get_indent`: the length of a line minus the length of its `lstrip()`. */
  function GetIndent(line: string): (r: nat)
    ensures r <= |line|
  {
    |line| - |LStrip(line)|
  }

  /**
   * The indent is exactly the leading whitespace: the first `r` characters
   * are whitespace, the next one (if any) is not, and the rest is the
   * `lstrip()` of the line.
   */
  lemma GetIndentSpec(line: string)
    ensures var r := GetIndent(line);
      && AllSpace(line[..r])
      && (r < |line| ==> !IsSpace(line[r]))
      && line[r..] == LStrip(line)
  {
    LStripSpec(line);
    var r := GetIndent(line);
    var rest := LStrip(line);
    assert line[r..] == rest;
    if r < |line| {
      assert rest[0] == line[r];
    }
  }

  /** Whitespace put in front of a line adds its length to the indent. */
  lemma GetIndentPrefix(w: string, line: string)
    requires AllSpace(w)
    ensures GetIndent(w + line) == |w| + GetIndent(line)
  {
    LStripLeadingSpace(w, line);
  }

  /** `' ' * n` */
  function Spaces(n: nat): (r: string)
    ensures |r| == n && AllSpace(r)
  {
    seq(n, _ => ' ')
  }

  // ---------------------------------------------------------------------------
  // _indent_comment

  /** The `comment` argument: a string, a list of lines, or anything else. */
  datatype CommentValue = TextComment(text: string) | LinesComment(lines: seq<string>) | OtherComment

  /** A comment line with the indent in front, unless the line is blank. */
  function IndentLine(line: string, indent: string): string {
    if Strip(line) != [] then indent + line else line
  }

  function IndentLines(lines: seq<string>, indent: string): (r: seq<string>)
    ensures |r| == |lines|
  {
    seq(|lines|, i requires 0 <= i < |lines| => IndentLine(lines[i], indent))
  }

  /**
   * `_indent_comment`: a list is joined with `'\n'` first, anything that is
   * not a string gives "", and the `splitlines()` of the text are indented
   * and joined again.
   */
  function IndentComment(comment: CommentValue, indent: string): string {
    match comment
    case OtherComment => ""
    case TextComment(text) => IndentText(text, indent)
    case LinesComment(lines) => IndentText(Join(lines, '\n'), indent)
  }

  /** The lines of a text indented and joined again. */
  function IndentText(text: string, indent: string): string {
    Join(IndentLines(SplitLines(text), indent), '\n')
  }

  /** Undoing the indentation of one line: drop the indent from a non-blank line that starts with it. */
  function DedentLine(line: string, indent: string): string {
    if Strip(line) != [] && StartsWith(line, indent) then line[|indent|..] else line
  }

  /**
   * Indenting by whitespace loses nothing: dedenting every line gives the
   * lines back, blank lines are left as they were, and a non-blank line's
   * indent grows by exactly the indent's length.
   */
  lemma IndentLinesInverse(lines: seq<string>, indent: string)
    requires AllSpace(indent)
    ensures var r := IndentLines(lines, indent);
      && (forall i :: 0 <= i < |lines| ==> DedentLine(r[i], indent) == lines[i])
      && (forall i :: 0 <= i < |lines| && Strip(lines[i]) == [] ==> r[i] == lines[i])
      && (forall i :: 0 <= i < |lines| && Strip(lines[i]) != [] ==>
            GetIndent(r[i]) == |indent| + GetIndent(lines[i]))
  {
    var r := IndentLines(lines, indent);
    forall i | 0 <= i < |lines|
      ensures DedentLine(r[i], indent) == lines[i]
      ensures Strip(lines[i]) != [] ==> GetIndent(r[i]) == |indent| + GetIndent(lines[i])
    {
      if Strip(lines[i]) != [] {
        StripLeadingSpace(indent, lines[i]);
        assert (indent + lines[i])[..|indent|] == indent;
        assert (indent + lines[i])[|indent|..] == lines[i];
        GetIndentPrefix(indent, lines[i]);
      }
    }
  }

  /** The empty indent changes nothing but the dropped trailing newline of `splitlines()`. */
  lemma IndentCommentEmptyIndent(text: string)
    ensures text != [] && text[|text| - 1] == '\n' ==> IndentComment(TextComment(text), "") == text[..|text| - 1]
    ensures (text == [] || text[|text| - 1] != '\n') ==> IndentComment(TextComment(text), "") == text
  {
    var lines := SplitLines(text);
    assert IndentLines(lines, "") == lines by {
      forall i | 0 <= i < |lines|
        ensures IndentLine(lines[i], "") == lines[i]
      {
        assert "" + lines[i] == lines[i];
      }
    }
    JoinSplitLines(text);
  }

  /** `n` break-free lines joined by `'\n'` hold `n - 1` breaks. */
  lemma JoinBreaks(lines: seq<string>)
    requires |lines| >= 1
    requires forall i :: 0 <= i < |lines| ==> '\n' !in lines[i]
    ensures Count(Join(lines, '\n'), '\n') + 1 == |lines|
  {
    SplitJoin(lines, '\n');
    SplitCount(Join(lines, '\n'), '\n');
  }

  /** The indented comment has as many lines as the comment's `splitlines()`. */
  lemma IndentCommentLineCount(text: string, indent: string)
    requires text != [] && '\n' !in indent
    ensures Count(IndentComment(TextComment(text), indent), '\n') + 1 == |SplitLines(text)|
  {
    var lines := SplitLines(text);
    var r := IndentLines(lines, indent);
    forall i | 0 <= i < |r|
      ensures '\n' !in r[i]
    {
      assert '\n' !in lines[i];
    }
    JoinBreaks(r);
  }

  // ---------------------------------------------------------------------------
  // _insert_comment

  /** `_insert_comment`: a copy of the list with the comment inserted the way `list.insert` does. */
  function InsertComment<T>(lines: seq<T>, position: int, comment: T): (r: seq<T>)
    ensures |r| == |lines| + 1
  {
    var q := InsertIndex(position, |lines|);
    lines[..q] + [comment] + lines[q..]
  }

  /**
   * The comment sits at the insertion index, everything before it and after
   * it is the input in order, and deleting that one entry gives the input
   * back.
   */
  lemma InsertCommentSpec<T>(lines: seq<T>, position: int, comment: T)
    ensures var q := InsertIndex(position, |lines|);
      var r := InsertComment(lines, position, comment);
      && r[q] == comment
      && r[..q] == lines[..q]
      && r[q + 1..] == lines[q..]
      && r[..q] + r[q + 1..] == lines
  {
    var q := InsertIndex(position, |lines|);
    var r := InsertComment(lines, position, comment);
    assert r[..q] == lines[..q];
    assert r[q + 1..] == lines[q..];
    assert lines[..q] + lines[q..] == lines;
  }

  // ---------------------------------------------------------------------------
  // The insertion loop of process_java_file

  /**
   * An entry of the list the loop rewrites, tagged with where it came from:
   * a line of the source file, or an inserted comment with the width of the
   * indent it was given. The tag is bookkeeping only; what is written is
   * each entry rendered.
   */
  datatype Line = Src(text: string) | Doc(comment: string, indent: nat)

  predicate IsSrc(l: Line) {
    l.Src?
  }

  /** The file's own lines, tagged as source lines. */
  function AsSource(lines: seq<string>): (r: seq<Line>)
    ensures |r| == |lines|
  {
    seq(|lines|, i requires 0 <= i < |lines| => Src(lines[i]))
  }

  /** The text of an entry: a source line as it is, a comment indented by its width. */
  function Rendered(l: Line): string {
    match l
    case Src(text) => text
    case Doc(comment, indent) => IndentComment(TextComment(comment), Spaces(indent))
  }

  /** The texts of the entries, which `'\n'.join` writes. */
  function Texts(ls: seq<Line>): (r: seq<string>)
    ensures |r| == |ls|
  {
    seq(|ls|, i requires 0 <= i < |ls| => Rendered(ls[i]))
  }

  /**
   * One iteration of the loop at index `at`: read the indent of
   * `modified[at]` (None when that raises an IndexError) and insert the
   * indented comment at `at`.
   */
  function Step(modified: seq<Line>, at: int, comment: string): (r: Option<seq<Line>>)
    ensures r.Some? <==> InRange(at, |modified|)
  {
    if !InRange(at, |modified|) then None
    else
      var line := Rendered(modified[PyIndex(at, |modified|)]);
      Some(InsertComment(modified, at, Doc(comment, GetIndent(line))))
  }

  /**
   * The loop as written: element by element, the comment goes to index
   * `line_number - 1` of the list as modified so far, with no allowance for
   * the entries inserted before it, and its indent is read from that same
   * index.
   */
  function InsertAll(modified: seq<Line>, elements: seq<JavaElement>, comment: JavaElement -> string): (r: Option<seq<Line>>)
    decreases |elements|
  {
    if elements == [] then Some(modified)
    else
      match Step(modified, elements[0].lineNumber - 1, comment(elements[0]))
      case None => None
      case Some(next) => InsertAll(next, elements[1..], comment)
  }

  /**
   * A step that does not raise adds one entry and leaves the source entries
   * as they were.
   */
  lemma StepShape(modified: seq<Line>, at: int, comment: string) returns (next: seq<Line>)
    requires InRange(at, |modified|)
    ensures Step(modified, at, comment) == Some(next)
    ensures |next| == |modified| + 1 && Filter(next, IsSrc) == Filter(modified, IsSrc)
  {
    next := Step(modified, at, comment).value;
    var line := Rendered(modified[PyIndex(at, |modified|)]);
    var q := InsertIndex(at, |modified|);
    FilterInsertDropped(modified[..q], Doc(comment, GetIndent(line)), modified[q..], IsSrc);
    assert modified[..q] + modified[q..] == modified;
  }

  /**
   * Whether element `j` reads a valid index of the list as it stands at its
   * turn, when the list starts with `n` entries and grows by one per element.
   */
  predicate AllInRange(elements: seq<JavaElement>, n: nat) {
    forall j :: 0 <= j < |elements| ==> InRange(elements[j].lineNumber - 1, n + j)
  }

  lemma AllInRangeCons(elements: seq<JavaElement>, n: nat)
    requires elements != []
    ensures AllInRange(elements, n) <==>
              InRange(elements[0].lineNumber - 1, n) && AllInRange(elements[1..], n + 1)
  {
    if InRange(elements[0].lineNumber - 1, n) && AllInRange(elements[1..], n + 1) {
      forall j | 1 <= j < |elements|
        ensures InRange(elements[j].lineNumber - 1, n + j)
      {
        assert elements[1..][j - 1] == elements[j];
      }
    }
  }

  /**
   * The loop raises exactly when some element's index is outside the list
   * as it stands at that element's turn (which has grown by one per earlier
   * element).
   */
  lemma {:induction false} InsertAllRaises(modified: seq<Line>, elements: seq<JavaElement>, comment: JavaElement -> string)
    ensures InsertAll(modified, elements, comment).Some? <==> AllInRange(elements, |modified|)
    decreases |elements|
  {
    if elements != [] {
      var e := elements[0];
      AllInRangeCons(elements, |modified|);
      if InRange(e.lineNumber - 1, |modified|) {
        var next := StepShape(modified, e.lineNumber - 1, comment(e));
        InsertAllRaises(next, elements[1..], comment);
      }
    }
  }

  /**
   * When the loop does not raise it adds exactly one entry per element, and
   * removing the inserted entries gives the original lines in order.
   */
  lemma {:induction false} InsertAllShape(modified: seq<Line>, elements: seq<JavaElement>, comment: JavaElement -> string)
    requires InsertAll(modified, elements, comment).Some?
    ensures var r := InsertAll(modified, elements, comment).value;
      |r| == |modified| + |elements| && Filter(r, IsSrc) == Filter(modified, IsSrc)
    decreases |elements|
  {
    if elements != [] {
      var e := elements[0];
      var next := StepShape(modified, e.lineNumber - 1, comment(e));
      InsertAllShape(next, elements[1..], comment);
    }
  }

  /** Every source entry is kept by the filter. */
  lemma AsSourceKept(lines: seq<string>)
    ensures Filter(AsSource(lines), IsSrc) == AsSource(lines)
  {
    var src := AsSource(lines);
    FilterAll(src, IsSrc);
  }

  /**
   * Elements whose line numbers lie within the file never make the loop
   * raise: the result holds every source line, in order, and one comment
   * per element.
   */
  lemma InsertAllInRange(lines: seq<string>, elements: seq<JavaElement>, comment: JavaElement -> string)
    requires forall j :: 0 <= j < |elements| ==> 1 <= elements[j].lineNumber <= |lines|
    ensures var r := InsertAll(AsSource(lines), elements, comment);
      && r.Some?
      && |r.value| == |lines| + |elements|
      && Filter(r.value, IsSrc) == AsSource(lines)
  {
    InsertAllRaises(AsSource(lines), elements, comment);
    InsertAllShape(AsSource(lines), elements, comment);
    AsSourceKept(lines);
  }

  // ---------------------------------------------------------------------------
  // The insertion loop with the index shifted past earlier insertions

  /**
   * The loop as evidently intended: the `inserted` comments already in the
   * list push the element's line down by as many entries, so both the
   * indent and the insertion use `line_number - 1 + inserted`.
   */
  function InsertAllShifted(modified: seq<Line>, elements: seq<JavaElement>, comment: JavaElement -> string,
                            inserted: nat): (r: Option<seq<Line>>)
    decreases |elements|
  {
    if elements == [] then Some(modified)
    else
      match Step(modified, elements[0].lineNumber - 1 + inserted, comment(elements[0]))
      case None => None
      case Some(next) => InsertAllShifted(next, elements[1..], comment, inserted + 1)
  }

  /** Elements in line order whose lines lie after line `m` and within a file of `n` lines. */
  predicate Placed(elements: seq<JavaElement>, m: nat, n: nat) {
    SortedByLine(elements) && forall j :: 0 <= j < |elements| ==> m < elements[j].lineNumber <= n
  }

  /** The elements after the first are placed after the first one's line. */
  lemma PlacedTail(elements: seq<JavaElement>, m: nat, n: nat)
    requires elements != [] && Placed(elements, m, n)
    ensures m < elements[0].lineNumber <= n
    ensures Placed(elements[1..], elements[0].lineNumber - 1, n)
  {
    var rest := elements[1..];
    forall j | 0 <= j < |rest|
      ensures elements[0].lineNumber - 1 < rest[j].lineNumber <= n
    {
      assert rest[j] == elements[j + 1];
    }
    forall i, j | 0 <= i < j < |rest|
      ensures rest[i].lineNumber <= rest[j].lineNumber
    {
      assert rest[i] == elements[i + 1] && rest[j] == elements[j + 1];
    }
  }

  /**
   * The annotated file, as a reference independent of list indices: walking
   * the file's lines from index `m`, each element's comment, indented like
   * its own line, is placed directly above that line.
   */
  function Annotated(lines: seq<string>, m: nat, elements: seq<JavaElement>, comment: JavaElement -> string): seq<Line>
    requires m <= |lines| && Placed(elements, m, |lines|)
    decreases |elements|
  {
    if elements == [] then AsSource(lines[m..])
    else
      var at := elements[0].lineNumber - 1;
      AsSource(lines[m..at]) + [Doc(comment(elements[0]), GetIndent(lines[at]))] + Annotated(lines, at, elements[1..], comment)
  }

  /** The source entries of a tail of the file, cut at `k`. */
  lemma AsSourceSplit(lines: seq<string>, m: nat, k: nat)
    requires m <= k <= |lines|
    ensures AsSource(lines[m..])[..k - m] == AsSource(lines[m..k])
    ensures AsSource(lines[m..])[k - m..] == AsSource(lines[k..])
  {
  }

  /** The source entries of a tail of the file are those up to `k` followed by those from `k`. */
  lemma AsSourceCat(lines: seq<string>, m: nat, k: nat)
    requires m <= k <= |lines|
    ensures AsSource(lines[m..]) == AsSource(lines[m..k]) + AsSource(lines[k..])
  {
    AsSourceSplit(lines, m, k);
    var all := AsSource(lines[m..]);
    assert all == all[..k - m] + all[k - m..];
  }

  /**
   * One step of the shifted loop on a list made of a finished head `done`
   * and the untouched tail of the file from line index `m`.
   */
  lemma ShiftedStep(lines: seq<string>, done: seq<Line>, m: nat, e: JavaElement, comment: JavaElement -> string, k: nat)
    requires m < e.lineNumber <= |lines| && |done| == m + k
    ensures var at := e.lineNumber - 1;
      var modified := done + AsSource(lines[m..]);
      Step(modified, at + k, comment(e)) ==
        Some((done + AsSource(lines[m..at]) + [Doc(comment(e), GetIndent(lines[at]))]) + AsSource(lines[at..]))
  {
    var at := e.lineNumber - 1;
    var modified := done + AsSource(lines[m..]);
    AsSourceSplit(lines, m, at);
    assert modified[at + k] == Src(lines[at]);
    assert modified[..at + k] == done + AsSource(lines[m..at]);
    assert modified[at + k..] == AsSource(lines[at..]);
  }

  /** The reference, one element unfolded. */
  lemma AnnotatedCons(lines: seq<string>, m: nat, elements: seq<JavaElement>, comment: JavaElement -> string)
      returns (at: nat, doc: Line)
    requires m <= |lines| && Placed(elements, m, |lines|) && elements != []
    ensures m <= at < |lines| && Placed(elements[1..], at, |lines|) && !IsSrc(doc)
    ensures Annotated(lines, m, elements, comment) == AsSource(lines[m..at]) + [doc] + Annotated(lines, at, elements[1..], comment)
  {
    PlacedTail(elements, m, |lines|);
    at := elements[0].lineNumber - 1;
    doc := FirstDoc(lines, elements, comment);
    assert elements == [elements[0]] + elements[1..];
    AnnotatedUnfold(lines, m, elements[0], elements[1..], comment);
  }

  /** The reference's definition for a list given as its first element and the rest. */
  lemma AnnotatedUnfold(lines: seq<string>, m: nat, e: JavaElement, rest: seq<JavaElement>, comment: JavaElement -> string)
    requires m <= |lines| && Placed([e] + rest, m, |lines|)
    requires m < e.lineNumber <= |lines| && Placed(rest, e.lineNumber - 1, |lines|)
    ensures Annotated(lines, m, [e] + rest, comment) ==
      AsSource(lines[m..e.lineNumber - 1]) + [Doc(comment(e), GetIndent(lines[e.lineNumber - 1]))] + Annotated(lines, e.lineNumber - 1, rest, comment)
  {
    assert ([e] + rest)[1..] == rest;
  }

  /** The shifted loop, one element unfolded: a step that succeeds hands its list to the rest of the loop. */
  lemma ShiftedUnfold(modified: seq<Line>, next: seq<Line>, elements: seq<JavaElement>, comment: JavaElement -> string, k: nat)
    requires elements != []
    requires Step(modified, elements[0].lineNumber - 1 + k, comment(elements[0])) == Some(next)
    ensures InsertAllShifted(modified, elements, comment, k) == InsertAllShifted(next, elements[1..], comment, k + 1)
  {
  }

  /** The comment entry the reference puts above the first element's line. */
  function FirstDoc(lines: seq<string>, elements: seq<JavaElement>, comment: JavaElement -> string): Line
    requires elements != [] && 0 < elements[0].lineNumber <= |lines|
  {
    Doc(comment(elements[0]), GetIndent(lines[elements[0].lineNumber - 1]))
  }

  /** The shifted loop's first step, with the grown head given. */
  lemma AdvanceLoop(lines: seq<string>, done: seq<Line>, m: nat, elements: seq<JavaElement>,
                    comment: JavaElement -> string, k: nat, grown: seq<Line>, at: nat)
    requires elements != [] && m < elements[0].lineNumber <= |lines| && |done| == m + k
    requires at == elements[0].lineNumber - 1 && grown == done + AsSource(lines[m..at]) + [FirstDoc(lines, elements, comment)]
    ensures InsertAllShifted(done + AsSource(lines[m..]), elements, comment, k) ==
              InsertAllShifted(grown + AsSource(lines[at..]), elements[1..], comment, k + 1)
  {
    ShiftedStep(lines, done, m, elements[0], comment, k);
    ShiftedUnfold(done + AsSource(lines[m..]), grown + AsSource(lines[at..]), elements, comment, k);
  }

  /** The reference's first element, with the grown head given. */
  lemma AdvanceReference(lines: seq<string>, done: seq<Line>, m: nat, elements: seq<JavaElement>,
                         comment: JavaElement -> string, grown: seq<Line>, at: nat)
    requires m <= |lines| && Placed(elements, m, |lines|) && elements != []
    requires at == elements[0].lineNumber - 1 && grown == done + AsSource(lines[m..at]) + [FirstDoc(lines, elements, comment)]
    ensures at <= |lines| && Placed(elements[1..], at, |lines|)
    ensures done + Annotated(lines, m, elements, comment) == grown + Annotated(lines, at, elements[1..], comment)
  {
    PlacedTail(elements, m, |lines|);
    Regroup(done, AsSource(lines[m..at]), FirstDoc(lines, elements, comment), Annotated(lines, at, elements[1..], comment));
  }

  /**
   * One element of the shifted loop and of the reference at once: the head
   * grows by the lines up to the element's line and its comment, and both
   * continue from that line with the remaining elements.
   */
  lemma ShiftedAdvance(lines: seq<string>, done: seq<Line>, m: nat,
                       elements: seq<JavaElement>, comment: JavaElement -> string, k: nat)
      returns (grown: seq<Line>, at: nat)
    requires m <= |lines| && Placed(elements, m, |lines|) && |done| == m + k && elements != []
    ensures at <= |lines| && Placed(elements[1..], at, |lines|) && |grown| == at + k + 1
    ensures InsertAllShifted(done + AsSource(lines[m..]), elements, comment, k) ==
              InsertAllShifted(grown + AsSource(lines[at..]), elements[1..], comment, k + 1)
    ensures done + Annotated(lines, m, elements, comment) == grown + Annotated(lines, at, elements[1..], comment)
  {
    PlacedTail(elements, m, |lines|);
    at := elements[0].lineNumber - 1;
    grown := done + AsSource(lines[m..at]) + [FirstDoc(lines, elements, comment)];
    AdvanceLoop(lines, done, m, elements, comment, k, grown, at);
    AdvanceReference(lines, done, m, elements, comment, grown, at);
  }

  /**
   * The shifted loop, run on a finished head and the untouched tail of the
   * file, finishes the tail exactly as the reference does.
   */
  lemma {:induction false} ShiftedIsAnnotated(lines: seq<string>, done: seq<Line>, m: nat,
                                              elements: seq<JavaElement>, comment: JavaElement -> string, k: nat)
    requires m <= |lines| && Placed(elements, m, |lines|) && |done| == m + k
    ensures InsertAllShifted(done + AsSource(lines[m..]), elements, comment, k) ==
              Some(done + Annotated(lines, m, elements, comment))
    decreases |elements|
  {
    if elements != [] {
      var grown, at := ShiftedAdvance(lines, done, m, elements, comment, k);
      ShiftedIsAnnotated(lines, grown, at, elements[1..], comment, k + 1);
    }
  }

  /**
   * The shifted loop puts every element's comment directly above the
   * element's own line, indented like it, whenever the elements are in line
   * order within the file, as the parser delivers them.
   */
  lemma ShiftedAnnotates(lines: seq<string>, elements: seq<JavaElement>, comment: JavaElement -> string)
    requires Placed(elements, 0, |lines|)
    ensures InsertAllShifted(AsSource(lines), elements, comment, 0) == Some(Annotated(lines, 0, elements, comment))
  {
    WholeSlice(lines);
    WholeSlice(AsSource(lines));
    ShiftedIsAnnotated(lines, [], 0, elements, comment, 0);
    WholeSlice(Annotated(lines, 0, elements, comment));
  }

  /** The reference adds one entry per element to the lines from index `m`. */
  lemma {:induction false} AnnotatedLength(lines: seq<string>, m: nat, elements: seq<JavaElement>, comment: JavaElement -> string)
    requires m <= |lines| && Placed(elements, m, |lines|)
    ensures |Annotated(lines, m, elements, comment)| == |lines| - m + |elements|
    decreases |elements|
  {
    if elements != [] {
      var at, doc := AnnotatedCons(lines, m, elements, comment);
      AnnotatedLength(lines, at, elements[1..], comment);
    }
  }

  /** Removing the comments from the reference gives the lines from index `m`, in order. */
  lemma {:induction false} AnnotatedSource(lines: seq<string>, m: nat, elements: seq<JavaElement>, comment: JavaElement -> string)
    requires m <= |lines| && Placed(elements, m, |lines|)
    ensures Filter(Annotated(lines, m, elements, comment), IsSrc) == AsSource(lines[m..])
    decreases |elements|
  {
    if elements == [] {
      AsSourceKept(lines[m..]);
    } else {
      var at, doc := AnnotatedCons(lines, m, elements, comment);
      AnnotatedSource(lines, at, elements[1..], comment);
      AsSourceKept(lines[m..at]);
      FilterAround(AsSource(lines[m..at]), doc, Annotated(lines, at, elements[1..], comment), AsSource(lines[at..]), IsSrc);
      AsSourceCat(lines, m, at);
    }
  }

  // Two classes on consecutive lines: as written, the second comment lands
  // between the first comment and the first class, above the wrong line.

  const TwoClasses: seq<string> := ["class A {}", "class B {}"]
  const ClassA := JavaElement(Class, "A", "class A {}", 1, None, None)
  const ClassB := JavaElement(Class, "B", "class B {}", 2, None, None)

  /** A comment generator answering `// A` for class A and `// B` for anything else. */
  function NameComment(e: JavaElement): string {
    if e.name == "A" then "// A" else "// B"
  }

  /** A step at an unindented line inside the list inserts the comment with no indent. */
  lemma StepFlat(modified: seq<Line>, at: nat, c: string)
    requires at < |modified| && modified[at].Src? && modified[at].text != [] && !IsSpace(modified[at].text[0])
    ensures Step(modified, at, c) == Some(modified[..at] + [Doc(c, 0)] + modified[at..])
  {
  }

  /** The two classes as source entries, and class A's comment above line 1. */
  lemma FirstStepExample()
    ensures AsSource(TwoClasses) == [Src("class A {}"), Src("class B {}")]
    ensures Step(AsSource(TwoClasses), 0, "// A") == Some([Doc("// A", 0), Src("class A {}"), Src("class B {}")])
  {
    var src := AsSource(TwoClasses);
    assert src == [Src("class A {}"), Src("class B {}")];
    assert src[0].text[0] == 'c' && !IsSpace('c');
    StepFlat(src, 0, "// A");
    assert src[..0] + [Doc("// A", 0)] + src[0..] == [Doc("// A", 0)] + src;
    assert [Doc("// A", 0)] + src == [Doc("// A", 0), Src("class A {}"), Src("class B {}")];
  }

  /** The loop as written, one element unfolded: a step that succeeds hands its list to the rest of the loop. */
  lemma InsertAllUnfold(modified: seq<Line>, next: seq<Line>, elements: seq<JavaElement>, comment: JavaElement -> string)
    requires elements != []
    requires Step(modified, elements[0].lineNumber - 1, comment(elements[0])) == Some(next)
    ensures InsertAll(modified, elements, comment) == InsertAll(next, elements[1..], comment)
  {
  }

  /**
   * As written, class B's comment is inserted at index 1 of the grown list,
   * which is class A's line: it ends up above the wrong class.
   */
  lemma InsertAllMisplacesExample()
    ensures InsertAll(AsSource(TwoClasses), [ClassA, ClassB], NameComment) ==
              Some([Doc("// A", 0), Doc("// B", 0), Src("class A {}"), Src("class B {}")])
  {
    FirstStepExample();
    var elements := [ClassA, ClassB];
    var first := [Doc("// A", 0), Src("class A {}"), Src("class B {}")];
    var second := [Doc("// A", 0), Doc("// B", 0), Src("class A {}"), Src("class B {}")];
    assert NameComment(ClassA) == "// A" && NameComment(ClassB) == "// B";
    InsertAllUnfold(AsSource(TwoClasses), first, elements, NameComment);
    assert first[1].text[0] == 'c' && !IsSpace('c');
    StepFlat(first, 1, "// B");
    assert first[..1] + [Doc("// B", 0)] + first[1..] == second;
    assert elements[1..] == [ClassB];
    InsertAllUnfold(first, second, elements[1..], NameComment);
    assert elements[1..][1..] == [];
  }

  /** Shifted past the first comment, class B's comment lands directly above class B. */
  lemma ShiftedPlacesExample()
    ensures InsertAllShifted(AsSource(TwoClasses), [ClassA, ClassB], NameComment, 0) ==
              Some([Doc("// A", 0), Src("class A {}"), Doc("// B", 0), Src("class B {}")])
  {
    FirstStepExample();
    var elements := [ClassA, ClassB];
    var first := [Doc("// A", 0), Src("class A {}"), Src("class B {}")];
    var second := [Doc("// A", 0), Src("class A {}"), Doc("// B", 0), Src("class B {}")];
    assert NameComment(ClassA) == "// A" && NameComment(ClassB) == "// B";
    ShiftedUnfold(AsSource(TwoClasses), first, elements, NameComment, 0);
    assert first[2].text[0] == 'c' && !IsSpace('c');
    StepFlat(first, 2, "// B");
    assert first[..2] + [Doc("// B", 0)] + first[2..] == second;
    assert elements[1..] == [ClassB];
    ShiftedUnfold(first, second, elements[1..], NameComment, 1);
    assert elements[1..][1..] == [];
  }

  /** The comment the loop asks for, for each element, with the file's lines as context. */
  function Commenter(lines: seq<string>, search: string -> Option<SignatureMatch>,
                     backend: (Request, nat) -> Attempt): JavaElement -> string
  {
    (e: JavaElement) => GenerateComment(e, LineContext(lines), search, backend)
  }

  /**
   * `process_java_file` on a file's content, without the file I/O: the
   * lines are the content's `splitlines()`, the elements are what the
   * parser finds, each comment is generated with the file's lines as
   * context, and the result is the rewritten list joined by `'\n'`, or
   * None when the loop raises an IndexError.
   */
  function ProcessFile(content: string, cs: seq<ClassMatch>, ms: seq<MethodMatch>,
                       search: string -> Option<SignatureMatch>, backend: (Request, nat) -> Attempt): (r: Option<string>)
  {
    var lines := SplitLines(content);
    match InsertAll(AsSource(lines), Parse(content, cs, ms), Commenter(lines, search, backend))
    case None => None
    case Some(result) => Some(Join(Texts(result), '\n'))
  }

  /** With no elements found, the file is written back without one trailing newline. */
  lemma ProcessFileNoElements(content: string, cs: seq<ClassMatch>, ms: seq<MethodMatch>,
                              search: string -> Option<SignatureMatch>, backend: (Request, nat) -> Attempt)
    requires Parse(content, cs, ms) == []
    ensures content != [] && content[|content| - 1] == '\n' ==>
              ProcessFile(content, cs, ms, search, backend) == Some(content[..|content| - 1])
    ensures (content == [] || content[|content| - 1] != '\n') ==>
              ProcessFile(content, cs, ms, search, backend) == Some(content)
  {
    var lines := SplitLines(content);
    assert Texts(AsSource(lines)) == lines;
    JoinSplitLines(content);
  }

  /**
   * Every class match starts inside the file, so every parsed element lies
   * on one of its lines and the loop as written never raises.
   */
  lemma ProcessFileNeverRaises(content: string, cs: seq<ClassMatch>, ms: seq<MethodMatch>,
                               search: string -> Option<SignatureMatch>, backend: (Request, nat) -> Attempt)
    requires ClassesInside(content, cs)
    ensures ProcessFile(content, cs, ms, search, backend).Some?
  {
    var lines := SplitLines(content);
    var elements := Parse(content, cs, ms);
    ParseInFile(content, cs, ms);
    forall j | 0 <= j < |elements|
      ensures 1 <= elements[j].lineNumber <= |lines|
    {
      assert elements[j] in elements;
    }
    InsertAllInRange(lines, elements, Commenter(lines, search, backend));
  }

  /**
   * `process_java_file` with both faults repaired: methods are recognized
   * (the method info is read from the match's groups) and each comment is
   * inserted past the comments already inserted.
   */
  function ProcessFileRepaired(content: string, cs: seq<ClassMatch>, ms: seq<MethodMatch>,
                               search: string -> Option<SignatureMatch>, backend: (Request, nat) -> Attempt): (r: Option<string>)
  {
    var lines := SplitLines(content);
    match InsertAllShifted(AsSource(lines), ParseRepaired(content, cs, ms), Commenter(lines, search, backend), 0)
    case None => None
    case Some(result) => Some(Join(Texts(result), '\n'))
  }

  /**
   * Repaired, processing a file whose matches start inside it never
   * raises, and what it writes is the annotated file: every recognized
   * class and method gets its comment directly above its own line, and the
   * file's own lines are all kept, in order.
   */
  lemma ProcessFileRepairedAnnotates(content: string, cs: seq<ClassMatch>, ms: seq<MethodMatch>,
                                     search: string -> Option<SignatureMatch>, backend: (Request, nat) -> Attempt)
    requires ClassesInside(content, cs) && MethodsInside(content, ms)
    ensures var lines := SplitLines(content);
      var elements := ParseRepaired(content, cs, ms);
      && Placed(elements, 0, |lines|)
      && ProcessFileRepaired(content, cs, ms, search, backend) ==
           Some(Join(Texts(Annotated(lines, 0, elements, Commenter(lines, search, backend))), '\n'))
      && Filter(Annotated(lines, 0, elements, Commenter(lines, search, backend)), IsSrc) == AsSource(lines)
  {
    var lines := SplitLines(content);
    var elements := ParseRepaired(content, cs, ms);
    var comment := Commenter(lines, search, backend);
    ParseRepairedInFile(content, cs, ms);
    forall j | 0 <= j < |elements|
      ensures 0 < elements[j].lineNumber <= |lines|
    {
      assert elements[j] in elements;
    }
    ShiftedAnnotates(lines, elements, comment);
    AnnotatedSource(lines, 0, elements, comment);
    WholeSlice(lines);
  }
}
