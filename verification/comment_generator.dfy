/**
 * The deterministic part of `src/comment_generator.py`: the context
 * preparation and the windows the prompts show, the reshaping of a model reply
 * into Javadoc shape, the signature splitting, the retry schedule of the API
 * call, the local fallbacks and the dispatch on the element type.
 *
 * The language model is not modelled. A backend is an arbitrary function from
 * a request (what the prompt is built from) and an attempt index to either a
 * reply text or an error message; the prompt wording, the response-object
 * unpacking, the debug output and the sleeping are left out, and the waits
 * the client would sleep are returned as a sequence instead.
 */
module CommentGenerator {
  import opened Wrappers
  import opened Text
  import opened Seqs
  import opened JavaParser

  // ---------------------------------------------------------------------------
  // _prepare_context

  /** The `context` argument: None, a string, a list of lines or anything else. */
  datatype Context = NoContext | TextContext(text: string) | LineContext(lines: seq<string>) | OtherContext

  /** `_prepare_context`: the context as a list of lines. */
  function PrepareContext(ctx: Context): (r: seq<string>)
    ensures ctx.TextContext? ==> Join(r, '\n') == ctx.text && |r| == Count(ctx.text, '\n') + 1
    ensures ctx.LineContext? ==> r == ctx.lines
    ensures ctx.NoContext? || ctx.OtherContext? ==> r == []
  {
    match ctx
    case NoContext => []
    case TextContext(text) =>
      JoinSplit(text, '\n');
      SplitCount(text, '\n');
      Split(text, '\n')
    case LineContext(lines) => lines
    case OtherContext => []
  }

  // ---------------------------------------------------------------------------
  // The context windows of the three `_generate_*_comment` methods

  /** How many lines before and after an element's own line a prompt shows. */
  datatype WindowSize = WindowSize(before: nat, after: nat)

  const ClassWindow := WindowSize(10, 20)
  const MethodWindow := WindowSize(5, 15)
  const FieldWindow := WindowSize(5, 5)

  function Max(a: int, b: int): int {
    if a >= b then a else b
  }

  function Min(a: int, b: int): int {
    if a <= b then a else b
  }

  /** `lines[max(0, L - 1 - before):min(len(lines), L - 1 + after)]` for line number `L`. */
  function Window(lines: seq<string>, lineNumber: int, w: WindowSize): seq<string> {
    var at := lineNumber - 1;
    PySlice(lines, Max(0, at - w.before), Min(|lines|, at + w.after))
  }

  /**
   * For a line number of the file (at least 1) the bounds never leave the
   * list, so the window is the plain slice between them, possibly empty; it
   * holds at most `before + after` lines, and it holds the element's own line
   * whenever that line exists.
   */
  lemma WindowSpec(lines: seq<string>, lineNumber: int, w: WindowSize)
    requires lineNumber >= 1
    ensures var lo := Max(0, lineNumber - 1 - w.before);
      var hi := Min(|lines|, lineNumber - 1 + w.after);
      var win := Window(lines, lineNumber, w);
      && 0 <= lo && hi <= |lines|
      && win == (if lo < hi then lines[lo..hi] else [])
      && |win| <= w.before + w.after
      && (lineNumber <= |lines| && w.after >= 1 ==> lines[lineNumber - 1] in win)
  {
    var lo := Max(0, lineNumber - 1 - w.before);
    var hi := Min(|lines|, lineNumber - 1 + w.after);
    PySliceInRange(lines, lo, hi);
    if lineNumber <= |lines| && w.after >= 1 {
      assert lines[lo..hi][lineNumber - 1 - lo] == lines[lineNumber - 1];
    }
  }

  /** The code text a prompt shows: the window joined by `'\n'`. */
  function WindowText(ctx: Context, lineNumber: int, w: WindowSize): string {
    Join(Window(PrepareContext(ctx), lineNumber, w), '\n')
  }

  // ---------------------------------------------------------------------------
  // _format_comment

  /** Markdown fences removed (first "```java", then "```") and the text trimmed. */
  function Unfenced(comment: string): string {
    Strip(Replace(Replace(comment, "```java", ""), "```", ""))
  }

  // The text made to open with a Javadoc opener and to close with a closer.
  function Delimited(c: string): string {
    var open := if StartsWith(c, "/**") then c else "/**\n * " + c;
    if EndsWith(open, "*/") then open else RStrip(open) + "\n */"
  }

  /** A middle line: trimmed, one leading `*` and the space after it dropped, re-prefixed. */
  function InteriorLine(line: string): string {
    var content := Strip(line);
    var body := if StartsWith(content, "*") then Strip(content[1..]) else content;
    if body == [] then " *" else " * " + body
  }

  // The i-th reshaped line: the first is the opener, the last the closer,
  // the others interior lines.
  function ShapeLine(lines: seq<string>, i: nat): string
    requires i < |lines|
  {
    if i == 0 then "/**" else if i == |lines| - 1 then " */" else InteriorLine(lines[i])
  }

  /** The line loop of `_format_comment`. */
  function Reshape(lines: seq<string>): (r: seq<string>)
    ensures |r| == |lines|
  {
    seq(|lines|, i requires 0 <= i < |lines| => ShapeLine(lines, i))
  }

  /** `_format_comment` as written. */
  function FormatComment(comment: string): (r: string)
    ensures comment == [] ==> r == []
  {
    if comment == [] then []
    else Join(Reshape(Split(Delimited(Unfenced(comment)), '\n')), '\n')
  }

  /** The lines `_format_comment` reshapes. */
  function RawLines(comment: string): seq<string> {
    Split(Delimited(Unfenced(comment)), '\n')
  }

  /** An interior line of a formatted block: ` *` alone or ` * ` and trimmed text. */
  predicate InteriorShape(line: string) {
    line == " *" || (|line| > 3 && line[..3] == " * " && Trimmed(line[3..]))
  }

  lemma StripNoBreak(s: string)
    requires '\n' !in s
    ensures '\n' !in Strip(s)
  {
    StripSub(s);
  }

  /** Interior lines have their shape and keep a line free of breaks. */
  lemma InteriorLineShape(line: string)
    requires '\n' !in line
    ensures InteriorShape(InteriorLine(line))
    ensures '\n' !in InteriorLine(line)
  {
    var content := Strip(line);
    StripNoBreak(line);
    var body := if StartsWith(content, "*") then Strip(content[1..]) else content;
    if StartsWith(content, "*") {
      assert forall c :: c in content[1..] ==> c in content;
      StripNoBreak(content[1..]);
      StripEnds(content[1..]);
    } else {
      StripEnds(line);
    }
    if body != [] {
      var r := " * " + body;
      assert r[..3] == " * ";
      assert r[3..] == body;
    }
  }

  /** Lines free of breaks reshape to lines free of breaks, every middle one an interior line. */
  lemma ReshapeShape(raw: seq<string>)
    requires forall i :: 0 <= i < |raw| ==> '\n' !in raw[i]
    ensures forall i :: 0 <= i < |raw| ==> '\n' !in Reshape(raw)[i]
    ensures forall i :: 0 < i < |raw| - 1 ==> InteriorShape(Reshape(raw)[i])
  {
    var shaped := Reshape(raw);
    forall i | 0 < i < |raw| - 1
      ensures '\n' !in shaped[i] && InteriorShape(shaped[i])
    {
      InteriorLineShape(raw[i]);
    }
  }

  /** The reshaped lines hold no line break, and every middle one is an interior line. */
  lemma ReshapedLines(comment: string) returns (shaped: seq<string>)
    ensures shaped == Reshape(RawLines(comment))
    ensures |shaped| == Count(Delimited(Unfenced(comment)), '\n') + 1
    ensures forall i :: 0 <= i < |shaped| ==> '\n' !in shaped[i]
    ensures forall i :: 0 < i < |shaped| - 1 ==> InteriorShape(shaped[i])
  {
    var raw := RawLines(comment);
    SplitPieces(Delimited(Unfenced(comment)), '\n');
    SplitCount(Delimited(Unfenced(comment)), '\n');
    ReshapeShape(raw);
    shaped := Reshape(raw);
  }

  // The lines of a formatted comment are the reshaped lines: as many as the
  // intermediate text has, the first the opener "/**", the last the closer
  // " */" when there are two or more, and every other one an interior line.
  lemma FormatCommentLines(comment: string)
    requires comment != []
    ensures var out := Split(FormatComment(comment), '\n');
      && out == Reshape(RawLines(comment))
      && |out| == Count(Delimited(Unfenced(comment)), '\n') + 1
      && out[0] == "/**"
      && (|out| >= 2 ==> out[|out| - 1] == " */")
      && (forall i :: 0 < i < |out| - 1 ==> InteriorShape(out[i]))
  {
    var shaped := ReshapedLines(comment);
    SplitJoin(shaped, '\n');
  }

  /** A non-empty reply formats to a text that opens with the Javadoc opener. */
  lemma FormatCommentOpens(comment: string)
    requires comment != []
    ensures StartsWith(FormatComment(comment), "/**")
  {
    JoinStartsWith(Reshape(RawLines(comment)), '\n');
  }

  /** A reply that is already a complete Javadoc block on one line. */
  predicate OneLineBlock(comment: string) {
    && '`' !in comment && '\n' !in comment && Trimmed(comment)
    && StartsWith(comment, "/**") && EndsWith(comment, "*/")
  }

  /** Such a reply passes the fence removal and the delimiting unchanged, as one raw line. */
  lemma OneLineBlockLines(comment: string)
    requires OneLineBlock(comment)
    ensures Delimited(Unfenced(comment)) == comment
    ensures RawLines(comment) == [comment]
  {
    ReplaceAbsent(comment, "```java", "", '`');
    ReplaceAbsent(comment, "```", "", '`');
    StripTrimmed(comment);
    assert Unfenced(comment) == comment;
    SplitNoSep(comment, '\n');
  }

  // A reply that is already a one-line Javadoc block, such as
  // "/** Returns the sum. */", is reduced to the bare opener "/**": its text
  // is lost and the comment it starts is never closed.
  lemma FormatCommentCollapses(comment: string)
    requires OneLineBlock(comment)
    ensures FormatComment(comment) == "/**"
    ensures !EndsWith(FormatComment(comment), "*/")
  {
    OneLineBlockLines(comment);
    assert Reshape([comment]) == ["/**"];
  }

  /** The collapse on a concrete reply. */
  lemma FormatCommentCollapseExample()
    ensures FormatComment("/** Returns the sum. */") == "/**"
  {
    var c := "/** Returns the sum. */";
    assert c[..3] == "/**";
    assert c[|c| - 2..] == "*/";
    assert OneLineBlock(c);
    FormatCommentCollapses(c);
  }

  // The text between the opener and the closer of a one-line block.
  function OneLineBody(d: string): string {
    if |d| >= 5 then d[3..|d| - 2] else ""
  }

  /**
   * `_format_comment` as evidently intended: a block that fits on one line is
   * first opened onto three lines (opener, text, closer), so that the text is
   * kept and the comment is closed.
   */
  function FormatCommentRepaired(comment: string): (r: string)
    ensures comment == [] ==> r == []
  {
    if comment == [] then []
    else
      var d := Delimited(Unfenced(comment));
      var lines := Split(d, '\n');
      Join(Reshape(if |lines| == 1 then ["/**", OneLineBody(d), " */"] else lines), '\n')
  }

  /**
   * Reshaping two or more break-free lines and joining them gives a closed
   * block whose lines split back out unchanged.
   */
  lemma ReshapedBlock(lines: seq<string>)
    requires |lines| >= 2
    requires forall i :: 0 <= i < |lines| ==> '\n' !in lines[i]
    ensures var shaped := Reshape(lines);
      var r := Join(shaped, '\n');
      && Split(r, '\n') == shaped
      && shaped[0] == "/**" && shaped[|shaped| - 1] == " */"
      && (forall i :: 0 < i < |shaped| - 1 ==> InteriorShape(shaped[i]))
      && StartsWith(r, "/**") && EndsWith(r, "*/")
  {
    var shaped := Reshape(lines);
    forall i | 0 <= i < |shaped|
      ensures '\n' !in shaped[i]
      ensures 0 < i < |shaped| - 1 ==> InteriorShape(shaped[i])
    {
      if 0 < i < |shaped| - 1 {
        InteriorLineShape(lines[i]);
      }
    }
    SplitJoin(shaped, '\n');
    JoinStartsWith(shaped, '\n');
    JoinEndsWith(shaped, '\n');
    var r := Join(shaped, '\n');
    assert r[|r| - 3..][1..] == r[|r| - 2..];
  }

  /** The lines the repaired formatter reshapes hold no line break. */
  lemma RepairedLinesNoBreak(comment: string)
    ensures var d := Delimited(Unfenced(comment));
      var raw := Split(d, '\n');
      var lines := if |raw| == 1 then ["/**", OneLineBody(d), " */"] else raw;
      forall i :: 0 <= i < |lines| ==> '\n' !in lines[i]
  {
    var d := Delimited(Unfenced(comment));
    var raw := Split(d, '\n');
    SplitPieces(d, '\n');
    if |raw| == 1 {
      JoinSplit(d, '\n');
      assert d == raw[0];
      assert forall c :: c in OneLineBody(d) ==> c in d;
    }
  }

  /**
   * The repaired formatter always yields a closed block: at least two lines,
   * the first the opener and the last the closer, the others interior lines.
   */
  lemma FormatCommentRepairedClosed(comment: string)
    requires comment != []
    ensures var r := FormatCommentRepaired(comment);
      var out := Split(r, '\n');
      && |out| >= 2
      && out[0] == "/**" && out[|out| - 1] == " */"
      && (forall i :: 0 < i < |out| - 1 ==> InteriorShape(out[i]))
      && StartsWith(r, "/**") && EndsWith(r, "*/")
  {
    var d := Delimited(Unfenced(comment));
    var raw := Split(d, '\n');
    var lines := if |raw| == 1 then ["/**", OneLineBody(d), " */"] else raw;
    RepairedLinesNoBreak(comment);
    ReshapedBlock(lines);
  }

  /** On a reply of two or more lines the repair changes nothing. */
  lemma FormatCommentRepairedAgrees(comment: string)
    requires comment != [] && |RawLines(comment)| >= 2
    ensures FormatCommentRepaired(comment) == FormatComment(comment)
  {
  }

  /**
   * On a one-line block the repair keeps the text: the result is the block
   * around the trimmed text, and cleaning it as an existing comment gives
   * that text back.
   */
  lemma FormatCommentRepairedKeepsText(comment: string)
    requires OneLineBlock(comment)
    requires var body := Strip(OneLineBody(comment));
      body != [] && body[0] != '*' && '/' !in body
    ensures FormatCommentRepaired(comment) == Block(Strip(OneLineBody(comment)))
    ensures CleanComment(Some(FormatCommentRepaired(comment))) == Some(Strip(OneLineBody(comment)))
  {
    var b := OneLineBody(comment);
    var body := Strip(b);
    OneLineBlockLines(comment);
    assert InteriorLine(b) == " * " + body;
    assert Reshape(["/**", b, " */"]) == ["/**", " * " + body, " */"];
    BlockJoin(body);
    StripEnds(b);
    assert forall c :: c in b ==> c in comment;
    StripSub(b);
    BlockCleansToText(body);
  }

  /** A text that can stand inside a one-line block. */
  predicate BlockText(w: string) {
    w != [] && Trimmed(w) && w[0] != '*' && '/' !in w && '`' !in w && '\n' !in w
  }

  /** `/** w */` is a one-line block. */
  lemma PaddedBlock(w: string)
    requires BlockText(w)
    ensures OneLineBlock("/** " + w + " */")
  {
    var x := "/** " + w + " */";
    assert x[..3] == "/**";
    assert x[|x| - 2..] == "*/";
    assert x[0] == '/' && x[|x| - 1] == '/';
    assert forall c :: c in x ==> c in w || c in "/** */";
  }

  /** The body of `/** w */` trims to `w`. */
  lemma PaddedBody(w: string)
    requires BlockText(w)
    ensures Strip(OneLineBody("/** " + w + " */")) == w
  {
    var x := "/** " + w + " */";
    assert OneLineBody(x) == [' '] + w + [' '];
    StripPadded(w);
  }

  /**
   * Side by side on `/** w */`: the as-written formatter loses `w` and
   * leaves the block open, the repaired one keeps `w` in a closed block.
   */
  lemma OneLineReplyBothWays(w: string)
    requires BlockText(w)
    ensures FormatComment("/** " + w + " */") == "/**"
    ensures FormatCommentRepaired("/** " + w + " */") == Block(w)
    ensures CleanComment(Some(FormatCommentRepaired("/** " + w + " */"))) == Some(w)
  {
    PaddedBlock(w);
    PaddedBody(w);
    FormatCommentCollapses("/** " + w + " */");
    FormatCommentRepairedKeepsText("/** " + w + " */");
  }

  /** A text without three backticks in a row holds no Markdown code fence "```". */
  lemma NoTripleFenceFree(s: string)
    requires NoTriple(s, '`')
    ensures !Contains(s, "```")
  {
    forall i | 0 <= i <= |s| - 3
      ensures !StartsWith(s[i..], "```")
    {
      assert s[i..][0] == s[i] && s[i..][1] == s[i + 1] && s[i..][2] == s[i + 2];
    }
  }

  /** Fence removal leaves no three backticks in a row, whatever the reply. */
  lemma UnfencedNoTriple(comment: string)
    ensures NoTriple(Unfenced(comment), '`')
  {
    var t := Replace(comment, "```java", "");
    assert "```" == ['`', '`', '`'];
    ReplaceTriple(t, '`');
    NoTripleStrip(Replace(t, "```", ""), '`');
  }

  /** Adding the opener and the closer puts no backtick next to the text. */
  lemma DelimitedNoTriple(c: string)
    requires NoTriple(c, '`')
    ensures NoTriple(Delimited(c), '`')
  {
    var head := "/**\n * ";
    NoTripleAbsent(head, '`');
    NoTripleConcat(head, c, '`');
    var open := if StartsWith(c, "/**") then c else head + c;
    if !EndsWith(open, "*/") {
      RStripSpec(open);
      NoTripleSlice(open, 0, |RStrip(open)|, '`');
      NoTripleAbsent("\n */", '`');
      NoTripleConcat(RStrip(open), "\n */", '`');
    }
  }

  /** A reshaped line has no three backticks in a row when its raw line has none. */
  lemma ShapeLineNoTriple(lines: seq<string>, i: nat)
    requires i < |lines| && NoTriple(lines[i], '`')
    ensures NoTriple(ShapeLine(lines, i), '`')
  {
    if 0 < i < |lines| - 1 {
      var content := Strip(lines[i]);
      NoTripleStrip(lines[i], '`');
      var body := if StartsWith(content, "*") then Strip(content[1..]) else content;
      if StartsWith(content, "*") {
        NoTripleSlice(content, 1, |content|, '`');
        NoTripleStrip(content[1..], '`');
      }
      NoTripleAbsent(" * ", '`');
      NoTripleConcat(" * ", body, '`');
    } else {
      NoTripleAbsent(ShapeLine(lines, i), '`');
    }
  }

  /** Reshaping and joining lines without three backticks in a row gives a text without a fence. */
  lemma ReshapeNoTriple(lines: seq<string>)
    requires forall i :: 0 <= i < |lines| ==> NoTriple(lines[i], '`')
    ensures NoTriple(Join(Reshape(lines), '\n'), '`')
  {
    var shaped := Reshape(lines);
    forall i | 0 <= i < |shaped|
      ensures NoTriple(shaped[i], '`')
    {
      ShapeLineNoTriple(lines, i);
    }
    NoTripleJoin(shaped, '\n', '`');
  }

  /**
   * Both formatters strip every code fence: whatever the reply, neither
   * result holds "```", because the removal leaves no three backticks in a
   * row and the reshaping adds no backtick.
   */
  lemma FormatCommentFenceFree(comment: string)
    ensures !Contains(FormatComment(comment), "```")
    ensures !Contains(FormatCommentRepaired(comment), "```")
  {
    if comment != [] {
      var d := Delimited(Unfenced(comment));
      UnfencedNoTriple(comment);
      DelimitedNoTriple(Unfenced(comment));
      var raw := Split(d, '\n');
      SplitNoTriple(d, '\n', '`');
      ReshapeNoTriple(raw);
      NoTripleFenceFree(FormatComment(comment));
      if |raw| == 1 {
        var body := OneLineBody(d);
        if |d| >= 5 {
          NoTripleSlice(d, 3, |d| - 2, '`');
        }
        NoTripleAbsent("/**", '`');
        NoTripleAbsent(" */", '`');
        ReshapeNoTriple(["/**", body, " */"]);
      }
      NoTripleFenceFree(FormatCommentRepaired(comment));
    }
  }

  // ---------------------------------------------------------------------------
  // Fallbacks

  /** A one-line Javadoc block around `text`: opener, ` * text`, closer. */
  function Block(text: string): string {
    "/**\n * " + text + "\n */"
  }

  /** `"/**\n * {name} 클래스\n */"`, the comment of a class when the API gives nothing. */
  function ClassFallback(name: string): string {
    Block(name + " 클래스")
  }

  /** The comment of a method when the API gives nothing. */
  function MethodFallback(name: string): string {
    Block(name + " 메소드")
  }

  /** The comment of a field when the API call raises. */
  function FieldFallback(name: string): string {
    "// " + name + " 필드"
  }

  /** A one-line block is its three lines joined. */
  lemma BlockJoin(text: string)
    ensures Join(["/**", " * " + text, " */"], '\n') == Block(text)
  {
    var lines := ["/**", " * " + text, " */"];
    assert lines[1..][1..] == [" */"];
    assert Join(lines[1..], '\n') == " * " + text + "\n */" by {
      assert "\n */" == ['\n'] + " */";
    }
    assert "/**\n * " == "/**" + ['\n'] + " * ";
  }

  /** The lines of a one-line block. */
  lemma BlockLines(text: string)
    requires '\n' !in text
    ensures Split(Block(text), '\n') == ["/**", " * " + text, " */"]
  {
    BlockJoin(text);
    SplitJoin(["/**", " * " + text, " */"], '\n');
  }

  /** The opener and the closer clean to nothing. */
  lemma CleanDelimiters()
    ensures CleanLine("/**") == "" && CleanLine(" */") == ""
  {
    assert Replace("/**", "/**", "") == "";
    assert Replace("", "*/", "") == "";
    assert Replace(" */", "/**", "") == " */" by {
      assert Replace("*/", "/**", "") == "*/";
      assert Replace(" */", "/**", "") == [' '] + Replace("*/", "/**", "");
    }
    assert Replace(" */", "*/", "") == " " by {
      assert " */"[1..] == "*/";
    }
    assert Strip(" ") == "";
  }

  /** Trimming an interior line drops exactly its leading space. */
  lemma StripInterior(text: string)
    requires text != [] && Trimmed(text)
    ensures Strip(" * " + text) == "* " + text
  {
    var t := "* " + text;
    assert " * " + text == [' '] + t;
    StripLeadingSpace([' '], t);
    assert !IsSpace(t[0]) && t[|t| - 1] == text[|text| - 1];
    StripTrimmed(t);
  }

  /** Neither delimiter occurs in an interior line, so cleaning only strips it. */
  lemma InteriorStripped(text: string)
    requires text != [] && Trimmed(text) && '/' !in text
    ensures Strip(Replace(Replace(" * " + text, "/**", ""), "*/", "")) == "* " + text
  {
    var line := " * " + text;
    assert '/' !in line;
    ReplaceAbsent(line, "/**", "", '/');
    ReplaceAbsent(line, "*/", "", '/');
    StripInterior(text);
  }

  /** An interior line ` * text` cleans back to its text. */
  lemma CleanInterior(text: string)
    requires text != [] && Trimmed(text) && '/' !in text
    ensures CleanLine(" * " + text) == text
  {
    InteriorStripped(text);
    var t := "* " + text;
    assert t[0] == '*' && IsSpace(t[1]) && t[2..] == text;
  }

  /**
   * A fallback block is documented: cleaning it the way the parser cleans an
   * existing comment gives back exactly the one-line text inside it.
   */
  lemma BlockCleansToText(text: string)
    requires text != [] && Trimmed(text)
    requires '/' !in text && '\n' !in text
    ensures CleanComment(Some(Block(text))) == Some(text)
    ensures Documented(Some(Block(text)))
  {
    BlockLines(text);
    BlockCleanLines(text);
    assert Join([text], '\n') == text;
  }

  /** Of the three lines of a block only the text survives cleaning. */
  lemma BlockCleanLines(text: string)
    requires text != [] && Trimmed(text) && '/' !in text
    ensures CleanLines(["/**", " * " + text, " */"]) == [text]
  {
    var lines := ["/**", " * " + text, " */"];
    CleanDelimiters();
    CleanInterior(text);
    var cleaned := CleanedLines(lines);
    assert cleaned[0] == "" && cleaned[1] == text && cleaned[2] == "";
    FilterMiddle(cleaned, NonBlank);
  }

  /** A name the fallbacks are built from: a non-empty identifier. */
  predicate IsName(name: string) {
    name != [] && NoSpace(name) && '/' !in name && '*' !in name && '\n' !in name
  }

  /** A name with a tag after it is trimmed and opens with the name. */
  lemma LabelledName(name: string, tag: string)
    requires IsName(name) && tag != [] && !IsSpace(tag[|tag| - 1])
    requires '/' !in tag && '\n' !in tag
    ensures var t := name + tag;
      t != [] && Trimmed(t) && '/' !in t && '\n' !in t
  {
    var t := name + tag;
    assert t[0] == name[0] && t[|t| - 1] == tag[|tag| - 1];
  }

  /**
   * The class and method fallbacks clean to the element's name followed by
   * a tag, which is non-blank text.
   */
  lemma FallbacksDocumented(name: string)
    requires IsName(name)
    ensures CleanComment(Some(ClassFallback(name))) == Some(name + " 클래스")
    ensures CleanComment(Some(MethodFallback(name))) == Some(name + " 메소드")
    ensures Documented(Some(ClassFallback(name))) && Documented(Some(MethodFallback(name)))
  {
    LabelledName(name, " 클래스");
    BlockCleansToText(name + " 클래스");
    LabelledName(name, " 메소드");
    BlockCleansToText(name + " 메소드");
  }

  // ---------------------------------------------------------------------------
  // _extract_method_signature

  /** One search hit of the signature pattern: its named groups. */
  datatype SignatureMatch = SignatureMatch(
    returnType: string,
    methodName: string,
    parameters: string,
    exceptions: Option<string>)

  /** The dictionary `_extract_method_signature` returns when the pattern is found. */
  datatype Signature = Signature(
    returnType: string,
    methodName: string,
    parameters: seq<Parameter>,
    exceptions: seq<string>)

  /**
   * `_extract_method_signature` after the search: no hit gives the empty
   * dictionary (None); a hit keeps the return type and name, splits a
   * non-blank parameter text into parameters and a non-empty `throws` text
   * into trimmed exception names.
   */
  function ExtractMethodSignature(m: Option<SignatureMatch>): (r: Option<Signature>)
    ensures m.None? <==> r.None?
    ensures r.Some? ==> r.value.returnType == m.value.returnType && r.value.methodName == m.value.methodName
    ensures r.Some? ==> (Strip(m.value.parameters) == [] ==> r.value.parameters == [])
    ensures r.Some? ==> (m.value.exceptions.None? || m.value.exceptions.value == [] <==> r.value.exceptions == [])
    ensures r.Some? && r.value.exceptions != [] ==> |r.value.exceptions| == Count(m.value.exceptions.value, ',') + 1
  {
    match m
    case None => None
    case Some(sm) =>
      var ps := if sm.parameters != [] && Strip(sm.parameters) != [] then Parameters(sm.parameters) else [];
      var xs := if sm.exceptions.Some? && sm.exceptions.value != [] then CommaList(sm.exceptions.value) else [];
      Some(Signature(sm.returnType, sm.methodName, ps, xs))
  }

  /**
   * Round trip: the signature written out as Java text (well-formed
   * parameters, comma-separated exception names, no `throws` clause for no
   * exceptions) is read back exactly; no parameters read back as none.
   */
  lemma SignatureRoundTrip(rt: string, name: string, ps: seq<Parameter>, xs: seq<string>)
    requires forall i :: 0 <= i < |ps| ==> WellFormedParameter(ps[i])
    requires forall i :: 0 <= i < |xs| ==> WellFormedName(xs[i])
    ensures ExtractMethodSignature(Some(SignatureMatch(rt, name, ParametersText(ps), ThrowsText(xs)))) ==
            Some(Signature(rt, name, ps, xs))
  {
    ParametersTextTrimmed(ps);
    StripTrimmed(ParametersText(ps));
    ParametersRoundTrip(ps);
    if xs != [] {
      JoinTrimmed(xs, ',');
      CommaListRoundTrip(xs);
    }
  }

  // ---------------------------------------------------------------------------
  // _call_claude_api

  /** What one attempt of the API call gives: a reply text or an error message. */
  datatype Attempt = Reply(text: string) | Failure(message: string)

  const MaxRetries: nat := 5
  const RetryDelay: nat := 15
  const RetryMultiplier: nat := 2

  function Pow(b: nat, e: nat): nat {
    if e == 0 then 1 else b * Pow(b, e - 1)
  }

  /** The seconds slept before retry number `retryCount + 1`. */
  function Wait(retryCount: nat): nat {
    RetryDelay * Pow(RetryMultiplier, retryCount)
  }

  /** The errors the call retries on: an overload report or a 529 status. */
  predicate IsOverloaded(message: string) {
    Contains(message, "overloaded_error") || Contains(message, "529")
  }

  /** Whether attempt `k` failed in a way that is retried. */
  predicate Retried(attempt: nat -> Attempt, k: nat) {
    attempt(k).Failure? && IsOverloaded(attempt(k).message) && k < MaxRetries - 1
  }

  /** The unformatted reply the retry loop ends with (None when it gives up) and the waits it slept, in order. */
  datatype Run = Run(reply: Option<string>, waits: seq<nat>)

  /**
   * The retry loop of `_call_claude_api(prompt, retryCount)`, with
   * `attempt(k)` the result of the k-th try: a reply ends the loop; an
   * overload error retries after `Wait(retryCount)` seconds while
   * `retryCount < MaxRetries - 1`; any other failure gives None.
   */
  function RetryLoop(attempt: nat -> Attempt, retryCount: nat): (r: Run)
    decreases MaxRetries - retryCount
  {
    if Retried(attempt, retryCount) then
      var rest := RetryLoop(attempt, retryCount + 1);
      Run(rest.reply, [Wait(retryCount)] + rest.waits)
    else if attempt(retryCount).Reply? then Run(Some(attempt(retryCount).text), [])
    else Run(None, [])
  }

  /** The comment the call returns (None when it gives up) and the waits it slept, in order. */
  datatype ApiOutcome = ApiOutcome(comment: Option<string>, waits: seq<nat>)

  /** `_call_claude_api`: the reply the retry loop ends with, formatted. */
  function CallApi(attempt: nat -> Attempt, retryCount: nat): (r: ApiOutcome)
    ensures r.comment.Some? ==> r.comment.value == [] || StartsWith(r.comment.value, "/**")
  {
    var run := RetryLoop(attempt, retryCount);
    match run.reply
    case None => ApiOutcome(None, run.waits)
    case Some(text) =>
      if text != [] then FormatCommentOpens(text); ApiOutcome(Some(FormatComment(text)), run.waits)
      else ApiOutcome(Some(FormatComment(text)), run.waits)
  }

  /**
   * The waits from attempt `k` on: the loop never goes past attempt
   * `MaxRetries - 1`, and the i-th wait is `Wait(k + i)`.
   */
  lemma {:induction false} RetryLoopWaits(attempt: nat -> Attempt, k: nat)
    requires k <= MaxRetries - 1
    ensures var r := RetryLoop(attempt, k);
      && k + |r.waits| <= MaxRetries - 1
      && (forall i :: 0 <= i < |r.waits| ==> r.waits[i] == Wait(k + i))
    decreases MaxRetries - k
  {
    if Retried(attempt, k) {
      var waits, rest := RetryStep(attempt, k);
      RetryLoopWaits(attempt, k + 1);
      forall i | 0 <= i < |waits|
        ensures waits[i] == Wait(k + i)
      {
        if i > 0 {
          assert waits[i] == rest[i - 1];
          assert (k + 1) + (i - 1) == k + i;
        }
      }
    } else {
      assert RetryLoop(attempt, k).waits == [];
    }
  }

  /** A retried attempt sleeps `Wait(k)` and then runs the loop from the next attempt. */
  lemma RetryStep(attempt: nat -> Attempt, k: nat) returns (waits: seq<nat>, rest: seq<nat>)
    requires Retried(attempt, k)
    ensures waits == RetryLoop(attempt, k).waits && rest == RetryLoop(attempt, k + 1).waits
    ensures waits == [Wait(k)] + rest
  {
    waits := RetryLoop(attempt, k).waits;
    rest := RetryLoop(attempt, k + 1).waits;
  }

  /**
   * The attempts from `k` on: with `n` the number of retries, every attempt
   * before the last was retried and the last one decides: the loop ends
   * with its reply, or with None when it failed for good (a non-overload
   * error, or an overload with no retry left).
   */
  lemma {:induction false} RetryLoopAttempts(attempt: nat -> Attempt, k: nat)
    ensures var r := RetryLoop(attempt, k);
      var n := |r.waits|;
      && (forall j :: k <= j < k + n ==> Retried(attempt, j))
      && !Retried(attempt, k + n)
      && (r.reply.Some? <==> attempt(k + n).Reply?)
      && (r.reply.Some? ==> r.reply.value == attempt(k + n).text)
    decreases MaxRetries - k
  {
    if Retried(attempt, k) {
      RetryLoopAttempts(attempt, k + 1);
    }
  }

  /** The waits of a full retry run, in order. */
  const Backoff: seq<nat> := [15, 30, 60, 120]

  function Sum(xs: seq<nat>): nat {
    if xs == [] then 0 else xs[0] + Sum(xs[1..])
  }

  /** The four waits the multiplier gives. */
  lemma BackoffValues()
    ensures forall i :: 0 <= i < |Backoff| ==> Backoff[i] == Wait(i)
  {
    assert Pow(2, 1) == 2 && Pow(2, 2) == 4 && Pow(2, 3) == 8;
  }

  /** No run sleeps more than 225 seconds in all. */
  lemma SumPrefix(n: nat)
    requires n <= |Backoff|
    ensures Sum(Backoff[..n]) <= 225
  {
    assert Backoff[..4][1..] == Backoff[1..4];
    assert Backoff[1..4][1..] == Backoff[2..4];
    assert Backoff[2..4][1..] == Backoff[3..4];
    if n == 0 {
    } else if n == 1 {
      assert Backoff[..1][1..] == [];
    } else if n == 2 {
      assert Backoff[..2][1..] == [30];
      assert [30][1..] == [];
    } else if n == 3 {
      assert Backoff[..3][1..] == [30, 60];
      assert [30, 60][1..] == [60];
      assert [60][1..] == [];
    } else {
      assert Backoff[..4] == Backoff;
      assert Backoff[3..4][1..] == [];
    }
  }

  /**
   * A call started the way the generators start it makes at most
   * `MaxRetries` attempts, retrying only on overload errors; it sleeps a
   * prefix of 15, 30, 60, 120 seconds (at most 225 in all), and returns the
   * formatted reply of its last attempt, or None when that one failed.
   */
  lemma CallApiFromStart(attempt: nat -> Attempt)
    ensures var r := CallApi(attempt, 0);
      var n := |r.waits|;
      && n <= MaxRetries - 1
      && r.waits == Backoff[..n]
      && Sum(r.waits) <= 225
      && (forall j :: 0 <= j < n ==> attempt(j).Failure? && IsOverloaded(attempt(j).message))
      && (attempt(n).Failure? ==> !IsOverloaded(attempt(n).message) || n == MaxRetries - 1)
      && (r.comment.Some? <==> attempt(n).Reply?)
      && (r.comment.Some? ==> r.comment.value == FormatComment(attempt(n).text))
  {
    RetryLoopWaits(attempt, 0);
    RetryLoopAttempts(attempt, 0);
    BackoffValues();
    var r := CallApi(attempt, 0);
    var n := |r.waits|;
    assert r.waits == Backoff[..n];
    SumPrefix(n);
  }

  // ---------------------------------------------------------------------------
  // _generate_field_comment

  /** A field reply trimmed, fences removed, and `// ` put in front unless it is already a line comment. */
  function FieldText(reply: string): string {
    var c := Replace(Strip(reply), "```", "");
    if StartsWith(c, "//") then c else "// " + c
  }

  /**
   * A cleaned field reply always starts with `//`, and cleaning it again
   * changes nothing when the reply held some text and no backtick.
   */
  lemma FieldTextIdempotent(reply: string)
    ensures StartsWith(FieldText(reply), "//")
    ensures '`' !in reply && Strip(reply) != [] ==> FieldText(FieldText(reply)) == FieldText(reply)
  {
    if '`' !in reply && Strip(reply) != [] {
      FieldTextClean(reply);
      FieldTextFixed(FieldText(reply));
    }
  }

  /** Cleaning a reply with some text and no backtick gives a trimmed line comment without backticks. */
  lemma FieldTextClean(reply: string)
    requires '`' !in reply && Strip(reply) != []
    ensures StartsWith(FieldText(reply), "//") && Trimmed(FieldText(reply)) && '`' !in FieldText(reply)
  {
    var c0 := Strip(reply);
    StripSub(reply);
    assert '`' !in c0;
    ReplaceAbsent(c0, "```", "", '`');
    StripEnds(reply);
    var f := if StartsWith(c0, "//") then c0 else "// " + c0;
    assert FieldText(reply) == f;
    assert '`' !in f by {
      assert '`' !in "// ";
    }
    assert f[0] == '/' && f[|f| - 1] == c0[|c0| - 1];
  }

  /** Without text in the reply idempotence fails: `""` cleans to `"// "`, which cleans to `"//"`. */
  lemma FieldTextBlankExample()
    ensures FieldText("") == "// "
    ensures FieldText("// ") == "//"
  {
  }

  /** Only the first line of a reply gets the `// ` prefix: later lines stay uncommented. */
  lemma FieldTextMultiLineExample()
    ensures FieldText("a\nb") == "// a\nb"
  {
  }

  /** A cleaned field reply holds no code fence "```". */
  lemma FieldTextFenceFree(reply: string)
    ensures !Contains(FieldText(reply), "```")
  {
    var c := Replace(Strip(reply), "```", "");
    assert "```" == ['`', '`', '`'];
    ReplaceTriple(Strip(reply), '`');
    if !StartsWith(c, "//") {
      NoTripleAbsent("// ", '`');
      NoTripleConcat("// ", c, '`');
    }
    NoTripleFenceFree(FieldText(reply));
  }

  /** A trimmed line comment without backticks is its own cleaning. */
  lemma FieldTextFixed(f: string)
    requires StartsWith(f, "//") && Trimmed(f) && '`' !in f
    ensures FieldText(f) == f
  {
    StripTrimmed(f);
    ReplaceAbsent(f, "```", "", '`');
  }

  // ---------------------------------------------------------------------------
  // generate_comment

  /** What a prompt is built from: the window of code and, for a method, its name and signature. */
  datatype Request =
    | ClassRequest(code: string)
    | MethodRequest(code: string, name: string, signature: Option<Signature>)
    | FieldRequest(code: string)

  /** The attempts of one call: the backend asked the same request again and again. */
  function Attempts(backend: (Request, nat) -> Attempt, request: Request): nat -> Attempt {
    (k: nat) => backend(request, k)
  }

  /** A call whose every attempt fails gives up. */
  lemma AllFailuresGiveUp(attempt: nat -> Attempt)
    requires forall k: nat :: attempt(k).Failure?
    ensures CallApi(attempt, 0).comment.None?
  {
    RetryLoopAttempts(attempt, 0);
  }

  /**
   * `_generate_class_comment`: the API call on the class window, or the
   * class fallback when the call gives up.
   */
  function ClassComment(e: JavaElement, ctx: Context, backend: (Request, nat) -> Attempt): (r: string)
    ensures r == [] || StartsWith(r, "/**")
  {
    var request := ClassRequest(WindowText(ctx, e.lineNumber, ClassWindow));
    var outcome := CallApi(Attempts(backend, request), 0);
    if outcome.comment.None? then ClassFallback(e.name) else outcome.comment.value
  }

  /**
   * A backend that always replies with a one-line block `/** w */` makes the
   * class comment the bare Javadoc opener: the reply is taken on the first
   * attempt and the formatter collapses it.
   */
  lemma ClassCommentOneLineReply(e: JavaElement, ctx: Context, w: string)
    requires BlockText(w)
    ensures ClassComment(e, ctx, (q: Request, k: nat) => Reply("/** " + w + " */")) == "/**"
  {
    var backend := (q: Request, k: nat) => Reply("/** " + w + " */");
    var request := ClassRequest(WindowText(ctx, e.lineNumber, ClassWindow));
    var attempt := Attempts(backend, request);
    CallApiFromStart(attempt);
    assert attempt(0).Reply?;
    OneLineReplyBothWays(w);
  }

  /**
   * `_generate_method_comment`: the API call on the method window with the
   * signature read from the element's own text, or the method fallback when
   * the call gives up.
   */
  function MethodComment(e: JavaElement, ctx: Context, search: string -> Option<SignatureMatch>,
                         backend: (Request, nat) -> Attempt): (r: string)
    ensures r == [] || StartsWith(r, "/**")
  {
    var signature := ExtractMethodSignature(search(e.content));
    var request := MethodRequest(WindowText(ctx, e.lineNumber, MethodWindow), e.name, signature);
    var outcome := CallApi(Attempts(backend, request), 0);
    if outcome.comment.None? then MethodFallback(e.name) else outcome.comment.value
  }

  /**
   * `_generate_field_comment`: one attempt, no retry; a reply is cleaned
   * into a text starting with `//` and a failure gives the field fallback.
   */
  function FieldComment(e: JavaElement, ctx: Context, backend: (Request, nat) -> Attempt): (r: string)
    ensures StartsWith(r, "//")
  {
    match backend(FieldRequest(WindowText(ctx, e.lineNumber, FieldWindow)), 0)
    case Reply(text) => FieldTextIdempotent(text); FieldText(text)
    case Failure(_) => FieldFallback(e.name)
  }

  /**
   * `generate_comment`: dispatch on the element type. Classes, interfaces,
   * enums and methods get the empty string or a text opening with the
   * Javadoc opener (only the bare opener when the reply was a one-line block
   * `/** … */`),
   * fields a text starting with `//`, anything else the empty string.
   */
  function GenerateComment(e: JavaElement, ctx: Context, search: string -> Option<SignatureMatch>,
                           backend: (Request, nat) -> Attempt): (r: string)
    ensures e.kind.Other? ==> r == []
    ensures e.kind.Field? ==> StartsWith(r, "//")
    ensures e.kind.Class? || e.kind.Interface? || e.kind.Enum? || e.kind.Method? ==>
              r == [] || StartsWith(r, "/**")
  {
    match e.kind
    case Class => ClassComment(e, ctx, backend)
    case Interface => ClassComment(e, ctx, backend)
    case Enum => ClassComment(e, ctx, backend)
    case Method => MethodComment(e, ctx, search, backend)
    case Field => FieldComment(e, ctx, backend)
    case Other(_) => []
  }

  /**
   * When the model never answers (every attempt fails), a named class,
   * interface, enum or method gets its fallback block, which cleans to its
   * name and a tag, and a field gets the field fallback.
   */
  lemma SilentBackendFallsBack(e: JavaElement, ctx: Context, search: string -> Option<SignatureMatch>,
                               backend: (Request, nat) -> Attempt)
    requires IsName(e.name)
    requires forall q: Request, k: nat :: backend(q, k).Failure?
    ensures e.kind.Class? || e.kind.Interface? || e.kind.Enum? ==>
              GenerateComment(e, ctx, search, backend) == ClassFallback(e.name)
    ensures e.kind.Method? ==> GenerateComment(e, ctx, search, backend) == MethodFallback(e.name)
    ensures e.kind.Field? ==> GenerateComment(e, ctx, search, backend) == FieldFallback(e.name)
    ensures !e.kind.Field? && !e.kind.Other? ==> Documented(Some(GenerateComment(e, ctx, search, backend)))
  {
    FallbacksDocumented(e.name);
    var q1 := ClassRequest(WindowText(ctx, e.lineNumber, ClassWindow));
    AllFailuresGiveUp(Attempts(backend, q1));
    var q2 := MethodRequest(WindowText(ctx, e.lineNumber, MethodWindow), e.name, ExtractMethodSignature(search(e.content)));
    AllFailuresGiveUp(Attempts(backend, q2));
  }
}
