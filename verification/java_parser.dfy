/**
 * The structural recognizer of `src/java_parser.py`.
 *
 * The regular expressions are not modelled: a run of `finditer` is an input,
 * a sequence of match records holding the start offset, the matched text and
 * the named groups (None for an optional group that did not take part).
 * Everything the recognizer does with those matches is modelled: comment
 * cleaning, the documented/undocumented decision, line numbers, the accessor
 * filter, method-info extraction and the stable sort by line, together with
 * the scanning helpers (brace matching, the backward comment scan and the
 * brace-count "inside a method" predicate).
 */
module JavaParser {
  import opened Wrappers
  import opened Text
  import opened Seqs

  /**
   * The `type` tag of an element; the recognizer only produces Class and
   * Method. `Other` stands for any tag string other than "class",
   * "interface", "enum", "method" and "field".
   */
  datatype ElementType = Class | Interface | Enum | Method | Field | Other(tag: string)

  /** One `{'type': …, 'name': …}` entry of a method's parameter list. */
  datatype Parameter = Parameter(typ: string, name: string)

  /** The dictionary `_extract_method_info` returns. */
  datatype MethodInfo = MethodInfo(
    name: string,
    returnType: string,
    parameters: seq<Parameter>,
    throws: seq<string>)

  /** `JavaElement`: one recognized declaration. */
  datatype JavaElement = JavaElement(
    kind: ElementType,
    name: string,
    content: string,
    lineNumber: int,
    existingComment: Option<string>,
    methodInfo: Option<MethodInfo>)

  /** One match of the class pattern. */
  datatype ClassMatch = ClassMatch(start: nat, text: string, comment: Option<string>, name: string)

  /** One match of the method pattern. */
  datatype MethodMatch = MethodMatch(
    start: nat,
    text: string,
    comment: Option<string>,
    name: string,
    returnType: Option<string>,
    params: string,
    throws: Option<string>)

  // ---------------------------------------------------------------------------
  // _extract_comment

  // One line of `_extract_comment`: the Javadoc markers removed, trimmed, then
  // one leading `*` and at most one whitespace character after it dropped.
  function CleanLine(line: string): string {
    var t := Strip(Replace(Replace(line, "/**", ""), "*/", ""));
    if |t| > 0 && t[0] == '*' then
      (if |t| > 1 && IsSpace(t[1]) then t[2..] else t[1..])
    else t
  }

  /** Each line cleaned, empty results included. */
  function CleanedLines(lines: seq<string>): (r: seq<string>)
    ensures |r| == |lines|
  {
    seq(|lines|, i requires 0 <= i < |lines| => CleanLine(lines[i]))
  }

  /** A cleaned line that keeps some text. */
  predicate NonBlank(s: string) {
    s != []
  }

  /** The loop of `_extract_comment`: the cleaned lines that are not empty, in order. */
  function CleanLines(lines: seq<string>): (r: seq<string>)
    ensures forall i :: 0 <= i < |r| ==> r[i] != []
  {
    Filter(CleanedLines(lines), NonBlank)
  }

  /** `_extract_comment`: None for a missing or empty comment, else the cleaned text. */
  function CleanComment(comment: Option<string>): (r: Option<string>)
    ensures r.None? <==> comment.None? || comment.value == []
  {
    if comment.None? || comment.value == [] then None
    else Some(Join(CleanLines(Split(comment.value, '\n')), '\n'))
  }

  /** A captured comment makes its element documented when it cleans to a non-empty string. */
  predicate Documented(comment: Option<string>) {
    var c := CleanComment(comment);
    c.Some? && c.value != []
  }

  /** Cleaning splits over concatenation of line lists. */
  lemma CleanLinesConcat(a: seq<string>, b: seq<string>)
    ensures CleanLines(a + b) == CleanLines(a) + CleanLines(b)
  {
    var ca, cb := CleanedLines(a), CleanedLines(b);
    forall i | 0 <= i < |a + b|
      ensures CleanedLines(a + b)[i] == (ca + cb)[i]
    {
      if i < |a| {
        assert (a + b)[i] == a[i];
      } else {
        assert (a + b)[i] == b[i - |a|];
      }
    }
    assert CleanedLines(a + b) == ca + cb;
    FilterConcat(ca, cb, NonBlank);
  }

  /** No cleaned lines means every line cleaned to nothing. */
  lemma CleanLinesEmpty(lines: seq<string>)
    ensures CleanLines(lines) == [] <==> forall i :: 0 <= i < |lines| ==> CleanLine(lines[i]) == []
  {
    var cleaned := CleanedLines(lines);
    FilterNone(cleaned, NonBlank);
    forall i | 0 <= i < |lines|
      ensures cleaned[i] == CleanLine(lines[i])
    {
    }
  }

  /** Joining non-empty parts yields the empty string only for no parts. */
  lemma JoinNonEmptyParts(ls: seq<string>, sep: char)
    requires forall i :: 0 <= i < |ls| ==> ls[i] != []
    ensures Join(ls, sep) == [] <==> ls == []
  {
    if ls != [] {
      JoinLastChar(ls, sep);
    }
  }

  // A comment is documentation exactly when at least one of its lines keeps
  // some text after cleaning; so an empty Javadoc block and an all-blank block
  // do not count.
  lemma DocumentedIff(comment: Option<string>)
    ensures Documented(comment) <==>
      comment.Some? && exists i :: 0 <= i < |Split(comment.value, '\n')| && CleanLine(Split(comment.value, '\n')[i]) != []
  {
    if comment.Some? && comment.value != [] {
      var lines := Split(comment.value, '\n');
      CleanLinesEmpty(lines);
      JoinNonEmptyParts(CleanLines(lines), '\n');
      if CleanLines(lines) != [] {
        var i :| 0 <= i < |lines| && CleanLine(lines[i]) != [];
        assert 0 <= i < |Split(comment.value, '\n')| && CleanLine(Split(comment.value, '\n')[i]) != [];
      }
    } else if comment.Some? {
      assert Split(comment.value, '\n') == [""];
      assert CleanLine("") == [];
    }
  }

  // Cleaning the one-line empty Javadoc block "/** */" leaves nothing.
  lemma CleanEmptyDocLine()
    ensures CleanLine("/** */") == ""
  {
    assert Replace("/** */", "/**", "") == " */" by {
      assert Replace("*/", "/**", "") == "*/";
      assert Replace(" */", "/**", "") == [' '] + Replace("*/", "/**", "");
      assert "/** */"[3..] == " */";
    }
    assert Replace(" */", "*/", "") == " " by {
      assert Replace("*/", "*/", "") == "";
      assert " */"[1..] == "*/";
    }
    assert Strip(" ") == "";
  }

  // The one line of "/** */" cleans to nothing and is dropped.
  lemma EmptyDocLines()
    ensures CleanLines(Split("/** */", '\n')) == []
  {
    CleanEmptyDocLine();
    SplitNoSep("/** */", '\n');
    assert CleanedLines(["/** */"]) == [""];
    assert Filter([""], NonBlank) == [];
  }

  // The empty Javadoc block "/** */" is not documentation.
  lemma EmptyDocBlockIsUndocumented()
    ensures CleanComment(Some("/** */")) == Some("")
    ensures !Documented(Some("/** */"))
  {
    EmptyDocLines();
  }

  // ---------------------------------------------------------------------------
  // _extract_method_info

  /** A Java-like accessor name: `name.startswith(('get', 'set', 'is'))`. */
  predicate IsAccessorName(name: string) {
    StartsWith(name, "get") || StartsWith(name, "set") || StartsWith(name, "is")
  }

  /**
   * One comma-separated parameter: its whitespace-separated tokens, the last
   * one as the name and the others joined by single spaces as the type;
   * fewer than two tokens give no parameter. (The source also strips the
   * type and the name; tokens hold no whitespace, so that changes nothing.)
   */
  function ParameterOf(piece: string): (r: Option<Parameter>)
    ensures r.Some? <==> |Words(piece)| >= 2
    ensures r.Some? ==> Words(r.value.typ) + [r.value.name] == Words(piece)
    ensures r.Some? ==> r.value.typ == Join(Words(r.value.typ), ' ')
    ensures r.Some? ==> r.value.name != [] && NoSpace(r.value.name)
  {
    WordsStrip(piece);
    var parts := Words(Strip(piece));
    if |parts| >= 2 then
      var init := parts[..|parts| - 1];
      WordsJoin(init);
      assert init + [parts[|parts| - 1]] == parts;
      Some(Parameter(Join(init, ' '), parts[|parts| - 1]))
    else None
  }

  /** The parameters of the pieces that have at least two tokens, in order. */
  function ParametersOf(pieces: seq<string>): (r: seq<Parameter>)
    ensures |r| <= |pieces|
  {
    FilterMap(pieces, ParameterOf)
  }

  /** A parameter list text split on `','`, each piece made into a parameter. */
  function Parameters(s: string): seq<Parameter> {
    ParametersOf(Split(s, ','))
  }

  /** `[x.strip() for x in s.split(',')]` */
  function CommaList(s: string): (r: seq<string>)
    ensures |r| == Count(s, ',') + 1
  {
    var pieces := Split(s, ',');
    SplitCount(s, ',');
    seq(|pieces|, i requires 0 <= i < |pieces| => Strip(pieces[i]))
  }

  /**
   * The splitting `_extract_method_info` intends: an absent or blank return
   * type becomes `void`, the parameter text is split into parameters and the
   * `throws` text into trimmed exception names.
   */
  function SplitMethodInfo(m: MethodMatch): (r: MethodInfo)
    ensures r.name == m.name
    ensures AllSpace(m.returnType.GetOr("")) ==> r.returnType == "void"
    ensures !AllSpace(m.returnType.GetOr("")) ==> r.returnType != [] && Trimmed(r.returnType)
    ensures AllSpace(m.params) ==> r.parameters == []
    ensures |r.parameters| <= Count(m.params, ',') + 1
    ensures r.throws == [] <==> AllSpace(m.throws.GetOr(""))
  {
    StripEmptyIffAllSpace(m.returnType.GetOr(""));
    StripEnds(m.returnType.GetOr(""));
    StripEmptyIffAllSpace(m.params);
    StripEmptyIffAllSpace(m.throws.GetOr(""));
    StripCount(m.params, ',');
    SplitCount(Strip(m.params), ',');
    var ret := Strip(m.returnType.GetOr(""));
    var params := Strip(m.params);
    var throws := Strip(m.throws.GetOr(""));
    MethodInfo(
      m.name,
      if ret == [] then "void" else ret,
      if params == [] then [] else Parameters(params),
      if throws == [] then [] else CommaList(throws))
  }

  /** A parameter written as its type, one space and its name. */
  function ParameterText(p: Parameter): string {
    p.typ + [' '] + p.name
  }

  /** A parameter list written back as Java source: the parameters joined by `','`. */
  function ParametersText(ps: seq<Parameter>): string {
    Join(seq(|ps|, i requires 0 <= i < |ps| => ParameterText(ps[i])), ',')
  }

  /**
   * A parameter as Java source declares it: a non-empty name and a type whose
   * tokens are separated by single spaces, neither holding a comma.
   */
  predicate WellFormedParameter(p: Parameter) {
    && p.name != [] && NoSpace(p.name) && ',' !in p.name
    && Words(p.typ) != [] && p.typ == Join(Words(p.typ), ' ') && ',' !in p.typ
  }

  /** Reading one written parameter gives it back. */
  lemma ParameterOfText(p: Parameter)
    requires WellFormedParameter(p)
    ensures ParameterOf(ParameterText(p)) == Some(p)
  {
    var ws := Words(p.typ);
    var t := ParameterText(p);
    JoinFirstChar(ws, ' ');
    assert t[0] == p.typ[0];
    assert t[|t| - 1] == p.name[|p.name| - 1];
    StripTrimmed(t);
    WordsConcatSpace(p.typ, p.name);
    WordsOfWord(p.name);
    var parts := ws + [p.name];
    assert parts[..|parts| - 1] == ws;
  }

  /** Parsing pieces parses each one: the pieces are read independently. */
  lemma ParametersOfAll(pieces: seq<string>, ps: seq<Parameter>)
    requires |pieces| == |ps|
    requires forall i :: 0 <= i < |ps| ==> ParameterOf(pieces[i]) == Some(ps[i])
    ensures ParametersOf(pieces) == ps
  {
    FilterMapAll(pieces, ps, ParameterOf);
  }

  /** Writing well-formed parameters as Java source and reading them back is the identity. */
  lemma ParametersRoundTrip(ps: seq<Parameter>)
    requires forall i :: 0 <= i < |ps| ==> WellFormedParameter(ps[i])
    ensures Parameters(ParametersText(ps)) == ps
  {
    if ps == [] {
      assert ParametersText(ps) == "";
      assert Split("", ',') == [""];
      WordsAllSpace("");
      assert ParameterOf("") == None;
      assert FilterMap([""], ParameterOf) == [];
      return;
    }
    var pieces := seq(|ps|, i requires 0 <= i < |ps| => ParameterText(ps[i]));
    forall i | 0 <= i < |ps|
      ensures ',' !in pieces[i] && ParameterOf(pieces[i]) == Some(ps[i])
    {
      ParameterOfText(ps[i]);
    }
    SplitJoin(pieces, ',');
    ParametersOfAll(pieces, ps);
  }

  /** Trimmed items without commas, joined by `','`, come back from `CommaList`. */
  lemma CommaListRoundTrip(xs: seq<string>)
    requires |xs| >= 1
    requires forall i :: 0 <= i < |xs| ==> Trimmed(xs[i]) && ',' !in xs[i]
    ensures CommaList(Join(xs, ',')) == xs
  {
    SplitJoin(xs, ',');
    forall i | 0 <= i < |xs|
      ensures Strip(xs[i]) == xs[i]
    {
      StripTrimmed(xs[i]);
    }
  }

  const MethodGroupNames: set<string> :=
    {"comment", "annotations", "modifiers", "return_type", "name", "params", "throws"}

  /**
   * `_extract_method_info` as written. Its first `match.group('return_type', '')`
   * asks for two groups at once and `''` names none of them, so Python raises
   * IndexError, and the `except` clause returns None.
   */
  function ExtractMethodInfo(m: MethodMatch): (r: Option<MethodInfo>)
    ensures r == None
  {
    assert "" !in MethodGroupNames;
    if "" in MethodGroupNames then Some(SplitMethodInfo(m)) else None
  }

  /** The intended `_extract_method_info`: every match yields its split info. */
  function ExtractMethodInfoRepaired(m: MethodMatch): (r: Option<MethodInfo>)
    ensures r.Some? && r.value.name == m.name
    ensures AllSpace(m.returnType.GetOr("")) ==> r.value.returnType == "void"
    ensures AllSpace(m.params) ==> r.value.parameters == []
    ensures r.value.throws == [] <==> AllSpace(m.throws.GetOr(""))
  {
    Some(SplitMethodInfo(m))
  }

  /** The `throws` group of a declaration of the exceptions `xs`: absent when there are none. */
  function ThrowsText(xs: seq<string>): Option<string> {
    if xs == [] then None else Some(Join(xs, ','))
  }

  /** An exception name as Java source writes it: non-empty, trimmed, comma-free. */
  predicate WellFormedName(x: string) {
    x != [] && Trimmed(x) && ',' !in x
  }

  /** Written parameters have no whitespace at either end. */
  lemma ParametersTextTrimmed(ps: seq<Parameter>)
    requires forall i :: 0 <= i < |ps| ==> WellFormedParameter(ps[i])
    ensures Trimmed(ParametersText(ps))
    ensures ParametersText(ps) == [] <==> ps == []
  {
    if ps != [] {
      var texts := seq(|ps|, i requires 0 <= i < |ps| => ParameterText(ps[i]));
      var first := ps[0];
      var last := ps[|ps| - 1];
      JoinFirstChar(Words(first.typ), ' ');
      assert Words(first.typ)[0] != [];
      assert texts[0][0] == first.typ[0];
      assert texts[|ps| - 1][|texts[|ps| - 1]| - 1] == last.name[|last.name| - 1];
      JoinTrimmed(texts, ',');
    }
  }

  /**
   * Round trip of the intended extraction: a method declared with well-formed
   * parameters and trimmed exception names reads back as exactly those, with
   * its name, and with its trimmed return type or `void` when that is absent
   * or blank.
   */
  lemma MethodInfoRoundTrip(m: MethodMatch, ps: seq<Parameter>, xs: seq<string>)
    requires forall i :: 0 <= i < |ps| ==> WellFormedParameter(ps[i])
    requires forall i :: 0 <= i < |xs| ==> WellFormedName(xs[i])
    requires m.params == ParametersText(ps) && m.throws == ThrowsText(xs)
    ensures ExtractMethodInfoRepaired(m) == Some(MethodInfo(
      m.name,
      if AllSpace(m.returnType.GetOr("")) then "void" else Strip(m.returnType.GetOr("")),
      ps,
      xs))
  {
    StripEmptyIffAllSpace(m.returnType.GetOr(""));
    ParametersTextTrimmed(ps);
    StripTrimmed(m.params);
    ParametersRoundTrip(ps);
    if xs != [] {
      JoinTrimmed(xs, ',');
      StripTrimmed(Join(xs, ','));
      CommaListRoundTrip(xs);
    }
  }

  // ---------------------------------------------------------------------------
  // parse

  /** `content[:start].count('\n') + 1`: the 1-based line a match starts on. */
  function LineNumber(content: string, start: nat): (n: int)
    ensures 1 <= n <= Count(content, '\n') + 1
  {
    var before := Take(content, start);
    CountPrefix(content, |before|, '\n');
    Count(before, '\n') + 1
  }

  /** A later start never gets an earlier line number. */
  lemma LineNumberMonotonic(content: string, a: nat, b: nat)
    requires a <= b
    ensures LineNumber(content, a) <= LineNumber(content, b)
  {
    var pb := Take(content, b);
    var pa := Take(content, a);
    assert pa == pb[..|pa|];
    CountPrefix(pb, |pa|, '\n');
  }

  /** The element `parse` builds for an undocumented class match. */
  function ClassElement(content: string, m: ClassMatch): JavaElement {
    JavaElement(Class, m.name, m.text, LineNumber(content, m.start), CleanComment(m.comment), None)
  }

  /** The class loop of `parse`: undocumented class matches become elements, in match order. */
  function ClassElements(content: string, cs: seq<ClassMatch>): (r: seq<JavaElement>)
    ensures |r| <= |cs|
    ensures forall m :: m in cs && !Documented(m.comment) ==> ClassElement(content, m) in r
    ensures forall e :: e in r ==> exists m :: m in cs && !Documented(m.comment) && e == ClassElement(content, m)
  {
    if cs == [] then []
    else
      var m := cs[|cs| - 1];
      var init := ClassElements(content, cs[..|cs| - 1]);
      assert forall m' :: m' in cs ==> m' in cs[..|cs| - 1] || m' == m;
      init + (if Documented(m.comment) then [] else [ClassElement(content, m)])
  }

  /** The element `parse` builds from a method match, or None when the match is skipped. */
  function MethodElement(content: string, m: MethodMatch, extract: MethodMatch -> Option<MethodInfo>): Option<JavaElement> {
    match extract(m)
    case None => None
    case Some(info) =>
      if Documented(m.comment) || IsAccessorName(info.name) then None
      else Some(JavaElement(Method, info.name, m.text, LineNumber(content, m.start), CleanComment(m.comment), Some(info)))
  }

  /** The method loop of `parse`, with method-info extraction as a parameter. */
  function MethodElements(content: string, ms: seq<MethodMatch>, extract: MethodMatch -> Option<MethodInfo>): (r: seq<JavaElement>)
    ensures |r| <= |ms|
    ensures forall m :: m in ms && MethodElement(content, m, extract).Some? ==> MethodElement(content, m, extract).value in r
    ensures forall e :: e in r ==> exists m :: m in ms && MethodElement(content, m, extract) == Some(e)
  {
    if ms == [] then []
    else
      var m := ms[|ms| - 1];
      var init := MethodElements(content, ms[..|ms| - 1], extract);
      assert forall m' :: m' in ms ==> m' in ms[..|ms| - 1] || m' == m;
      var e := MethodElement(content, m, extract);
      init + (if e.Some? then [e.value] else [])
  }

  /**
   * Every element `parse` can produce: undocumented, a class or a
   * non-accessor method, with a line number between 1 and one more than the
   * file's newline count.
   */
  predicate Recognized(content: string, e: JavaElement) {
    && 1 <= e.lineNumber <= Count(content, '\n') + 1
    && !Documented(e.existingComment)
    && (e.existingComment.None? || e.existingComment == Some(""))
    && (e.kind == Class || (e.kind == Method && !IsAccessorName(e.name)))
  }

  lemma CandidatesRecognized(content: string, cs: seq<ClassMatch>, ms: seq<MethodMatch>, extract: MethodMatch -> Option<MethodInfo>)
    ensures forall e :: e in ClassElements(content, cs) + MethodElements(content, ms, extract) ==> Recognized(content, e)
  {
    forall e | e in ClassElements(content, cs) + MethodElements(content, ms, extract)
      ensures Recognized(content, e)
    {
      if e in ClassElements(content, cs) {
        var m :| m in cs && !Documented(m.comment) && e == ClassElement(content, m);
        UndocumentedCleansEmpty(m.comment);
      } else {
        var m :| m in ms && MethodElement(content, m, extract) == Some(e);
        UndocumentedCleansEmpty(m.comment);
      }
    }
  }

  /** An undocumented comment cleans to nothing at all or to the empty string. */
  lemma UndocumentedCleansEmpty(comment: Option<string>)
    requires !Documented(comment)
    ensures CleanComment(comment).None? || CleanComment(comment) == Some("")
    ensures !Documented(CleanComment(comment))
  {
  }

  /** `parse` with method-info extraction as a parameter. */
  function ParseWith(content: string, cs: seq<ClassMatch>, ms: seq<MethodMatch>, extract: MethodMatch -> Option<MethodInfo>): (r: seq<JavaElement>)
    ensures SortedByLine(r)
    ensures multiset(r) == multiset(ClassElements(content, cs) + MethodElements(content, ms, extract))
    ensures forall k :: OnLine(r, k) == OnLine(ClassElements(content, cs), k) + OnLine(MethodElements(content, ms, extract), k)
    ensures forall e :: e in r ==> Recognized(content, e)
  {
    var candidates := ClassElements(content, cs) + MethodElements(content, ms, extract);
    var r := SortByLine(candidates);
    SortByLineSpec(candidates);
    CandidatesRecognized(content, cs, ms, extract);
    forall k ensures OnLine(r, k) == OnLine(ClassElements(content, cs), k) + OnLine(MethodElements(content, ms, extract), k) {
      SortStable(candidates, k);
      OnLineConcat(ClassElements(content, cs), MethodElements(content, ms, extract), k);
    }
    forall e | e in r ensures Recognized(content, e) {
      assert e in multiset(r);
    }
    r
  }

  /**
   * `JavaParser.parse` as written: since method-info extraction always fails,
   * only undocumented classes come back.
   */
  function Parse(content: string, cs: seq<ClassMatch>, ms: seq<MethodMatch>): (r: seq<JavaElement>)
    ensures SortedByLine(r)
    ensures forall e :: e in r ==> Recognized(content, e) && e.kind == Class
    ensures multiset(r) == multiset(ClassElements(content, cs))
  {
    ParseAsWritten(content, cs, ms);
    ParseWith(content, cs, ms, ExtractMethodInfo)
  }

  /** As written, `parse` is the sorted list of undocumented class elements. */
  lemma ParseAsWritten(content: string, cs: seq<ClassMatch>, ms: seq<MethodMatch>)
    ensures var r := ParseWith(content, cs, ms, ExtractMethodInfo);
      && multiset(r) == multiset(ClassElements(content, cs))
      && forall e :: e in r ==> e.kind == Class
  {
    var classes := ClassElements(content, cs);
    MethodElementsAsWrittenEmpty(content, ms);
    assert classes + MethodElements(content, ms, ExtractMethodInfo) == classes;
    var r := ParseWith(content, cs, ms, ExtractMethodInfo);
    assert multiset(r) == multiset(classes);
    forall e | e in r ensures e.kind == Class {
      assert e in multiset(r);
      assert e in classes;
    }
  }

  /** `parse` with the intended method-info extraction. */
  function ParseRepaired(content: string, cs: seq<ClassMatch>, ms: seq<MethodMatch>): (r: seq<JavaElement>)
    ensures SortedByLine(r)
    ensures forall e :: e in r ==> Recognized(content, e)
    ensures forall k :: OnLine(r, k) == OnLine(ClassElements(content, cs), k) + OnLine(MethodElements(content, ms, ExtractMethodInfoRepaired), k)
  {
    ParseWith(content, cs, ms, ExtractMethodInfoRepaired)
  }

  /** Every class match starts inside the file, as any match of a non-empty pattern does. */
  predicate ClassesInside(content: string, cs: seq<ClassMatch>) {
    forall i :: 0 <= i < |cs| ==> cs[i].start < |content|
  }

  /** Every method match starts inside the file. */
  predicate MethodsInside(content: string, ms: seq<MethodMatch>) {
    forall i :: 0 <= i < |ms| ==> ms[i].start < |content|
  }

  /** An offset inside the file lies on one of the lines `splitlines()` gives. */
  lemma LineNumberInFile(content: string, start: nat)
    requires start < |content|
    ensures 1 <= LineNumber(content, start) <= |SplitLines(content)|
  {
    var n := |content|;
    var body := if content[n - 1] == '\n' then content[..n - 1] else content;
    assert SplitLines(content) == Split(body, '\n');
    SplitCount(body, '\n');
    assert Take(content, start) == body[..start];
    CountPrefix(body, start, '\n');
  }

  /** As written, everything `parse` returns for matches inside the file lies on one of its lines. */
  lemma ParseInFile(content: string, cs: seq<ClassMatch>, ms: seq<MethodMatch>)
    requires ClassesInside(content, cs)
    ensures forall e :: e in Parse(content, cs, ms) ==> 1 <= e.lineNumber <= |SplitLines(content)|
  {
    var classes := ClassElements(content, cs);
    var r := Parse(content, cs, ms);
    forall e | e in r
      ensures 1 <= e.lineNumber <= |SplitLines(content)|
    {
      assert e in multiset(r);
      assert e in multiset(classes);
      assert e in classes;
      var m :| m in cs && !Documented(m.comment) && e == ClassElement(content, m);
      var i :| 0 <= i < |cs| && cs[i] == m;
      LineNumberInFile(content, m.start);
    }
  }

  /** Repaired, everything `parse` returns for matches inside the file lies on one of its lines. */
  lemma ParseRepairedInFile(content: string, cs: seq<ClassMatch>, ms: seq<MethodMatch>)
    requires ClassesInside(content, cs) && MethodsInside(content, ms)
    ensures forall e :: e in ParseRepaired(content, cs, ms) ==> 1 <= e.lineNumber <= |SplitLines(content)|
  {
    var classes := ClassElements(content, cs);
    var methods := MethodElements(content, ms, ExtractMethodInfoRepaired);
    var r := ParseWith(content, cs, ms, ExtractMethodInfoRepaired);
    forall e | e in r
      ensures 1 <= e.lineNumber <= |SplitLines(content)|
    {
      assert e in multiset(r);
      assert e in classes + methods;
      if e in classes {
        var m :| m in cs && !Documented(m.comment) && e == ClassElement(content, m);
        var i :| 0 <= i < |cs| && cs[i] == m;
        LineNumberInFile(content, m.start);
      } else {
        var m :| m in ms && MethodElement(content, m, ExtractMethodInfoRepaired) == Some(e);
        var i :| 0 <= i < |ms| && ms[i] == m;
        LineNumberInFile(content, m.start);
      }
    }
  }

  lemma {:induction false} MethodElementsAsWrittenEmpty(content: string, ms: seq<MethodMatch>)
    ensures MethodElements(content, ms, ExtractMethodInfo) == []
  {
    if ms != [] {
      MethodElementsAsWrittenEmpty(content, ms[..|ms| - 1]);
    }
  }

  /** No class element comes out exactly when every class match is documented. */
  lemma {:induction false} ClassElementsEmptyIff(content: string, cs: seq<ClassMatch>)
    ensures ClassElements(content, cs) == [] <==> forall i :: 0 <= i < |cs| ==> Documented(cs[i].comment)
  {
    if cs != [] {
      ClassElementsEmptyIff(content, cs[..|cs| - 1]);
      assert forall i :: 0 <= i < |cs| - 1 ==> cs[..|cs| - 1][i] == cs[i];
    }
  }

  /** As written, `parse` returns nothing exactly when every class match carries documentation. */
  lemma ParseEmptyIffAllDocumented(content: string, cs: seq<ClassMatch>, ms: seq<MethodMatch>)
    ensures Parse(content, cs, ms) == [] <==> forall i :: 0 <= i < |cs| ==> Documented(cs[i].comment)
  {
    var r := Parse(content, cs, ms);
    var classes := ClassElements(content, cs);
    assert |r| == |classes| by {
      assert |multiset(r)| == |multiset(classes)|;
    }
    ClassElementsEmptyIff(content, cs);
  }

  /** Match starts in increasing order, as `finditer` produces them. */
  predicate StartsIncreasing(cs: seq<ClassMatch>) {
    forall i, j :: 0 <= i < j < |cs| ==> cs[i].start < cs[j].start
  }

  /** For matches in `finditer` order, `parse` keeps the match order. */
  lemma {:induction false} ParseKeepsMatchOrder(content: string, cs: seq<ClassMatch>, ms: seq<MethodMatch>)
    requires StartsIncreasing(cs)
    ensures Parse(content, cs, ms) == ClassElements(content, cs)
  {
    MethodElementsAsWrittenEmpty(content, ms);
    assert ClassElements(content, cs) + MethodElements(content, ms, ExtractMethodInfo) == ClassElements(content, cs);
    ClassElementsSorted(content, cs);
    SortSorted(ClassElements(content, cs));
  }

  lemma {:induction false} ClassElementsSorted(content: string, cs: seq<ClassMatch>)
    requires StartsIncreasing(cs)
    ensures SortedByLine(ClassElements(content, cs))
    ensures forall e :: e in ClassElements(content, cs) ==>
      cs != [] && e.lineNumber <= LineNumber(content, cs[|cs| - 1].start)
  {
    if cs != [] {
      var m := cs[|cs| - 1];
      var init := cs[..|cs| - 1];
      assert StartsIncreasing(init) by {
        forall i, j | 0 <= i < j < |init|
          ensures init[i].start < init[j].start
        {
          assert init[i] == cs[i] && init[j] == cs[j];
        }
      }
      ClassElementsSorted(content, init);
      var before := ClassElements(content, init);
      forall e | e in before
        ensures e.lineNumber <= LineNumber(content, m.start)
      {
        assert init[|init| - 1] == cs[|cs| - 2];
        LineNumberMonotonic(content, init[|init| - 1].start, m.start);
      }
      if !Documented(m.comment) {
        SortedSnoc(before, ClassElement(content, m));
        assert ClassElements(content, cs) == before + [ClassElement(content, m)];
      } else {
        assert ClassElements(content, cs) == before;
      }
    }
  }

  // ---------------------------------------------------------------------------
  // elements.sort(key=lambda x: x.line_number)

  predicate SortedByLine(es: seq<JavaElement>) {
    forall i, j :: 0 <= i < j < |es| ==> es[i].lineNumber <= es[j].lineNumber
  }

  /** The elements of `es` on line `k`, in order. */
  function OnLine(es: seq<JavaElement>, k: int): seq<JavaElement> {
    if es == [] then []
    else OnLine(es[..|es| - 1], k) + (if es[|es| - 1].lineNumber == k then [es[|es| - 1]] else [])
  }

  lemma {:induction false} OnLineConcat(a: seq<JavaElement>, b: seq<JavaElement>, k: int)
    ensures OnLine(a + b, k) == OnLine(a, k) + OnLine(b, k)
  {
    if b == [] {
      assert a + b == a;
    } else {
      assert (a + b)[..|a + b| - 1] == a + b[..|b| - 1];
      OnLineConcat(a, b[..|b| - 1], k);
    }
  }

  /** Places `e` after every element of `sorted` whose line is not later than its own. */
  function InsertByLine(sorted: seq<JavaElement>, e: JavaElement): (r: seq<JavaElement>)
    ensures |r| == |sorted| + 1
  {
    if sorted == [] || sorted[|sorted| - 1].lineNumber <= e.lineNumber then sorted + [e]
    else InsertByLine(sorted[..|sorted| - 1], e) + [sorted[|sorted| - 1]]
  }

  /** Appending an element no earlier than every element keeps a list sorted. */
  lemma SortedSnoc(s: seq<JavaElement>, x: JavaElement)
    requires SortedByLine(s)
    requires forall y :: y in s ==> y.lineNumber <= x.lineNumber
    ensures SortedByLine(s + [x])
  {
    var t := s + [x];
    forall i, j | 0 <= i < j < |t|
      ensures t[i].lineNumber <= t[j].lineNumber
    {
      assert t[i] == s[i];
      if j < |s| {
        assert t[j] == s[j];
      } else {
        assert s[i] in s;
      }
    }
  }

  /** An element no earlier than the last one is appended. */
  lemma InsertAfterAll(sorted: seq<JavaElement>, e: JavaElement)
    requires sorted == [] || sorted[|sorted| - 1].lineNumber <= e.lineNumber
    ensures InsertByLine(sorted, e) == sorted + [e]
  {
  }

  /** Appending `e` after a sorted list ending no later than `e`. */
  lemma InsertAtEnd(sorted: seq<JavaElement>, e: JavaElement)
    requires SortedByLine(sorted)
    requires sorted == [] || sorted[|sorted| - 1].lineNumber <= e.lineNumber
    ensures SortedByLine(sorted + [e])
  {
    forall y | y in sorted
      ensures y.lineNumber <= e.lineNumber
    {
      var i :| 0 <= i < |sorted| && sorted[i] == y;
      assert sorted[i].lineNumber <= sorted[|sorted| - 1].lineNumber;
    }
    SortedSnoc(sorted, e);
  }

  /** Every element of a sorted list lies no later than its last one. */
  lemma SortedBelowLast(init: seq<JavaElement>, last: JavaElement)
    requires SortedByLine(init + [last])
    ensures forall y :: y in init ==> y.lineNumber <= last.lineNumber
  {
    var sorted := init + [last];
    forall y | y in init
      ensures y.lineNumber <= last.lineNumber
    {
      var i :| 0 <= i < |init| && init[i] == y;
      assert sorted[i] == y && sorted[|init|] == last;
    }
  }

  /**
   * Inserting `e` before a last element later than it, given what the
   * insertion into the elements before it gives.
   */
  lemma InsertBeforeLast(init: seq<JavaElement>, last: JavaElement, e: JavaElement, rest: seq<JavaElement>)
    requires SortedByLine(init + [last]) && last.lineNumber > e.lineNumber
    requires SortedByLine(rest)
    requires multiset(rest) == multiset(init) + multiset{e}
    requires forall x :: x in rest ==> x in init || x == e
    ensures SortedByLine(rest + [last])
    ensures multiset(rest + [last]) == multiset(init + [last]) + multiset{e}
    ensures forall x :: x in rest + [last] ==> x in init + [last] || x == e
  {
    SortedBelowLast(init, last);
    SortedSnoc(rest, last);
  }

  /** Inserting into a sorted list keeps it sorted and adds exactly `e`. */
  lemma {:induction false} InsertByLineSorted(sorted: seq<JavaElement>, e: JavaElement)
    requires SortedByLine(sorted)
    ensures SortedByLine(InsertByLine(sorted, e))
    ensures multiset(InsertByLine(sorted, e)) == multiset(sorted) + multiset{e}
    ensures forall x :: x in InsertByLine(sorted, e) ==> x in sorted || x == e
  {
    if sorted == [] || sorted[|sorted| - 1].lineNumber <= e.lineNumber {
      InsertAtEnd(sorted, e);
    } else {
      var init := sorted[..|sorted| - 1];
      var last := sorted[|sorted| - 1];
      SortedInit(sorted);
      InsertByLineSorted(init, e);
      assert sorted == init + [last];
      InsertBeforeLast(init, last, e, InsertByLine(init, e));
    }
  }

  /** Python's `list.sort(key=…)`: a stable sort by line number (insertion sort). */
  function SortByLine(es: seq<JavaElement>): seq<JavaElement> {
    if es == [] then []
    else InsertByLine(SortByLine(es[..|es| - 1]), es[|es| - 1])
  }

  /** The sort puts the elements in line order and keeps exactly the input's elements. */
  lemma {:induction false} SortByLineSpec(es: seq<JavaElement>)
    ensures SortedByLine(SortByLine(es))
    ensures multiset(SortByLine(es)) == multiset(es)
  {
    if es != [] {
      var init := es[..|es| - 1];
      var last := es[|es| - 1];
      var sorted := SortByLine(init);
      SortByLineSpec(init);
      InsertByLineSorted(sorted, last);
      assert SortByLine(es) == InsertByLine(sorted, last);
      assert es == init + [last];
    }
  }

  lemma {:induction false} InsertStable(sorted: seq<JavaElement>, e: JavaElement, k: int)
    ensures OnLine(InsertByLine(sorted, e), k) == OnLine(sorted, k) + (if e.lineNumber == k then [e] else [])
    decreases |sorted|
  {
    if sorted == [] || sorted[|sorted| - 1].lineNumber <= e.lineNumber {
      assert (sorted + [e])[..|sorted|] == sorted;
    } else {
      var init := sorted[..|sorted| - 1];
      var last := sorted[|sorted| - 1];
      InsertStable(init, e, k);
      var rest := InsertByLine(init, e);
      var r := rest + [last];
      assert InsertByLine(sorted, e) == r;
      assert r[..|r| - 1] == rest;
    }
  }

  /** The sort is stable: on every line the elements keep their input order. */
  lemma {:induction false} SortStable(es: seq<JavaElement>, k: int)
    ensures OnLine(SortByLine(es), k) == OnLine(es, k)
  {
    if es != [] {
      SortStable(es[..|es| - 1], k);
      InsertStable(SortByLine(es[..|es| - 1]), es[|es| - 1], k);
    }
  }

  /** Dropping the last element keeps a list sorted. */
  lemma SortedInit(es: seq<JavaElement>)
    requires SortedByLine(es) && es != []
    ensures SortedByLine(es[..|es| - 1])
  {
    var init := es[..|es| - 1];
    forall i, j | 0 <= i < j < |init|
      ensures init[i].lineNumber <= init[j].lineNumber
    {
      assert init[i] == es[i] && init[j] == es[j];
    }
  }

  /** Sorting a list that is already in line order changes nothing. */
  lemma {:induction false} SortSorted(es: seq<JavaElement>)
    requires SortedByLine(es)
    ensures SortByLine(es) == es
  {
    if es != [] {
      var init, last := SortedLast(es);
      SortSorted(init);
      InsertAfterAll(init, last);
    }
  }

  /** A sorted list is its sorted front followed by a last element no earlier than the front's last. */
  lemma SortedLast(es: seq<JavaElement>) returns (init: seq<JavaElement>, last: JavaElement)
    requires SortedByLine(es) && es != []
    ensures init == es[..|es| - 1] && last == es[|es| - 1] && es == init + [last]
    ensures SortedByLine(init)
    ensures init == [] || init[|init| - 1].lineNumber <= last.lineNumber
  {
    init := es[..|es| - 1];
    last := es[|es| - 1];
    SortedInit(es);
    if init != [] {
      assert init[|init| - 1] == es[|es| - 2];
    }
  }

  // ---------------------------------------------------------------------------
  // _extract_full_class_content

  /** Brace depth of a text: opened minus closed braces. */
  function Depth(s: string): int {
    Count(s, '{') - Count(s, '}')
  }

  /**
   * `_extract_full_class_content`: from `startPos`, the text up to and
   * including the first `}` at which the running brace count is back to zero,
   * or `""` when it never is.
   */
  method ExtractFullClassContent(content: string, startPos: nat) returns (r: string)
    ensures startPos >= |content| ==> r == []
    ensures r != [] ==> startPos + |r| <= |content| && r == content[startPos..startPos + |r|]
    ensures r != [] ==> r[|r| - 1] == '}' && Depth(r) == 0
    ensures r != [] ==> forall j :: 0 <= j < |r| - 1 && r[j] == '}' ==> Depth(r[..j + 1]) != 0
    ensures r == [] ==> forall j :: startPos <= j < |content| && content[j] == '}' ==> Depth(content[startPos..j + 1]) != 0
  {
    if startPos >= |content| {
      return "";
    }
    var braceCount := 0;
    var endPos := startPos;
    var i := startPos;
    while i < |content|
      invariant startPos <= i <= |content|
      invariant endPos == startPos
      invariant braceCount == Depth(content[startPos..i])
      invariant forall j :: startPos <= j < i && content[j] == '}' ==> Depth(content[startPos..j + 1]) != 0
      decreases |content| - i
    {
      assert content[startPos..i + 1][..i - startPos] == content[startPos..i];
      if content[i] == '{' {
        braceCount := braceCount + 1;
      } else if content[i] == '}' {
        braceCount := braceCount - 1;
        if braceCount == 0 {
          endPos := i + 1;
          break;
        }
      }
      i := i + 1;
    }
    r := content[startPos..endPos];
    if r != [] {
      assert r[..|r| - 1] == content[startPos..i];
      forall j | 0 <= j < |r| - 1 && r[j] == '}'
        ensures Depth(r[..j + 1]) != 0
      {
        PrefixOfSlice(content, startPos, endPos, j + 1);
        assert content[startPos + j] == '}';
      }
    }
  }

  /** A prefix of a slice is a shorter slice. */
  lemma PrefixOfSlice(s: string, a: nat, b: nat, n: nat)
    requires a <= b <= |s| && n <= b - a
    ensures s[a..b][..n] == s[a..a + n]
  {
  }

  // ---------------------------------------------------------------------------
  // _extract_existing_comment

  // A line the backward scan collects: a Javadoc opener, a line starting with
  // `*`, a Javadoc closer or a `//` line.
  predicate IsCommentLine(line: string) {
    var t := Strip(line);
    StartsWith(t, "/**") || StartsWith(t, "*") || EndsWith(t, "*/") || StartsWith(t, "//")
  }

  /** A line the backward scan steps over. */
  predicate IsBlankLine(line: string) {
    Strip(line) == []
  }

  /** The backward scan: comment lines collected, blank lines skipped, stop at anything else. */
  function CollectComment(lines: seq<string>): seq<string> {
    ScanBack(lines, IsCommentLine, IsBlankLine)
  }

  /** Where the run of comment and blank lines that ends `lines` begins. */
  function DocBlockStart(lines: seq<string>): (k: nat)
    ensures k <= |lines|
  {
    RunStart(lines, IsCommentLine, IsBlankLine)
  }

  /** The comment lines of `lines`, in order. */
  function CommentLines(lines: seq<string>): seq<string> {
    Filter(lines, IsCommentLine)
  }

  /** The block is the longest run of comment or blank lines at the end of `lines`. */
  lemma DocBlockStartSpec(lines: seq<string>)
    ensures var k := DocBlockStart(lines);
      && (forall i :: k <= i < |lines| ==> IsCommentLine(lines[i]) || IsBlankLine(lines[i]))
      && (k > 0 ==> !IsCommentLine(lines[k - 1]) && !IsBlankLine(lines[k - 1]))
  {
    RunStartSpec(lines, IsCommentLine, IsBlankLine);
  }

  /** The scan collects exactly the comment lines of the trailing comment-or-blank block. */
  lemma CollectCommentIsBlock(lines: seq<string>)
    ensures CollectComment(lines) == CommentLines(lines[DocBlockStart(lines)..])
  {
    ScanBackIsRun(lines, IsCommentLine, IsBlankLine);
  }

  /** Collected lines come from split text, so none holds a line break. */
  lemma CommentLinesNoBreak(lines: seq<string>)
    requires forall i :: 0 <= i < |lines| ==> '\n' !in lines[i]
    ensures forall i :: 0 <= i < |CommentLines(lines)| ==> '\n' !in CommentLines(lines)[i]
  {
    var block := CommentLines(lines);
    FilterSubset(lines, IsCommentLine);
    forall i | 0 <= i < |block|
      ensures '\n' !in block[i]
    {
      assert block[i] in lines;
    }
  }

  /**
   * `_extract_existing_comment`: the comment lines just above `position`,
   * joined by `'\n'`, or None when there are none.
   */
  function ExtractExistingComment(content: string, position: nat): (r: Option<string>)
    ensures var lines := Split(Take(content, position), '\n');
      var block := CommentLines(lines[DocBlockStart(lines)..]);
      && (r.None? <==> block == [])
      && (r.Some? ==> Split(r.value, '\n') == block)
  {
    var lines := Split(Take(content, position), '\n');
    var collected := CollectComment(lines);
    CollectCommentIsBlock(lines);
    SplitPieces(Take(content, position), '\n');
    CommentLinesNoBreak(lines[DocBlockStart(lines)..]);
    if collected == [] then None
    else
      SplitJoin(collected, '\n');
      Some(Join(collected, '\n'))
  }

  // ---------------------------------------------------------------------------
  // _is_inside_method

  /** `_is_inside_method`: more `{` than `}` before `position`. */
  predicate IsInsideMethod(content: string, position: nat) {
    var before := Take(content, position);
    Count(before, '{') > Count(before, '}')
  }

  /**
   * The running brace-depth counter the heuristic stands for: one pass from
   * the start of the file to `position`, one up per `{` and one down per `}`.
   */
  method RunningDepth(content: string, position: nat) returns (depth: int)
    ensures depth > 0 <==> IsInsideMethod(content, position)
    ensures position == 0 ==> depth == 0
  {
    var limit := if position <= |content| then position else |content|;
    depth := 0;
    var i := 0;
    while i < limit
      invariant 0 <= i <= limit
      invariant depth == Depth(content[..i])
    {
      assert content[..i + 1][..i] == content[..i];
      if content[i] == '{' {
        depth := depth + 1;
      } else if content[i] == '}' {
        depth := depth - 1;
      }
      i := i + 1;
    }
    assert content[..i] == Take(content, position);
  }

  /** Braces balance over a concatenation when they balance on both sides. */
  lemma DepthConcat(a: string, b: string)
    ensures Depth(a + b) == Depth(a) + Depth(b)
  {
    CountConcat(a, b, '{');
    CountConcat(a, b, '}');
  }

  /**
   * A balanced stretch of text, such as a complete class body found by
   * ExtractFullClassContent, does not change whether a later position counts
   * as inside a method.
   */
  lemma BalancedBlockTransparent(content: string, s: nat, e: nat)
    requires s <= e <= |content|
    requires Depth(content[s..e]) == 0
    ensures IsInsideMethod(content, e) == IsInsideMethod(content, s)
  {
    assert content[..e] == content[..s] + content[s..e];
    DepthConcat(content[..s], content[s..e]);
  }
}
