# java-code-commentator, modelled in Dafny

java-code-commentator walks a Java project. For every class and method
that has no Javadoc, it asks a language model for a comment and writes
that comment into the file above the declaration. This project models
the deterministic core of that tool and proves properties about it:

- **The recognizer** (`src/java_parser.py`). It turns the regular-expression matches for classes and methods into `JavaElement`s:
  - it cleans an existing doc comment and skips the element when the comment says something;
  - it counts line numbers;
  - it drops accessors (`get…`, `set…`, `is…`);
  - it splits a method's parameters and `throws` list;
  - it sorts the result stably by line.

  The scanning helpers are modelled too: the brace-matching scan for a class body, the backward scan for the comment lines above a position, and the brace-count "inside a method" test.
- **The comment shaper** (`src/comment_generator.py`):
  - the context a prompt is given (`_prepare_context` and the class/method/field windows);
  - the reshaping of a model reply into Javadoc shape, opening with `/**`;
  - the signature splitting;
  - the retry-with-backoff schedule of the API call;
  - the local fallback comments;
  - the dispatch on the element type.
- **The insertion pass** (`src/file_processor.py`):
  - the indent of a line;
  - the indentation of a comment;
  - the single-entry list insertion;
  - the loop of `process_java_file` that puts one comment per element into the file's line list and joins the list again.

Files:

- `wrappers.dfy`: `Option`.
- `text.dfy`: Python's string methods, as used by the source (`strip`, `split`, `join`, `splitlines`, `count`, `replace`, `str.split()` into words).
- `seqs.dfy`: generic sequence scans, and Python's slice and index rules.
- `java_parser.dfy`, `comment_generator.dfy` and `file_processor.dfy`: one module per source file.

Modelling choices:

- **Regular expressions.** They are not executed. A `finditer` run is an input: a sequence of match records holding the start offset, the matched text and the named groups. A `search` is a function from text to an optional match record.
- **The language model.** It is a *backend* parameter: a function from a request (the code window and, for a method, its name and signature) and an attempt index to a reply text or an error message.
- **Sleeping.** The seconds the client would sleep are returned as a sequence of waits.
- **Files.** A file is its content string. Processing yields the text that would be written back, or `None` where the loop raises an `IndexError`.

## Model

| member | source | states |
|---|---|---|
| JavaParser.CleanComment | src/java_parser.py:50-66 | There is no cleaned comment exactly when the captured comment is missing or empty; any other comment cleans to some string, possibly empty |
| JavaParser.CleanLines | src/java_parser.py:56-65 | No line kept by the cleaning loop is empty |
| JavaParser.CleanLinesConcat | src/java_parser.py:58-64 | Cleaning works line by line: cleaning two lists of lines one after the other gives the two cleanings concatenated |
| JavaParser.CleanLinesEmpty | src/java_parser.py:58-65 | Nothing survives the cleaning exactly when every line cleans to the empty string |
| JavaParser.JoinNonEmptyParts | src/java_parser.py:66 | A newline-join of non-empty lines is empty exactly when there are no lines |
| JavaParser.DocumentedIff | src/java_parser.py:75-79 | An element counts as already documented exactly when some line of its captured comment cleans to non-empty text |
| JavaParser.CleanEmptyDocLine | src/java_parser.py:60-62 | The line `/** */` cleans to the empty string |
| JavaParser.EmptyDocLines | src/java_parser.py:56-65 | No cleaned line survives from the comment `/** */` |
| JavaParser.EmptyDocBlockIsUndocumented | src/java_parser.py:75-79 | An empty Javadoc block `/** */` cleans to `""`, so its element is not skipped |
| JavaParser.UndocumentedCleansEmpty | src/java_parser.py:75-88 | An element that is kept records as its existing comment either nothing or the empty string, never text |
| JavaParser.ParameterOf | src/java_parser.py:134-143 | A piece gives a parameter exactly when it has at least two whitespace-separated words; then the type's words followed by the name are exactly the piece's words, the type is its words joined by single spaces, and the name is a single non-empty word |
| JavaParser.ParametersOf | src/java_parser.py:133-143 | Each comma-separated piece gives at most one parameter |
| JavaParser.ParameterOfText | src/java_parser.py:136-143 | A parameter written as its type, a space and its name reads back as the same parameter |
| JavaParser.ParametersOfAll | src/java_parser.py:133-143 | When every piece reads as a parameter, the list is exactly those parameters, in order |
| JavaParser.ParametersRoundTrip | src/java_parser.py:132-143 | Reading a comma-separated parameter list written from well-formed parameters gives the same parameters back; the empty list is written as `""` and reads back as no parameters |
| JavaParser.CommaList | src/java_parser.py:147-148 | Splitting the throws list on commas gives one entry more than there are commas |
| JavaParser.CommaListRoundTrip | src/java_parser.py:147-148 | Trimmed exception names joined by commas split back into the same names |
| JavaParser.ExtractMethodInfo | src/java_parser.py:122-158 | As written, no method info is ever returned, for any match: the two-argument group lookup raises and the handler returns None |
| JavaParser.SplitMethodInfo | src/java_parser.py:124-155 | The info keeps the matched name. An absent or blank return type becomes `void`, any other is trimmed and non-empty. Blank parameter text gives no parameters, and there is at most one parameter per comma plus one. The exceptions are empty exactly when the `throws` group is absent or blank |
| JavaParser.ExtractMethodInfoRepaired | src/java_parser.py:124-155 | As intended, the method info is always returned. It carries the matched name, `void` for an absent or blank return type, no parameters for blank parameter text, and no exceptions exactly when the `throws` group is absent or blank |
| JavaParser.ParametersTextTrimmed | src/java_parser.py:132-133 | Written parameters have no whitespace at either end and are empty only for no parameters, so the `strip()` before splitting leaves them alone |
| JavaParser.MethodInfoRoundTrip | src/java_parser.py:124-155 | Round trip: a method match whose parameter text is written from well-formed parameters and whose `throws` group lists trimmed names (absent for none) reads back as exactly those parameters and names, with the matched name and the trimmed return type, or `void` when that is absent or blank |
| JavaParser.LineNumber | src/java_parser.py:81 | The line number of a match is at least 1 and at most one more than the number of newlines in the file |
| JavaParser.LineNumberMonotonic | src/java_parser.py:81 | A later match start never gets an earlier line number |
| JavaParser.LineNumberInFile | src/java_parser.py:81 | A match that starts inside the file gets the number of one of the file's `splitlines()` lines |
| JavaParser.ClassElements | src/java_parser.py:73-89 | Every undocumented class match gives an element, and every element comes from an undocumented class match |
| JavaParser.ClassElementsEmptyIff | src/java_parser.py:73-89 | The class loop yields nothing exactly when every class match is documented |
| JavaParser.ClassElementsSorted | src/java_parser.py:73-89 | For matches in increasing start order, the class elements are in line order and lie no later than the last match's line |
| JavaParser.MethodElements | src/java_parser.py:92-116 | Every method match whose info is extracted, that is undocumented and whose name is not an accessor gives an element, and every element comes from such a match |
| JavaParser.MethodElementsAsWrittenEmpty | src/java_parser.py:92-95 | As written, the method loop yields no element at all |
| JavaParser.CandidatesRecognized | src/java_parser.py:73-116 | Every candidate has a line number between 1 and one more than the file's newline count, is undocumented, and is a class or a non-accessor method. ParseInFile and ParseRepairedInFile tighten the bound to the `splitlines()` count when the matches start inside the file |
| JavaParser.ParseWith | src/java_parser.py:68-120 | The result is in line order and is a permutation of the class elements followed by the method elements; on each line it keeps their order (classes first), and every element is recognized |
| JavaParser.Parse | src/java_parser.py:68-120 | As written, `parse` returns a line-ordered permutation of the undocumented classes and nothing else |
| JavaParser.ParseAsWritten | src/java_parser.py:92-120 | With method extraction as written, the result holds exactly the class elements (as a multiset) and only classes |
| JavaParser.ParseRepaired | src/java_parser.py:68-120 | With method extraction repaired, the result is line-ordered and recognized, and on each line holds the classes then the methods found there |
| JavaParser.ParseInFile | src/java_parser.py:68-120 | As written, when every class match starts inside the file, every element `parse` returns lies on one of the file's `splitlines()` lines |
| JavaParser.ParseRepairedInFile | src/java_parser.py:68-120 | With method extraction repaired, when every class and method match starts inside the file, every element lies on one of its `splitlines()` lines |
| JavaParser.ParseEmptyIffAllDocumented | src/java_parser.py:68-120 | As written, `parse` returns nothing exactly when every class match is already documented |
| JavaParser.ParseKeepsMatchOrder | src/java_parser.py:73-119 | For matches in `finditer` order, `parse` returns the class elements in match order |
| JavaParser.InsertByLine | src/java_parser.py:119 | One insertion step of the sort adds exactly one element |
| JavaParser.InsertByLineSorted | src/java_parser.py:119 | Inserting into a line-ordered list keeps it ordered and adds exactly the new element |
| JavaParser.SortByLineSpec | src/java_parser.py:119 | The sort by line number yields a line-ordered permutation of its input |
| JavaParser.InsertStable | src/java_parser.py:119 | Inserting an element puts it after every element already on its line |
| JavaParser.SortStable | src/java_parser.py:119 | The sort is stable: on every line the elements keep their input order |
| JavaParser.SortSorted | src/java_parser.py:119 | Sorting a list already in line order leaves it unchanged |
| JavaParser.ExtractFullClassContent | src/java_parser.py:160-174 | A non-empty result is the text from the start position up to and including the first `}` at which the brace count returns to zero; it ends with `}` and has balanced braces. The result is empty exactly when no such `}` exists or the start is past the end |
| JavaParser.DocBlockStartSpec | src/java_parser.py:241-250 | The backward scan covers the longest run of comment or blank lines ending just before the position, and stops at the line above it |
| JavaParser.CollectComment | src/java_parser.py:240-250 | Computes the lines the backward scan collects above a position: walking up, comment lines are kept (in file order), blank lines skipped, and the scan stops at the first other line. CollectCommentIsBlock states what it returns |
| JavaParser.CollectCommentIsBlock | src/java_parser.py:240-250 | The lines collected are exactly the comment lines of that run, in file order; blank lines are skipped |
| JavaParser.ExtractExistingComment | src/java_parser.py:236-252 | None exactly when the run holds no comment line; otherwise the newline-joined comment lines of the run, which split back into exactly those lines |
| JavaParser.IsInsideMethod | src/java_parser.py:254-261 | Computes the heuristic: a position is inside a method when the text before it holds more `{` than `}`. RunningDepth and BalancedBlockTransparent state its properties |
| JavaParser.RunningDepth | src/java_parser.py:254-261 | A left-to-right brace counter is positive exactly when the prefix has more `{` than `}`, and it is zero at position 0 |
| JavaParser.BalancedBlockTransparent | src/java_parser.py:254-261 | Skipping over a brace-balanced stretch does not change whether a position is inside a method |
| CommentGenerator.PrepareContext | src/comment_generator.py:29-38 | A string context splits into lines that join back to it, one more than its newlines; a list is kept; anything else gives no lines |
| CommentGenerator.WindowSpec | src/comment_generator.py:186-188 | The window bounds lie within the list, the window is the slice between them or empty, it has at most before + after lines, and it contains the element's own line when that line exists |
| CommentGenerator.FormatComment | src/comment_generator.py:144-147 | An empty reply gives the empty comment |
| CommentGenerator.InteriorLineShape | src/comment_generator.py:167-176 | A reshaped middle line is ` *` alone or ` * ` followed by trimmed text, and has no newline |
| CommentGenerator.ReshapeShape | src/comment_generator.py:158-178 | Reshaping keeps each line free of newlines and gives every middle line the interior shape |
| CommentGenerator.ReshapedLines | src/comment_generator.py:150-178 | The reshaped block has as many lines as the fenced-and-delimited reply, and every middle line has the interior shape |
| CommentGenerator.FormatCommentLines | src/comment_generator.py:144-178 | A non-empty reply becomes lines that open with exactly `/**`, close with exactly ` */` when there are two or more, and have interior-shaped lines between; the line count is the delimited reply's |
| CommentGenerator.FormatCommentFenceFree | src/comment_generator.py:150 | Whatever the reply, neither the as-written nor the repaired formatter leaves a code fence "```" in its result: the removal leaves no three backticks in a row, and the reshaping adds no backtick |
| CommentGenerator.FormatCommentOpens | src/comment_generator.py:163-164 | A formatted non-empty reply starts with `/**` |
| CommentGenerator.OneLineBlockLines | src/comment_generator.py:150-159 | A one-line reply already written as `/** … */` passes the fence removal and the delimiting unchanged, as a single line |
| CommentGenerator.FormatCommentCollapses | src/comment_generator.py:159-166 | As written, such a one-line reply is reduced to just `/**`: the text is lost and the comment is left unclosed |
| CommentGenerator.FormatCommentCollapseExample | src/comment_generator.py:159-166 | As written, the reply `/** Returns the sum. */` formats to `/**` |
| CommentGenerator.FormatCommentRepaired | src/comment_generator.py:144-147 | As intended, an empty reply still gives the empty comment |
| CommentGenerator.FormatCommentRepairedClosed | src/comment_generator.py:144-178 | As intended, every non-empty reply becomes a closed block: `/**` first, ` */` last, interior-shaped lines between |
| CommentGenerator.FormatCommentRepairedAgrees | src/comment_generator.py:158-178 | The repair changes nothing for a reply that already spans two or more lines |
| CommentGenerator.FormatCommentRepairedKeepsText | src/comment_generator.py:144-178 | As intended, a one-line `/** text */` reply becomes the three-line block of that text, and the recognizer reads the text back from it |
| CommentGenerator.OneLineReplyBothWays | src/comment_generator.py:144-178 | For `/** w */`: as written the result is `/**`; as intended it is the block of `w`, which cleans back to `w` |
| CommentGenerator.BlockLines | src/comment_generator.py:216-217 | A fallback block is exactly the three lines `/**`, ` * text` and ` */` |
| CommentGenerator.BlockCleansToText | src/comment_generator.py:216-217 | For a non-empty text with no whitespace at either end, no `/` and no newline, the recognizer's comment cleaning recovers the text from its block, so the block counts as documentation |
| CommentGenerator.FallbacksDocumented | src/comment_generator.py:216-278 | The class and method fallbacks clean back to `name 클래스` and `name 메소드`, which is non-blank text |
| CommentGenerator.ExtractMethodSignature | src/comment_generator.py:53-83 | No match gives no signature. Otherwise it keeps the return type and name; blank parameters give none; exceptions are empty exactly when the group is absent or empty, else one per comma plus one |
| CommentGenerator.SignatureRoundTrip | src/comment_generator.py:64-81 | A signature written back as Java source (well-formed parameters, comma-separated exceptions) reads back as the same signature; no parameters (the text `""`) read back as none, and an absent `throws` group as no exceptions |
| CommentGenerator.RetryLoop | src/comment_generator.py:132-142 | Computes the retry loop of `_call_claude_api` from retry k: an overload failure below the retry limit sleeps 15 · 2^k seconds and retries; otherwise the loop ends with the reply, or with nothing on a failure. RetryLoopWaits and RetryLoopAttempts state what it returns |
| CommentGenerator.RetryLoopWaits | src/comment_generator.py:136-140 | From retry k, at most 4 - k retries happen, and the i-th wait is 15 · 2^(k+i) seconds |
| CommentGenerator.RetryLoopAttempts | src/comment_generator.py:132-142 | Every attempt that led to a retry was an overload failure below the retry limit. The loop stops at the first attempt that is not. It returns a reply exactly when that attempt replied, and then it returns that reply's text |
| CommentGenerator.BackoffValues | src/comment_generator.py:137 | The successive waits are 15, 30, 60 and 120 seconds |
| CommentGenerator.SumPrefix | src/comment_generator.py:137-139 | Any prefix of the backoff schedule sleeps at most 225 seconds in total |
| CommentGenerator.CallApi | src/comment_generator.py:85-142 | A comment that the API call returns is empty or starts with `/**` |
| CommentGenerator.CallApiFromStart | src/comment_generator.py:85-142 | One call retries at most four times with waits 15, 30, 60, 120 (at most 225 s in total), only after overload failures, and stops at the first attempt that does not get a retry. It returns the formatted reply exactly when that attempt replied |
| CommentGenerator.AllFailuresGiveUp | src/comment_generator.py:132-142 | A call whose every attempt fails returns no comment |
| CommentGenerator.FieldTextIdempotent | src/comment_generator.py:333-338 | A cleaned field reply always starts with `//`. When the reply has some non-whitespace text and no backtick, cleaning the cleaned reply again changes nothing |
| CommentGenerator.FieldTextBlankExample | src/comment_generator.py:333-338 | A blank reply cleans to `// `, and that cleans again to `//`, so idempotence needs some text in the reply |
| CommentGenerator.FieldTextMultiLineExample | src/comment_generator.py:333-336 | Only the first line of a field reply gets the `// ` prefix: `a\nb` cleans to `// a\nb` |
| CommentGenerator.FieldTextFenceFree | src/comment_generator.py:333-338 | Whatever the reply, the cleaned field comment holds no code fence "```" |
| CommentGenerator.ClassComment | src/comment_generator.py:180-219 | The class comment is the empty string or opens with `/**`: the formatted reply, or the class fallback when the call gives up. A one-line `/** … */` reply leaves only the bare `/**` |
| CommentGenerator.ClassCommentOneLineReply | src/comment_generator.py:180-219 | A backend that always replies `/** w */` makes the class comment exactly `/**`: the first reply is taken and the formatter collapses it |
| CommentGenerator.MethodComment | src/comment_generator.py:221-280 | The method comment is the empty string or opens with `/**`: the formatted reply, or the method fallback when the call gives up. A one-line `/** … */` reply leaves only the bare `/**` |
| CommentGenerator.FieldComment | src/comment_generator.py:282-342 | The field comment always starts with `//`: the cleaned reply, or the field fallback on a failure |
| CommentGenerator.GenerateComment | src/comment_generator.py:17-27 | Unknown element types give `""`; fields get a text starting with `//`; classes, interfaces, enums and methods get either `""` or a text opening with `/**` |
| CommentGenerator.SilentBackendFallsBack | src/comment_generator.py:17-27 | When every attempt fails, classes, interfaces and enums get the class fallback, methods the method fallback and fields the field fallback; the class and method fallbacks clean to the name and a tag |
| FileProcessor.GetIndent | src/file_processor.py:92-94 | The indent of a line is no longer than the line |
| FileProcessor.GetIndentSpec | src/file_processor.py:92-94 | The indent is the number of leading whitespace characters: the prefix is all whitespace, the next character is not, and the rest is the left-stripped line |
| FileProcessor.GetIndentPrefix | src/file_processor.py:92-94 | Prefixing a line with whitespace grows its indent by exactly that whitespace's length |
| FileProcessor.Spaces | src/file_processor.py:77 | The indent string has exactly the requested width and is all whitespace |
| FileProcessor.IndentLines | src/file_processor.py:111-112 | Indenting keeps the number of lines |
| FileProcessor.IndentLinesInverse | src/file_processor.py:110-113 | Indenting by whitespace is undone by dedenting. Blank lines are unchanged, and a non-blank line's indent grows by exactly the indent's width |
| FileProcessor.IndentComment | src/file_processor.py:96-113 | Computes `_indent_comment`: a list is newline-joined first, anything that is not a string or list gives `""`, and every non-blank line of the text's `splitlines()` gets the indent. IndentLinesInverse, IndentCommentEmptyIndent and IndentCommentLineCount state its properties |
| FileProcessor.IndentCommentEmptyIndent | src/file_processor.py:96-113 | With an empty indent the comment comes back unchanged, apart from one trailing newline that `splitlines` drops |
| FileProcessor.IndentCommentLineCount | src/file_processor.py:110-113 | The indented comment has as many lines as the comment's `splitlines()` |
| FileProcessor.InsertComment | src/file_processor.py:115-119 | Insertion returns a list one longer than its input |
| FileProcessor.InsertCommentSpec | src/file_processor.py:115-119 | The comment sits at the position `list.insert` uses. The entries before it and after it are the input's, and removing the comment gives the input back |
| FileProcessor.Step | src/file_processor.py:76-80 | One iteration raises exactly when the index `line_number - 1` is outside the current list |
| FileProcessor.StepShape | src/file_processor.py:76-80 | A step that does not raise adds one entry and leaves the file's own lines as they were |
| FileProcessor.InsertAll | src/file_processor.py:67-80 | Computes the loop as written: each element's comment goes to index `line_number - 1` of the list as grown so far, indented like the entry at that index; None when an index raises. InsertAllRaises, InsertAllShape and InsertAllInRange state what it returns |
| FileProcessor.InsertAllRaises | src/file_processor.py:67-80 | As written, the loop raises exactly when some element's index `line_number - 1` is outside the list as grown by the earlier insertions |
| FileProcessor.InsertAllShape | src/file_processor.py:67-80 | A loop that completes adds one entry per element, and removing the inserted entries gives the original lines in order |
| FileProcessor.InsertAllInRange | src/file_processor.py:67-80 | When every element lies on a line of the file, the loop completes: one entry per element is added and all original lines are kept in order |
| FileProcessor.InsertAllMisplacesExample | src/file_processor.py:67-80 | As written, for classes A and B on consecutive lines, B's comment lands above A, so both comments precede A |
| FileProcessor.InsertAllShifted | src/file_processor.py:67-80 | Computes the intended loop: the same steps with each index shifted by the number of comments already inserted. ShiftedAnnotates states that it yields the annotated file |
| FileProcessor.Annotated | src/file_processor.py:67-80 | Computes the reference annotated file, independent of list indices: the file's lines in order, each element's comment, indented like its line, directly above that line. AnnotatedLength and AnnotatedSource state its shape |
| FileProcessor.ShiftedAnnotates | src/file_processor.py:67-80 | As intended, with each index shifted by the comments already inserted, the loop yields the annotated file: each comment directly above its own element's line, indented like that line |
| FileProcessor.AnnotatedLength | src/file_processor.py:67-80 | The annotated file has one entry per line plus one per element |
| FileProcessor.AnnotatedSource | src/file_processor.py:67-80 | Removing the comments from the annotated file gives exactly the file's lines |
| FileProcessor.FirstStepExample | src/file_processor.py:76-80 | The first step puts class A's comment, unindented, above line 1 |
| FileProcessor.ShiftedPlacesExample | src/file_processor.py:67-80 | As intended, for the same two classes each comment lands directly above its own class |
| FileProcessor.ProcessFile | src/file_processor.py:57-85 | Computes `process_java_file` as written on the content: `splitlines()`, `parse`, the insertion loop, and the newline join of the result; None where the loop raises. ProcessFileNoElements and ProcessFileNeverRaises state what it returns |
| FileProcessor.ProcessFileNoElements | src/file_processor.py:57-85 | With no elements found, the file is written back unchanged, apart from the loss of one trailing newline |
| FileProcessor.ProcessFileNeverRaises | src/file_processor.py:57-85 | As written, when every class match starts inside the file, processing never raises an `IndexError` |
| FileProcessor.ProcessFileRepairedAnnotates | src/file_processor.py:57-85 | As intended, when every class and method match starts inside the file, it is written back as the annotated file: every recognized element has its comment directly above its own line, and every original line is kept in order |
| Text.ReplaceTriple | src/comment_generator.py:150 | `s.replace('```', '')` leaves no three backticks in a row, for any `s`, even where a removal brings two runs together |
| Text.JoinSplitLines | src/file_processor.py:57-85 | Joining `splitlines()` with newlines gives the text back without one trailing newline |

## Left out

- The Anthropic client: the request, the prompt texts, the unpacking of the response object and the debug output. A backend parameter stands for them. Interface and enum elements are dispatched, but the recognizer never produces them.
- The regular expressions (`class_pattern`, `method_pattern`, `comment_pattern` and the signature pattern). Their matches are inputs. The model does not check that a match record is one the pattern could produce.
- `time.sleep`: the waits are returned instead of slept.
- `JavaParser.parse_java_file`. It reads a file, and as written it fails at once: it unpacks `match.groups()` into two names, passes an unknown keyword to `JavaElement` and uses an undefined field pattern. The helpers it calls are modelled.
- `CommentGenerator._extract_field_info`. Nothing calls it.
- The file I/O of `process_java_file`, the per-file exception logging of `process_java_files`, and `create_backup`. These are filesystem operations.
- `src/main.py`, `src/project_scanner.py` and `src/config.py`. They are the command line, the directory walk and environment constants.
- Whitespace is the ten ASCII characters Python's `str.isspace()` accepts: tab, newline, vertical tab, form feed, carriage return, the four separators 0x1C to 0x1F, and space. Python's `str.strip()` also removes other Unicode whitespace, such as U+0085, U+00A0 and U+2028.
- `splitlines()` is modelled as splitting on `'\n'` only, with one trailing `'\n'` dropped. Python also splits on `'\r'` and other line boundaries.
- `_indent_comment` takes `str`, `list` or anything else. This is modelled as a three-way datatype (`FileProcessor.CommentValue`).
- JavaParser.ParseKeepsMatchOrder and JavaParser.ClassElementsSorted: stated for matches in increasing start order, as `finditer` produces them. `parse` itself accepts any match sequence.
- CommentGenerator.FormatComment and CommentGenerator.FormatCommentRepaired: their own contracts state only the empty case. The shape of the result is stated by FormatCommentLines and FormatCommentRepairedClosed, and the fence removal by FormatCommentFenceFree.
- CommentGenerator.FieldTextIdempotent: idempotence is proved only for replies with some non-whitespace text and no backtick. It fails otherwise: FieldTextBlankExample shows an empty reply cleaning to `// `, which cleans again to `//`.
- CommentGenerator.BlockCleansToText: proved only for non-empty text with no whitespace at either end, no `/` and no newline. Text that holds a comment delimiter of its own can come back changed.
- CommentGenerator.FieldComment: the result is promised only to start with `//`. As in the source, the later lines of a multi-line field reply stay uncommented (FieldTextMultiLineExample).

## Findings

| source | as written | input that shows it | evidently intended | confidence | as-written member | corrected member |
|---|---|---|---|---|---|---|
| src/java_parser.py:122-158 | `match.group('return_type', '')` asks for two groups, and `''` is not a group name, so it raises. The handler returns None, and `parse` skips every method | any method match, e.g. `public int add(int a, int b) {` | the default `''` for a missing group, i.e. `match.group(name) or ''`, with the parameter and throws splitting applied | not executed | JavaParser.ExtractMethodInfo, JavaParser.MethodElementsAsWrittenEmpty, JavaParser.ParseAsWritten | JavaParser.ExtractMethodInfoRepaired, JavaParser.MethodInfoRoundTrip, JavaParser.ParseRepaired |
| src/comment_generator.py:144-178 | a reply already on one line as `/** … */` passes the opener/closer checks unchanged. Line 0 is then replaced by `/**`, and no closing line remains | the reply `/** Returns the sum. */` | a closed block that keeps the text: `/**`, ` * Returns the sum.`, ` */` | not executed | CommentGenerator.FormatCommentCollapses, CommentGenerator.FormatCommentCollapseExample | CommentGenerator.FormatCommentRepaired, CommentGenerator.FormatCommentRepairedClosed, CommentGenerator.FormatCommentRepairedKeepsText |
| src/file_processor.py:67-80 | each comment is inserted at `line_number - 1` of the list already grown by earlier insertions, and its indent is read from that index | the file `class A {}` / `class B {}` with both classes undocumented: B's comment lands between A's comment and A | insert at `line_number - 1` plus the number of comments already inserted, so each comment sits directly above its element | not executed | FileProcessor.InsertAllMisplacesExample | FileProcessor.ShiftedAnnotates, FileProcessor.ShiftedPlacesExample, FileProcessor.ProcessFileRepairedAnnotates |
