/**
 * The Python `str` operations the commentator is built from, over `seq<char>`:
 * `strip`, `split`, `join`, `splitlines`, `split()` into words, `replace`,
 * `count`, `startswith`/`endswith` and `in`.
 *
 * Whitespace is the fixed set of ASCII characters Python treats as whitespace
 * (IsSpace), and line breaks are `'\n'` only.
 */
module Text {

  /**
   * Python's whitespace test for one character, restricted to ASCII: tab, line
   * feed, vertical tab, form feed, carriage return, the four separators
   * 0x1C-0x1F and space.
   */
  predicate IsSpace(c: char) {
    9 <= c as int <= 13 || 28 <= c as int <= 32
  }

  predicate AllSpace(s: string) {
    forall i :: 0 <= i < |s| ==> IsSpace(s[i])
  }

  predicate NoSpace(s: string) {
    forall i :: 0 <= i < |s| ==> !IsSpace(s[i])
  }

  /** `s.startswith(p)` */
  predicate StartsWith(s: string, p: string) {
    |p| <= |s| && s[..|p|] == p
  }

  /** `s.endswith(p)` */
  predicate EndsWith(s: string, p: string) {
    |p| <= |s| && s[|s| - |p|..] == p
  }

  /** `p in s` for strings: `p` occurs somewhere in `s`. */
  predicate Contains(s: string, p: string) {
    exists i :: 0 <= i <= |s| - |p| && StartsWith(s[i..], p)
  }

  /** `s[:n]` for `n >= 0`: Python cuts the slice at the end of the string. */
  function Take(s: string, n: nat): (r: string)
    ensures |r| == if n <= |s| then n else |s|
    ensures r == s[..|r|]
  {
    if n <= |s| then s[..n] else s
  }

  // ---------------------------------------------------------------------------
  // strip

  /** `s.lstrip()`: the suffix of `s` left after its leading whitespace. */
  function LStrip(s: string): (r: string)
    ensures |r| <= |s|
  {
    if |s| > 0 && IsSpace(s[0]) then LStrip(s[1..]) else s
  }

  /** `lstrip()` removes exactly the leading run of whitespace. */
  lemma {:induction false} LStripSpec(s: string)
    ensures LStrip(s) == s[|s| - |LStrip(s)|..]
    ensures AllSpace(s[..|s| - |LStrip(s)|])
    ensures LStrip(s) == [] || !IsSpace(LStrip(s)[0])
  {
    if |s| > 0 && IsSpace(s[0]) {
      LStripSpec(s[1..]);
    }
  }

  /** `s.rstrip()`: the prefix of `s` left before its trailing whitespace. */
  function RStrip(s: string): (r: string)
    ensures |r| <= |s|
  {
    if |s| > 0 && IsSpace(s[|s| - 1]) then RStrip(s[..|s| - 1]) else s
  }

  /** `rstrip()` removes exactly the trailing run of whitespace. */
  lemma {:induction false} RStripSpec(s: string)
    ensures RStrip(s) == s[..|RStrip(s)|]
    ensures AllSpace(s[|RStrip(s)|..])
    ensures RStrip(s) == [] || !IsSpace(RStrip(s)[|RStrip(s)| - 1])
  {
    if |s| > 0 && IsSpace(s[|s| - 1]) {
      var init := s[..|s| - 1];
      RStripSpec(init);
      var n := |RStrip(init)|;
      assert s[n..] == init[n..] + [s[|s| - 1]];
      forall i | 0 <= i < |s[n..]|
        ensures IsSpace(s[n..][i])
      {
        if i < |init[n..]| {
          assert s[n..][i] == init[n..][i];
        }
      }
    }
  }

  /** `s.strip()` */
  function Strip(s: string): string {
    RStrip(LStrip(s))
  }

  /** No whitespace at either end. */
  predicate Trimmed(s: string) {
    s == [] || (!IsSpace(s[0]) && !IsSpace(s[|s| - 1]))
  }

  /** `strip()` leaves no whitespace at either end. */
  lemma StripEnds(s: string)
    ensures Trimmed(Strip(s))
  {
    var l := LStrip(s);
    LStripSpec(s);
    RStripSpec(l);
    var r := RStrip(l);
    if r != [] {
      assert r[0] == l[0];
    }
  }

  /** A string with no whitespace at either end is its own `strip()`. */
  lemma StripTrimmed(s: string)
    requires Trimmed(s)
    ensures Strip(s) == s
  {
  }

  /** `strip()` keeps only characters of its argument. */
  lemma StripSub(s: string)
    ensures forall c :: c in Strip(s) ==> c in s
  {
    var l := LStrip(s);
    LStripSpec(s);
    RStripSpec(l);
    forall c | c in Strip(s)
      ensures c in s
    {
      var i :| 0 <= i < |Strip(s)| && Strip(s)[i] == c;
      assert l[i] == c;
      assert s[|s| - |l| + i] == c;
    }
  }

  /** `strip()` is empty exactly for all-whitespace strings. */
  lemma StripEmptyIffAllSpace(s: string)
    ensures Strip(s) == [] <==> AllSpace(s)
  {
    var l := LStrip(s);
    LStripSpec(s);
    RStripSpec(l);
    assert l == [] <==> AllSpace(s) by {
      if l != [] {
        assert l[0] == s[|s| - |l|];
      } else {
        assert s[..|s|] == s;
      }
    }
  }

  /** Leading whitespace does not change `lstrip()`. */
  lemma {:induction false} LStripLeadingSpace(w: string, s: string)
    requires AllSpace(w)
    ensures LStrip(w + s) == LStrip(s)
    decreases |w|
  {
    if w == [] {
      assert w + s == s;
    } else {
      assert (w + s)[0] == w[0];
      assert (w + s)[1..] == w[1..] + s;
      LStripLeadingSpace(w[1..], s);
    }
  }

  /** Leading whitespace does not change `strip()`. */
  lemma StripLeadingSpace(w: string, s: string)
    requires AllSpace(w)
    ensures Strip(w + s) == Strip(s)
  {
    LStripLeadingSpace(w, s);
  }

  /** One space on each side of a trimmed word is all `strip()` removes. */
  lemma StripPadded(w: string)
    requires w != [] && Trimmed(w)
    ensures Strip([' '] + w + [' ']) == w
  {
    var t := w + [' '];
    assert [' '] + w + [' '] == [' '] + t;
    StripLeadingSpace([' '], t);
    assert t[0] == w[0];
    assert LStrip(t) == t;
    assert t[..|t| - 1] == w;
    assert RStrip(t) == RStrip(w);
    assert RStrip(w) == w;
  }

  // ---------------------------------------------------------------------------
  // count, split, join

  /** `s.count(c)` for a single character. */
  function Count(s: string, c: char): nat {
    if |s| == 0 then 0
    else Count(s[..|s| - 1], c) + (if s[|s| - 1] == c then 1 else 0)
  }

  lemma {:induction false} CountConcat(a: string, b: string, c: char)
    ensures Count(a + b, c) == Count(a, c) + Count(b, c)
  {
    if b != [] {
      assert (a + b)[..|a + b| - 1] == a + b[..|b| - 1];
      CountConcat(a, b[..|b| - 1], c);
    } else {
      assert a + b == a;
    }
  }

  /** A character that does not occur is counted zero times. */
  lemma {:induction false} CountAbsent(s: string, c: char)
    requires c !in s
    ensures Count(s, c) == 0
  {
    if s != [] {
      assert c !in s[..|s| - 1];
      CountAbsent(s[..|s| - 1], c);
    }
  }

  /** Counting over a prefix never exceeds counting over the whole. */
  lemma CountPrefix(s: string, n: nat, c: char)
    requires n <= |s|
    ensures Count(s[..n], c) <= Count(s, c)
  {
    CountConcat(s[..n], s[n..], c);
    assert s == s[..n] + s[n..];
  }

  /** `strip()` never adds occurrences of a character. */
  lemma StripCount(s: string, c: char)
    ensures Count(Strip(s), c) <= Count(s, c)
  {
    var l := LStrip(s);
    LStripSpec(s);
    RStripSpec(l);
    var k := |s| - |l|;
    assert s == s[..k] + l;
    CountConcat(s[..k], l, c);
    CountPrefix(l, |RStrip(l)|, c);
  }

  /** `s.split(sep)`: the pieces between occurrences of `sep`. */
  function Split(s: string, sep: char): (r: seq<string>)
    ensures |r| >= 1
  {
    if s == [] then [""]
    else
      var rest := Split(s[1..], sep);
      if s[0] == sep then [""] + rest else [[s[0]] + rest[0]] + rest[1..]
  }

  /** `sep.join(parts)` */
  function Join(parts: seq<string>, sep: char): string {
    if |parts| == 0 then ""
    else if |parts| == 1 then parts[0]
    else parts[0] + [sep] + Join(parts[1..], sep)
  }

  lemma AppendAssoc<T>(a: seq<T>, b: seq<T>, c: seq<T>)
    ensures a + (b + c) == (a + b) + c
  {
  }

  lemma ConsParts<T>(x: T, a: seq<T>, b: seq<T>)
    requires |a| >= 1
    ensures (a + b)[0] == a[0]
    ensures [x] + (a + b)[1..] == ([x] + a[1..]) + b
  {
    assert (a + b)[1..] == a[1..] + b;
  }

  /** A split has one piece more than there are separators. */
  lemma {:induction false} SplitCount(s: string, sep: char)
    ensures |Split(s, sep)| == Count(s, sep) + 1
  {
    if s != [] {
      SplitCount(s[1..], sep);
      CountConcat([s[0]], s[1..], sep);
      assert [s[0]] + s[1..] == s;
      assert Count([s[0]], sep) == Count([], sep) + (if s[0] == sep then 1 else 0);
    }
  }

  /** No piece of a split holds the separator. */
  lemma {:induction false} SplitPieces(s: string, sep: char)
    ensures forall i :: 0 <= i < |Split(s, sep)| ==> sep !in Split(s, sep)[i]
  {
    if s != [] {
      SplitPieces(s[1..], sep);
      var rest := Split(s[1..], sep);
      var r := Split(s, sep);
      forall i | 0 <= i < |r|
        ensures sep !in r[i]
      {
        if s[0] == sep {
          if i > 0 {
            assert r[i] == rest[i - 1];
          }
        } else if i > 0 {
          assert r[i] == rest[i];
        } else {
          assert r[0] == [s[0]] + rest[0];
        }
      }
    }
  }

  /** Joining the pieces of a split gives back the string. */
  lemma {:induction false} JoinSplit(s: string, sep: char)
    ensures Join(Split(s, sep), sep) == s
  {
    if s != [] {
      JoinSplit(s[1..], sep);
      var rest := Split(s[1..], sep);
      if s[0] == sep {
        assert ([""] + rest)[1..] == rest;
      } else {
        var r := [[s[0]] + rest[0]] + rest[1..];
        assert r[1..] == rest[1..];
        if |rest| > 1 {
          assert Join(rest, sep) == rest[0] + [sep] + Join(rest[1..], sep);
        }
      }
      assert s == [s[0]] + s[1..];
    }
  }

  /** Splitting at one separator splits each side independently. */
  lemma {:induction false} SplitConcat(a: string, b: string, sep: char)
    ensures Split(a + [sep] + b, sep) == Split(a, sep) + Split(b, sep)
  {
    var s := a + [sep] + b;
    if a == [] {
      assert s == [sep] + b;
      assert s[1..] == b;
    } else {
      assert s[0] == a[0];
      assert s[1..] == a[1..] + [sep] + b;
      SplitConcat(a[1..], b, sep);
      var ra, rb := Split(a[1..], sep), Split(b, sep);
      if a[0] == sep {
        AppendAssoc([""], ra, rb);
      } else {
        ConsParts([a[0]] + ra[0], ra, rb);
      }
    }
  }

  /** A string without the separator splits into itself alone. */
  lemma {:induction false} SplitNoSep(s: string, sep: char)
    requires sep !in s
    ensures Split(s, sep) == [s]
  {
    if s != [] {
      assert s == [s[0]] + s[1..];
      SplitNoSep(s[1..], sep);
      var rest := Split(s[1..], sep);
      assert rest == [s[1..]];
      assert Split(s, sep) == [[s[0]] + rest[0]] + rest[1..];
      assert rest[1..] == [];
    }
  }

  /** Splitting a join gives back the parts, when no part holds the separator. */
  lemma {:induction false} SplitJoin(parts: seq<string>, sep: char)
    requires |parts| >= 1
    requires forall i :: 0 <= i < |parts| ==> sep !in parts[i]
    ensures Split(Join(parts, sep), sep) == parts
  {
    SplitNoSep(parts[0], sep);
    if |parts| > 1 {
      SplitJoin(parts[1..], sep);
      SplitConcat(parts[0], Join(parts[1..], sep), sep);
      assert parts == [parts[0]] + parts[1..];
    }
  }

  /** Joining a leading part prepends that part and a separator. */
  lemma JoinCons(p: string, parts: seq<string>, sep: char)
    requires |parts| >= 1
    ensures Join([p] + parts, sep) == p + [sep] + Join(parts, sep)
  {
    assert ([p] + parts)[1..] == parts;
  }

  /** Joining one more part at the end appends a separator and that part. */
  lemma {:induction false} JoinSnoc(parts: seq<string>, p: string, sep: char)
    requires |parts| >= 1
    ensures Join(parts + [p], sep) == Join(parts, sep) + [sep] + p
  {
    var all := parts + [p];
    assert all[0] == parts[0];
    if |parts| == 1 {
      assert all[1..] == [p];
    } else {
      JoinSnoc(parts[1..], p, sep);
      assert all[1..] == parts[1..] + [p];
    }
  }

  /** A join starts with its first part. */
  lemma JoinStartsWith(parts: seq<string>, sep: char)
    requires |parts| >= 1
    ensures StartsWith(Join(parts, sep), parts[0])
  {
  }

  /** A join ends with its last part. */
  lemma JoinEndsWith(parts: seq<string>, sep: char)
    requires |parts| >= 1
    ensures EndsWith(Join(parts, sep), parts[|parts| - 1])
  {
    if |parts| > 1 {
      var n := |parts| - 1;
      JoinSnoc(parts[..n], parts[n], sep);
      assert parts[..n] + [parts[n]] == parts;
    }
  }

  /** A join starts with the first character of its first part. */
  lemma JoinFirstChar(ls: seq<string>, sep: char)
    requires |ls| >= 1 && ls[0] != []
    ensures Join(ls, sep) != [] && Join(ls, sep)[0] == ls[0][0]
  {
  }

  /** A join ends with the last character of its last part. */
  lemma {:induction false} JoinLastChar(ls: seq<string>, sep: char)
    requires |ls| >= 1 && ls[|ls| - 1] != []
    ensures Join(ls, sep) != []
    ensures Join(ls, sep)[|Join(ls, sep)| - 1] == ls[|ls| - 1][|ls[|ls| - 1]| - 1]
  {
    if |ls| > 1 {
      JoinLastChar(ls[1..], sep);
      assert ls[1..][|ls| - 2] == ls[|ls| - 1];
    }
  }

  /** A join whose first and last characters are not whitespace is non-empty and trimmed. */
  lemma JoinTrimmed(ls: seq<string>, sep: char)
    requires |ls| >= 1 && ls[0] != [] && ls[|ls| - 1] != []
    requires !IsSpace(ls[0][0]) && !IsSpace(ls[|ls| - 1][|ls[|ls| - 1]| - 1])
    ensures Join(ls, sep) != [] && Trimmed(Join(ls, sep))
  {
    JoinFirstChar(ls, sep);
    JoinLastChar(ls, sep);
  }

  /**
   * `s.splitlines()` for text whose only line break is `'\n'`: one line per
   * `'\n'`-separated piece, except that a final `'\n'` ends the last line
   * instead of starting an empty one, and `""` has no lines.
   */
  function SplitLines(s: string): (r: seq<string>)
    ensures s == [] <==> r == []
    ensures forall i :: 0 <= i < |r| ==> '\n' !in r[i]
  {
    if s == [] then []
    else if s[|s| - 1] == '\n' then
      SplitPieces(s[..|s| - 1], '\n');
      Split(s[..|s| - 1], '\n')
    else
      SplitPieces(s, '\n');
      Split(s, '\n')
  }

  /** `'\n'.join(s.splitlines())` is `s` without one trailing `'\n'`. */
  lemma JoinSplitLines(s: string)
    ensures s != [] && s[|s| - 1] == '\n' ==> Join(SplitLines(s), '\n') == s[..|s| - 1]
    ensures (s == [] || s[|s| - 1] != '\n') ==> Join(SplitLines(s), '\n') == s
  {
    if s != [] {
      if s[|s| - 1] == '\n' {
        JoinSplit(s[..|s| - 1], '\n');
      } else {
        JoinSplit(s, '\n');
      }
    }
  }

  /** Lines without `'\n'` whose join does not end in `'\n'` come back from `splitlines()`. */
  lemma SplitLinesJoin(ls: seq<string>)
    requires forall i :: 0 <= i < |ls| ==> '\n' !in ls[i]
    requires |ls| >= 1 && ls[|ls| - 1] != []
    ensures SplitLines(Join(ls, '\n')) == ls
  {
    JoinLastChar(ls, '\n');
    var last := ls[|ls| - 1];
    assert last[|last| - 1] in last;
    SplitJoin(ls, '\n');
  }

  // ---------------------------------------------------------------------------
  // words: `s.split()` with no argument

  /** Length of the run of non-whitespace characters that starts `s`. */
  function WordLen(s: string): (n: nat)
    ensures n <= |s|
    ensures NoSpace(s[..n])
    ensures n < |s| ==> IsSpace(s[n])
  {
    if |s| == 0 || IsSpace(s[0]) then 0 else 1 + WordLen(s[1..])
  }

  /** `s.split()`: the maximal runs of non-whitespace characters, in order. */
  function Words(s: string): (r: seq<string>)
    ensures forall i :: 0 <= i < |r| ==> r[i] != [] && NoSpace(r[i])
    decreases |s|
  {
    if |s| == 0 then []
    else if IsSpace(s[0]) then Words(s[1..])
    else
      var n := WordLen(s);
      [s[..n]] + Words(s[n..])
  }

  /** A non-empty string without whitespace is a single word. */
  lemma WordsOfWord(w: string)
    requires w != [] && NoSpace(w)
    ensures Words(w) == [w]
  {
    assert WordLen(w) == |w|;
    assert w[..|w|] == w;
    assert w[|w|..] == [];
  }

  /** The first word of `a + t` is the first word of `a`, when `t` starts with whitespace. */
  lemma {:induction false} WordLenPrefix(a: string, t: string)
    requires t != [] && IsSpace(t[0])
    ensures WordLen(a + t) == WordLen(a)
    decreases |a|
  {
    if |a| == 0 {
      assert a + t == t;
    } else if !IsSpace(a[0]) {
      assert (a + t)[0] == a[0];
      assert (a + t)[1..] == a[1..] + t;
      WordLenPrefix(a[1..], t);
    } else {
      assert (a + t)[0] == a[0];
    }
  }

  /** Whitespace between two strings separates their words. */
  lemma {:induction false} WordsConcatSpace(a: string, b: string)
    ensures Words(a + [' '] + b) == Words(a) + Words(b)
    decreases |a|
  {
    var s := a + [' '] + b;
    if |a| == 0 {
      assert s == [' '] + b;
      assert s[1..] == b;
    } else if IsSpace(a[0]) {
      assert s[0] == a[0];
      assert s[1..] == a[1..] + [' '] + b;
      WordsConcatSpace(a[1..], b);
    } else {
      assert s[0] == a[0];
      var n := WordLen(a);
      assert s == a + ([' '] + b);
      WordLenPrefix(a, [' '] + b);
      assert WordLen(s) == n;
      assert Words(s) == [s[..n]] + Words(s[n..]);
      assert s[..n] == a[..n];
      assert s[n..] == a[n..] + [' '] + b;
      WordsConcatSpace(a[n..], b);
      assert Words(a) == [a[..n]] + Words(a[n..]);
      AppendAssoc([a[..n]], Words(a[n..]), Words(b));
    }
  }

  /** Words joined by single spaces split back into the same words. */
  lemma {:induction false} WordsJoin(ws: seq<string>)
    requires forall i :: 0 <= i < |ws| ==> ws[i] != [] && NoSpace(ws[i])
    ensures Words(Join(ws, ' ')) == ws
  {
    if |ws| == 1 {
      WordsOfWord(ws[0]);
    } else if |ws| > 1 {
      WordsJoin(ws[1..]);
      WordsConcatSpace(ws[0], Join(ws[1..], ' '));
      WordsOfWord(ws[0]);
      assert ws == [ws[0]] + ws[1..];
    }
  }

  /** Trailing whitespace does not lengthen the first word. */
  lemma {:induction false} WordLenTrailingSpace(a: string, w: string)
    requires AllSpace(w)
    ensures WordLen(a + w) == WordLen(a)
    decreases |a|
  {
    if |a| == 0 {
      assert a + w == w;
    } else {
      assert (a + w)[0] == a[0];
      if !IsSpace(a[0]) {
        assert (a + w)[1..] == a[1..] + w;
        WordLenTrailingSpace(a[1..], w);
      }
    }
  }

  /** Whitespace alone has no words. */
  lemma {:induction false} WordsAllSpace(w: string)
    requires AllSpace(w)
    ensures Words(w) == []
    decreases |w|
  {
    if |w| > 0 {
      WordsAllSpace(w[1..]);
    }
  }

  /** Trailing whitespace adds no word. */
  lemma {:induction false} WordsTrailingSpace(a: string, w: string)
    requires AllSpace(w)
    ensures Words(a + w) == Words(a)
    decreases |a|
  {
    var s := a + w;
    if |a| == 0 {
      assert s == w;
      WordsAllSpace(w);
    } else if IsSpace(a[0]) {
      assert s[0] == a[0];
      assert s[1..] == a[1..] + w;
      WordsTrailingSpace(a[1..], w);
    } else {
      assert s[0] == a[0];
      var n := WordLen(a);
      WordLenTrailingSpace(a, w);
      assert s[..n] == a[..n];
      assert s[n..] == a[n..] + w;
      WordsTrailingSpace(a[n..], w);
    }
  }

  /** Leading whitespace adds no word. */
  lemma {:induction false} WordsLStrip(s: string)
    ensures Words(LStrip(s)) == Words(s)
    decreases |s|
  {
    if |s| > 0 && IsSpace(s[0]) {
      WordsLStrip(s[1..]);
    }
  }

  /** `s.strip().split()` is `s.split()`: whitespace at the ends separates no words. */
  lemma WordsStrip(s: string)
    ensures Words(Strip(s)) == Words(s)
  {
    var l := LStrip(s);
    WordsLStrip(s);
    RStripSpec(l);
    var r := RStrip(l);
    assert l == r + l[|r|..];
    WordsTrailingSpace(r, l[|r|..]);
  }

  // ---------------------------------------------------------------------------
  // replace

  /** `s.replace(pat, rep)`: non-overlapping occurrences, left to right. */
  function Replace(s: string, pat: string, rep: string): string
    requires pat != []
    decreases |s|
  {
    if |s| < |pat| then s
    else if s[..|pat|] == pat then rep + Replace(s[|pat|..], pat, rep)
    else [s[0]] + Replace(s[1..], pat, rep)
  }

  /** Replacing a pattern that has a character absent from `s` changes nothing. */
  lemma {:induction false} ReplaceAbsent(s: string, pat: string, rep: string, c: char)
    requires pat != [] && c in pat && c !in s
    ensures Replace(s, pat, rep) == s
    decreases |s|
  {
    if |s| >= |pat| {
      assert s[..|pat|] != pat by {
        var k :| 0 <= k < |pat| && pat[k] == c;
        assert s[k] != c;
      }
      ReplaceAbsent(s[1..], pat, rep, c);
    }
  }
  // ---------------------------------------------------------------------------
  // runs of one character

  /** No three consecutive copies of `c`: for `'`'`, no Markdown code fence. */
  predicate NoTriple(s: string, c: char) {
    forall i :: 0 <= i < |s| - 2 ==> !(s[i] == c && s[i + 1] == c && s[i + 2] == c)
  }

  /** The number of copies of `c` that `s` opens with. */
  function Lead(s: string, c: char): nat {
    if s != [] && s[0] == c then 1 + Lead(s[1..], c) else 0
  }

  /** A string without `c` has no run of it. */
  lemma NoTripleAbsent(s: string, c: char)
    requires c !in s
    ensures NoTriple(s, c)
  {
  }

  /** Both sides of a concatenation without a run have none. */
  lemma NoTripleParts(a: string, b: string, c: char)
    requires NoTriple(a + b, c)
    ensures NoTriple(a, c) && NoTriple(b, c)
  {
    var s := a + b;
    forall i | 0 <= i < |a| - 2
      ensures !(a[i] == c && a[i + 1] == c && a[i + 2] == c)
    {
      assert s[i] == a[i] && s[i + 1] == a[i + 1] && s[i + 2] == a[i + 2];
    }
    forall i | 0 <= i < |b| - 2
      ensures !(b[i] == c && b[i + 1] == c && b[i + 2] == c)
    {
      var j := |a| + i;
      assert s[j] == b[i] && s[j + 1] == b[i + 1] && s[j + 2] == b[i + 2];
    }
  }

  /** Two strings without a run, one side not touching the other with `c`, concatenate without a run. */
  lemma NoTripleConcat(a: string, b: string, c: char)
    requires NoTriple(a, c) && NoTriple(b, c)
    requires a == [] || b == [] || a[|a| - 1] != c || b[0] != c
    ensures NoTriple(a + b, c)
  {
    var s := a + b;
    forall i | 0 <= i < |s| - 2
      ensures !(s[i] == c && s[i + 1] == c && s[i + 2] == c)
    {
      if i + 2 < |a| {
        assert s[i] == a[i] && s[i + 1] == a[i + 1] && s[i + 2] == a[i + 2];
      } else if i >= |a| {
        assert s[i] == b[i - |a|] && s[i + 1] == b[i - |a| + 1] && s[i + 2] == b[i - |a| + 2];
      } else {
        assert s[|a| - 1] == a[|a| - 1] && s[|a|] == b[0];
      }
    }
  }

  /** A slice of a string without a run has none. */
  lemma NoTripleSlice(s: string, lo: nat, hi: nat, c: char)
    requires lo <= hi <= |s| && NoTriple(s, c)
    ensures NoTriple(s[lo..hi], c)
  {
    assert s == s[..lo] + (s[lo..hi] + s[hi..]);
    NoTripleParts(s[..lo], s[lo..hi] + s[hi..], c);
    NoTripleParts(s[lo..hi], s[hi..], c);
  }

  /** `strip()` creates no run. */
  lemma NoTripleStrip(s: string, c: char)
    requires NoTriple(s, c)
    ensures NoTriple(Strip(s), c)
  {
    var l := LStrip(s);
    LStripSpec(s);
    NoTripleSlice(s, |s| - |l|, |s|, c);
    RStripSpec(l);
    NoTripleSlice(l, 0, |RStrip(l)|, c);
  }

  /** Parts without a run, joined by another character, give a join without a run. */
  lemma {:induction false} NoTripleJoin(parts: seq<string>, sep: char, c: char)
    requires sep != c
    requires forall i :: 0 <= i < |parts| ==> NoTriple(parts[i], c)
    ensures NoTriple(Join(parts, sep), c)
  {
    if |parts| >= 2 {
      NoTripleJoin(parts[1..], sep, c);
      NoTripleAbsent([sep], c);
      NoTripleConcat(parts[0], [sep], c);
      NoTripleConcat(parts[0] + [sep], Join(parts[1..], sep), c);
    }
  }

  /** Every part of a join without a run has none. */
  lemma {:induction false} JoinNoTriple(parts: seq<string>, sep: char, c: char)
    requires NoTriple(Join(parts, sep), c)
    ensures forall i :: 0 <= i < |parts| ==> NoTriple(parts[i], c)
  {
    if |parts| >= 2 {
      NoTripleParts(parts[0] + [sep], Join(parts[1..], sep), c);
      NoTripleParts(parts[0], [sep], c);
      JoinNoTriple(parts[1..], sep, c);
      assert forall i :: 1 <= i < |parts| ==> parts[i] == parts[1..][i - 1];
    }
  }

  /** Every piece of a split of a string without a run has none. */
  lemma SplitNoTriple(s: string, sep: char, c: char)
    requires NoTriple(s, c)
    ensures forall i :: 0 <= i < |Split(s, sep)| ==> NoTriple(Split(s, sep)[i], c)
  {
    JoinSplit(s, sep);
    JoinNoTriple(Split(s, sep), sep, c);
  }

  /** A string that opens with `[c, c]` has at least two leading copies of `c`. */
  lemma LeadThree(s: string, c: char)
    requires |s| >= 2 && s[0] == c && s[1] == c
    ensures Lead(s, c) >= 2
  {
    assert s[1..][0] == s[1];
  }

  /** A string with three or more leading copies of `c` opens with `[c, c, c]`. */
  lemma LeadTriple(s: string, c: char)
    requires Lead(s, c) >= 3
    ensures |s| >= 3 && s[..3] == [c, c, c]
  {
    var s1 := s[1..];
    assert Lead(s1, c) >= 2;
    var s2 := s1[1..];
    assert Lead(s2, c) >= 1;
    assert s[0] == c && s1[0] == c && s2[0] == c;
    assert s[1] == s1[0] && s[2] == s2[0];
  }

  /** A string that does not open with `[c, c]` gets no run from one character put in front. */
  lemma NoTripleCons(x: char, t: string, c: char)
    requires NoTriple(t, c)
    requires !(|t| >= 2 && t[0] == c && t[1] == c)
    ensures NoTriple([x] + t, c)
  {
    var s := [x] + t;
    forall i | 0 <= i < |s| - 2
      ensures !(s[i] == c && s[i + 1] == c && s[i + 2] == c)
    {
      assert s[i + 1] == t[i] && s[i + 2] == t[i + 1];
      if i > 0 {
        assert s[i] == t[i - 1];
      }
    }
  }

  /** Removing a leading `[c, c, c]` takes three from the leading run. */
  lemma ReplaceTripleMatch(s: string, c: char)
    requires |s| >= 3 && s[..3] == [c, c, c]
    ensures Replace(s, [c, c, c], "") == Replace(s[3..], [c, c, c], "")
    ensures Lead(s, c) == 3 + Lead(s[3..], c)
  {
    var pat := [c, c, c];
    var rest := Replace(s[3..], pat, "");
    assert s[..|pat|] == pat;
    assert Replace(s, pat, "") == "" + rest;
    assert "" + rest == rest;
    LeadDrop3(s, c);
  }

  /** Three leading copies of `c` dropped leave a run three shorter. */
  lemma LeadDrop3(s: string, c: char)
    requires |s| >= 3 && s[..3] == [c, c, c]
    ensures Lead(s, c) == 3 + Lead(s[3..], c)
  {
    var s1 := s[1..];
    var s2 := s1[1..];
    var s3 := s2[1..];
    assert s3 == s[3..];
    assert s[0] == c && s1[0] == c && s2[0] == c;
    assert Lead(s2, c) == 1 + Lead(s3, c);
    assert Lead(s1, c) == 1 + Lead(s2, c);
  }

  /** A first character that does not start `[c, c, c]` is kept. */
  lemma ReplaceTripleSkip(s: string, c: char)
    requires |s| >= 3 && s[..3] != [c, c, c]
    ensures Replace(s, [c, c, c], "") == [s[0]] + Replace(s[1..], [c, c, c], "")
    ensures s[0] == c ==> Lead(s, c) < 3
  {
    if Lead(s, c) >= 3 {
      LeadTriple(s, c);
    }
  }

  /** One character in front of a text without a run, leading with fewer than two copies of it. */
  lemma LeadCons(x: char, t: string, c: char)
    requires NoTriple(t, c)
    requires x == c ==> Lead(t, c) < 2
    ensures NoTriple([x] + t, c)
    ensures Lead([x] + t, c) == if x == c then 1 + Lead(t, c) else 0
  {
    if x == c {
      if |t| >= 2 && t[0] == c && t[1] == c {
        LeadThree(t, c);
      }
      NoTripleCons(x, t, c);
    } else {
      NoTripleAbsent([x], c);
      NoTripleConcat([x], t, c);
    }
    assert ([x] + t)[1..] == t;
  }

  /**
   * `s.replace(ccc, "")` leaves no run of three copies of `c`, and opens with
   * as many copies as `s` when `s` opens with fewer than three.
   */
  lemma {:induction false} ReplaceTriple(s: string, c: char)
    ensures NoTriple(Replace(s, [c, c, c], ""), c)
    ensures Lead(Replace(s, [c, c, c], ""), c) < 3
    ensures Lead(s, c) < 3 ==> Lead(Replace(s, [c, c, c], ""), c) == Lead(s, c)
    decreases |s|
  {
    if |s| < 3 {
      if Lead(s, c) >= 3 {
        LeadTriple(s, c);
      }
    } else if s[..3] == [c, c, c] {
      ReplaceTripleMatch(s, c);
      ReplaceTriple(s[3..], c);
    } else {
      ReplaceTripleSkip(s, c);
      ReplaceTriple(s[1..], c);
      LeadCons(s[0], Replace(s[1..], [c, c, c], ""), c);
    }
  }
}
