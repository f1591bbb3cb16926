/**
 * Generic sequence scans used by the recognizer: filtering, and the
 * backward scan over a trailing run of elements that are either kept or
 * skipped. The line tests they are instantiated with are defined elsewhere;
 * here they are arbitrary predicates.
 */
module Seqs {
  import opened Wrappers

  /** The elements of `xs` satisfying `keep`, in order. */
  function Filter<T>(xs: seq<T>, keep: T -> bool): (r: seq<T>)
    ensures |r| <= |xs|
    ensures forall i :: 0 <= i < |r| ==> keep(r[i])
  {
    if xs == [] then []
    else Filter(xs[..|xs| - 1], keep) + (if keep(xs[|xs| - 1]) then [xs[|xs| - 1]] else [])
  }

  /** The values `f` gives for the elements of `xs`, skipping those it gives none for, in order. */
  function FilterMap<A, B>(xs: seq<A>, f: A -> Option<B>): (r: seq<B>)
    ensures |r| <= |xs|
  {
    if xs == [] then []
    else
      var y := f(xs[|xs| - 1]);
      FilterMap(xs[..|xs| - 1], f) + (if y.Some? then [y.value] else [])
  }

  /** When `f` gives a value for every element, those values are the whole result. */
  lemma {:induction false} FilterMapAll<A, B>(xs: seq<A>, ys: seq<B>, f: A -> Option<B>)
    requires |xs| == |ys|
    requires forall i :: 0 <= i < |ys| ==> f(xs[i]) == Some(ys[i])
    ensures FilterMap(xs, f) == ys
  {
    if ys != [] {
      var n := |ys| - 1;
      FilterMapAll(xs[..n], ys[..n], f);
      assert ys == ys[..n] + [ys[n]];
    }
  }

  /** Of three elements, a kept middle one between two dropped ones is all that remains. */
  lemma FilterMiddle<T>(xs: seq<T>, keep: T -> bool)
    requires |xs| == 3 && !keep(xs[0]) && keep(xs[1]) && !keep(xs[2])
    ensures Filter(xs, keep) == [xs[1]]
  {
    var ys := xs[..2];
    var zs := ys[..1];
    assert zs[..0] == [];
    assert Filter(zs, keep) == [];
    assert Filter(ys, keep) == [xs[1]];
  }

  /** Moving a finished prefix out of a three-part concatenation. */
  lemma Regroup<T>(d: seq<T>, h: seq<T>, c: T, r: seq<T>)
    ensures (d + h + [c]) + r == d + (h + [c] + r)
  {
  }

  /** The whole of a sequence, as a slice and after an empty prefix. */
  lemma WholeSlice<T>(xs: seq<T>)
    ensures xs[0..] == xs && [] + xs == xs
  {
  }

  /** Filtering keeps a sequence whose every element is kept. */
  lemma {:induction false} FilterAll<T>(xs: seq<T>, keep: T -> bool)
    requires forall i :: 0 <= i < |xs| ==> keep(xs[i])
    ensures Filter(xs, keep) == xs
  {
    if xs != [] {
      FilterAll(xs[..|xs| - 1], keep);
      assert xs[..|xs| - 1] + [xs[|xs| - 1]] == xs;
    }
  }

  /** Inserting a dropped element anywhere does not change the filtered sequence. */
  lemma FilterInsertDropped<T>(a: seq<T>, x: T, b: seq<T>, keep: T -> bool)
    requires !keep(x)
    ensures Filter(a + [x] + b, keep) == Filter(a + b, keep)
  {
    FilterConcat(a + [x], b, keep);
    FilterConcat(a, [x], keep);
    assert [x][..0] == [];
    assert Filter([x], keep) == [];
    FilterConcat(a, b, keep);
  }

  /** A dropped element between a kept prefix and a filtered remainder. */
  lemma FilterAround<T>(h: seq<T>, x: T, rest: seq<T>, tail: seq<T>, keep: T -> bool)
    requires !keep(x) && Filter(h, keep) == h && Filter(rest, keep) == tail
    ensures Filter(h + [x] + rest, keep) == h + tail
  {
    FilterInsertDropped(h, x, rest, keep);
    FilterConcat(h, rest, keep);
  }

  /** Every element of the filtered sequence comes from the input. */
  lemma {:induction false} FilterSubset<T>(xs: seq<T>, keep: T -> bool)
    ensures forall x :: x in Filter(xs, keep) ==> x in xs && keep(x)
  {
    if xs != [] {
      FilterSubset(xs[..|xs| - 1], keep);
      assert forall x :: x in xs[..|xs| - 1] ==> x in xs;
    }
  }

  /** Filtering distributes over concatenation. */
  lemma {:induction false} FilterConcat<T>(a: seq<T>, b: seq<T>, keep: T -> bool)
    ensures Filter(a + b, keep) == Filter(a, keep) + Filter(b, keep)
  {
    if b == [] {
      assert a + b == a;
    } else {
      assert (a + b)[..|a + b| - 1] == a + b[..|b| - 1];
      FilterConcat(a, b[..|b| - 1], keep);
    }
  }

  /** Filtering leaves nothing exactly when no element is kept. */
  lemma {:induction false} FilterNone<T>(xs: seq<T>, keep: T -> bool)
    ensures Filter(xs, keep) == [] <==> forall i :: 0 <= i < |xs| ==> !keep(xs[i])
  {
    if xs != [] {
      var init := xs[..|xs| - 1];
      FilterNone(init, keep);
      forall i | 0 <= i < |init|
        ensures init[i] == xs[i]
      {
      }
    }
  }

  /** The start of the longest trailing run of elements that are kept or skipped. */
  function RunStart<T>(xs: seq<T>, keep: T -> bool, skip: T -> bool): (k: nat)
    ensures k <= |xs|
  {
    if xs == [] then 0
    else
      var last := xs[|xs| - 1];
      if keep(last) || skip(last) then RunStart(xs[..|xs| - 1], keep, skip) else |xs|
  }

  /** `RunStart` finds exactly the maximal trailing run. */
  lemma {:induction false} RunStartSpec<T>(xs: seq<T>, keep: T -> bool, skip: T -> bool)
    ensures var k := RunStart(xs, keep, skip);
      && (forall i :: k <= i < |xs| ==> keep(xs[i]) || skip(xs[i]))
      && (k > 0 ==> !keep(xs[k - 1]) && !skip(xs[k - 1]))
  {
    if xs != [] {
      var init := xs[..|xs| - 1];
      var last := xs[|xs| - 1];
      if keep(last) || skip(last) {
        RunStartSpec(init, keep, skip);
        var k := RunStart(init, keep, skip);
        forall i | k <= i < |xs|
          ensures keep(xs[i]) || skip(xs[i])
        {
          if i < |init| {
            assert xs[i] == init[i];
          }
        }
        if k > 0 {
          assert xs[k - 1] == init[k - 1];
        }
      }
    }
  }

  /**
   * The backward scan: walking from the end, kept elements are collected,
   * skipped ones stepped over, and the scan stops at the first other one.
   * The result is in the input's order.
   */
  function ScanBack<T>(xs: seq<T>, keep: T -> bool, skip: T -> bool): seq<T> {
    if xs == [] then []
    else
      var last := xs[|xs| - 1];
      if keep(last) then ScanBack(xs[..|xs| - 1], keep, skip) + [last]
      else if skip(last) then ScanBack(xs[..|xs| - 1], keep, skip)
      else []
  }

  /** The scan collects exactly the kept elements of the maximal trailing run. */
  lemma {:induction false} ScanBackIsRun<T>(xs: seq<T>, keep: T -> bool, skip: T -> bool)
    ensures ScanBack(xs, keep, skip) == Filter(xs[RunStart(xs, keep, skip)..], keep)
  {
    if xs != [] {
      var init := xs[..|xs| - 1];
      var last := xs[|xs| - 1];
      var k := RunStart(xs, keep, skip);
      if keep(last) || skip(last) {
        ScanBackIsRun(init, keep, skip);
        var run := xs[k..];
        assert run[..|run| - 1] == init[k..];
        assert run[|run| - 1] == last;
      } else {
        assert xs[k..] == [];
      }
    }
  }

  /** `i` clamped into `[0, n]`. */
  function Clamp(i: int, n: nat): (r: nat)
    ensures r <= n
    ensures 0 <= i <= n ==> r == i
  {
    if i < 0 then 0 else if i > n then n else i
  }

  /**
   * Python's `xs[a:b]`: a negative bound counts from the end, both bounds are
   * then clamped to the sequence, and crossed bounds give the empty slice.
   */
  function PySlice<T>(xs: seq<T>, a: int, b: int): (r: seq<T>)
    ensures |r| <= |xs|
  {
    var lo := Clamp(if a < 0 then a + |xs| else a, |xs|);
    var hi := Clamp(if b < 0 then b + |xs| else b, |xs|);
    if lo < hi then xs[lo..hi] else []
  }

  /** With bounds already inside the sequence, a Python slice is a Dafny slice. */
  lemma PySliceInRange<T>(xs: seq<T>, a: int, b: int)
    requires 0 <= a && 0 <= b <= |xs|
    ensures PySlice(xs, a, b) == if a < b then xs[a..b] else []
  {
  }

  /** Whether Python's `xs[i]` is defined for a list of length `n`: `-n <= i < n`. */
  predicate InRange(i: int, n: nat) {
    -(n as int) <= i < n
  }

  /** The position Python's `xs[i]` reads: a negative index counts from the end. */
  function PyIndex(i: int, n: nat): (r: nat)
    requires InRange(i, n)
    ensures r < n
    ensures 0 <= i ==> r == i
  {
    if i < 0 then i + n else i
  }

  /** The position `list.insert(i, x)` puts `x` at: a negative index counts from the end, then it is clamped. */
  function InsertIndex(i: int, n: nat): (r: nat)
    ensures r <= n
    ensures 0 <= i <= n ==> r == i
  {
    Clamp(if i < 0 then i + n else i, n)
  }
}
