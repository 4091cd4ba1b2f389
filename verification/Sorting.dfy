/**
  Sorting by natural merging, on sequences: what `list_sort` in `lib/kernel/list.c`
  computes, told apart from how it rewires the list.  Elements are compared by a
  strict weak order on the set `xs` they are taken from.
 */
module Sorting {

  /** `less` orders the elements of `xs` strictly, and incomparability is transitive. */
  ghost predicate StrictWeak<T>(less: (T, T) -> bool, xs: set<T>) {
    && (forall x :: x in xs ==> !less(x, x))
    && (forall x, y, z :: x in xs && y in xs && z in xs && less(x, y) && less(y, z) ==> less(x, z))
    && (forall x, y, z :: x in xs && y in xs && z in xs && !less(x, y) && !less(y, z) ==> !less(x, z))
  }

  ghost predicate From<T>(s: seq<T>, xs: set<T>) {
    forall i :: 0 <= i < |s| ==> s[i] in xs
  }

  ghost predicate Sorted<T>(less: (T, T) -> bool, s: seq<T>) {
    forall i, j :: 0 <= i < j < |s| ==> !less(s[j], s[i])
  }

  predicate Same<T>(less: (T, T) -> bool, x: T, y: T) { !less(x, y) && !less(y, x) }

  /** The elements of `s` that compare equal to `x`, in order. */
  ghost function Class<T>(less: (T, T) -> bool, s: seq<T>, x: T): seq<T> {
    if s == [] then [] else (if Same(less, s[0], x) then [s[0]] else []) + Class(less, s[1..], x)
  }

  /** `t` rearranges `s` and keeps elements that compare equal in order. */
  ghost predicate Stable<T>(less: (T, T) -> bool, xs: set<T>, s: seq<T>, t: seq<T>) {
    multiset(t) == multiset(s) && forall x :: x in xs ==> Class(less, t, x) == Class(less, s, x)
  }

  // ----- Classes -----

  lemma ClassCons<T>(less: (T, T) -> bool, a: T, s: seq<T>, x: T)
    ensures Class(less, [a] + s, x) == (if Same(less, a, x) then [a] else []) + Class(less, s, x)
  {
    assert ([a] + s)[1..] == s;
  }

  lemma {:induction false} ClassConcat<T>(less: (T, T) -> bool, a: seq<T>, b: seq<T>, x: T)
    ensures Class(less, a + b, x) == Class(less, a, x) + Class(less, b, x)
  {
    if a == [] {
      assert a + b == b;
    } else {
      hide Class;
      var r := a[1..];
      assert a == [a[0]] + r && a + b == [a[0]] + (r + b);
      ClassConcat(less, r, b, x);
      ClassCons(less, a[0], r, x);
      ClassCons(less, a[0], r + b, x);
    }
  }

  lemma {:induction false} ClassEmpty<T>(less: (T, T) -> bool, s: seq<T>, x: T)
    requires forall i :: 0 <= i < |s| ==> !Same(less, s[i], x)
    ensures Class(less, s, x) == []
  {
    if s != [] {
      ClassEmpty(less, s[1..], x);
    }
  }

  lemma InMultiset<T>(s: seq<T>, t: seq<T>, x: T)
    requires multiset(s) == multiset(t)
    ensures x in s <==> x in t
  {
    assert x in s <==> x in multiset(s);
    assert x in t <==> x in multiset(t);
  }

  lemma StableTrans<T>(less: (T, T) -> bool, xs: set<T>, a: seq<T>, b: seq<T>, c: seq<T>)
    requires Stable(less, xs, a, b) && Stable(less, xs, b, c)
    ensures Stable(less, xs, a, c)
  {
  }

  lemma StableLength<T>(less: (T, T) -> bool, xs: set<T>, s: seq<T>, t: seq<T>)
    requires Stable(less, xs, s, t)
    ensures |t| == |s|
  {
    assert |multiset(t)| == |multiset(s)|;
  }

  // ----- Merging -----

  /** Takes from the left unless the right is strictly less. */
  function Merge<T>(less: (T, T) -> bool, a: seq<T>, b: seq<T>): (m: seq<T>)
    ensures |m| == |a| + |b|
  {
    if a == [] then b
    else if b == [] then a
    else if !less(b[0], a[0]) then [a[0]] + Merge(less, a[1..], b)
    else [b[0]] + Merge(less, a, b[1..])
  }

  lemma MergeUnfold<T>(less: (T, T) -> bool, a: seq<T>, b: seq<T>)
    requires a != [] && b != []
    ensures !less(b[0], a[0]) ==> Merge(less, a, b) == [a[0]] + Merge(less, a[1..], b)
    ensures less(b[0], a[0]) ==> Merge(less, a, b) == [b[0]] + Merge(less, a, b[1..])
  {
  }

  lemma MergeEmpty<T>(less: (T, T) -> bool, a: seq<T>, b: seq<T>)
    requires a == [] || b == []
    ensures Merge(less, a, b) == a + b
  {
  }

  lemma {:induction false} MergeElements<T>(less: (T, T) -> bool, a: seq<T>, b: seq<T>)
    ensures multiset(Merge(less, a, b)) == multiset(a) + multiset(b)
  {
    hide Merge;
    if a == [] || b == [] {
      MergeEmpty(less, a, b);
    } else {
      MergeUnfold(less, a, b);
      if !less(b[0], a[0]) {
        MergeElements(less, a[1..], b);
        assert a == [a[0]] + a[1..];
      } else {
        MergeElements(less, a, b[1..]);
        assert b == [b[0]] + b[1..];
      }
    }
  }

  /** An element that is not above the first of two sorted sequences is not above any element of their merge. */
  lemma MergeAbove<T>(less: (T, T) -> bool, xs: set<T>, x: T, a: seq<T>, b: seq<T>)
    requires StrictWeak(less, xs) && From(a, xs) && From(b, xs) && x in xs
    requires Sorted(less, a) && Sorted(less, b)
    requires (a != [] ==> !less(a[0], x)) && (b != [] ==> !less(b[0], x))
    ensures forall i :: 0 <= i < |Merge(less, a, b)| ==> !less(Merge(less, a, b)[i], x)
  {
    var m := Merge(less, a, b);
    MergeElements(less, a, b);
    forall i | 0 <= i < |m| ensures !less(m[i], x) {
      assert m[i] in multiset(m);
      if m[i] in a {
        var j :| 0 <= j < |a| && a[j] == m[i];
        assert j > 0 ==> !less(a[j], a[0]);
      } else {
        assert m[i] in multiset(b);
        var j :| 0 <= j < |b| && b[j] == m[i];
        assert j > 0 ==> !less(b[j], b[0]);
      }
    }
  }

  lemma {:induction false} MergeSorted<T>(less: (T, T) -> bool, xs: set<T>, a: seq<T>, b: seq<T>)
    requires StrictWeak(less, xs) && From(a, xs) && From(b, xs)
    requires Sorted(less, a) && Sorted(less, b)
    ensures Sorted(less, Merge(less, a, b))
  {
    if a != [] && b != [] {
      if !less(b[0], a[0]) {
        MergeSorted(less, xs, a[1..], b);
        MergeAbove(less, xs, a[0], a[1..], b);
      } else {
        MergeSorted(less, xs, a, b[1..]);
        assert !less(a[0], b[0]);
        MergeAbove(less, xs, b[0], a, b[1..]);
      }
    }
  }

  /** If the right starts strictly below the left, nothing on the left compares equal to it. */
  lemma LeftAbove<T>(less: (T, T) -> bool, xs: set<T>, a: seq<T>, y: T, x: T)
    requires StrictWeak(less, xs) && From(a, xs) && y in xs && x in xs && a != []
    requires Sorted(less, a) && less(y, a[0]) && Same(less, y, x)
    ensures Class(less, a, x) == []
  {
    hide Class;
    forall i | 0 <= i < |a| ensures !Same(less, a[i], x) {
      assert i > 0 ==> !less(a[i], a[0]);
    }
    ClassEmpty(less, a, x);
  }

  /** Merging keeps equal elements in order, those of the left first. */
  lemma {:induction false} MergeClass<T>(less: (T, T) -> bool, xs: set<T>, a: seq<T>, b: seq<T>, x: T)
    requires StrictWeak(less, xs) && From(a, xs) && From(b, xs) && x in xs
    requires Sorted(less, a) && Sorted(less, b)
    ensures Class(less, Merge(less, a, b), x) == Class(less, a, x) + Class(less, b, x)
  {
    hide Merge, Class, StrictWeak;
    if a == [] || b == [] {
      MergeEmpty(less, a, b);
      ClassConcat(less, a, b, x);
    } else {
      MergeUnfold(less, a, b);
      if !less(b[0], a[0]) {
        MergeClass(less, xs, a[1..], b, x);
        ClassCons(less, a[0], a[1..], x);
        ClassCons(less, a[0], Merge(less, a[1..], b), x);
        assert a == [a[0]] + a[1..];
      } else {
        MergeClass(less, xs, a, b[1..], x);
        ClassCons(less, b[0], b[1..], x);
        ClassCons(less, b[0], Merge(less, a, b[1..]), x);
        assert b == [b[0]] + b[1..];
        if Same(less, b[0], x) {
          LeftAbove(less, xs, a, b[0], x);
        }
      }
    }
  }

  lemma MergeStable<T>(less: (T, T) -> bool, xs: set<T>, a: seq<T>, b: seq<T>)
    requires StrictWeak(less, xs) && From(a, xs) && From(b, xs)
    requires Sorted(less, a) && Sorted(less, b)
    ensures Stable(less, xs, a + b, Merge(less, a, b))
  {
    MergeElements(less, a, b);
    assert multiset(a + b) == multiset(a) + multiset(b);
    forall x | x in xs ensures Class(less, Merge(less, a, b), x) == Class(less, a + b, x) {
      MergeClass(less, xs, a, b, x);
      ClassConcat(less, a, b, x);
    }
  }

  // ----- Natural runs -----

  /** The order drops at `k`. */
  predicate Drop<T>(less: (T, T) -> bool, s: seq<T>, k: nat)
    requires 0 < k < |s|
  {
    less(s[k], s[k - 1])
  }

  /** The end of the run that starts at `i`: the first place behind it where the order drops. */
  function RunEnd<T>(less: (T, T) -> bool, s: seq<T>, i: nat): (e: nat)
    requires i < |s|
    ensures i < e <= |s|
    ensures forall k :: i < k < e ==> !Drop(less, s, k)
    ensures e < |s| ==> Drop(less, s, e)
    decreases |s| - i
  {
    if i + 1 == |s| || Drop(less, s, i + 1) then i + 1 else RunEnd(less, s, i + 1)
  }

  lemma {:induction false} RunSorted<T>(less: (T, T) -> bool, xs: set<T>, s: seq<T>)
    requires StrictWeak(less, xs) && From(s, xs)
    requires forall k :: 0 < k < |s| ==> !Drop(less, s, k)
    ensures Sorted(less, s)
  {
    if s != [] {
      var n := |s| - 1;
      forall k | 0 < k < n ensures !Drop(less, s[..n], k) {
        assert !Drop(less, s, k);
      }
      RunSorted(less, xs, s[..n]);
      forall i | 0 <= i < n ensures !less(s[n], s[i]) {
        assert n > 0 ==> !Drop(less, s, n);
        if i < n - 1 {
          assert !less(s[..n][n - 1], s[..n][i]);
        }
      }
    }
  }

  /** The number of natural runs. */
  function Runs<T>(less: (T, T) -> bool, s: seq<T>): (r: nat)
    ensures r == 0 <==> s == []
  {
    if s == [] then 0 else 1 + Runs(less, s[RunEnd(less, s, 0)..])
  }

  /** A sequence that is one run is sorted. */
  lemma OneRunSorted<T>(less: (T, T) -> bool, xs: set<T>, s: seq<T>)
    requires StrictWeak(less, xs) && From(s, xs) && Runs(less, s) <= 1
    ensures Sorted(less, s)
  {
    if s != [] {
      assert RunEnd(less, s, 0) == |s|;
      RunSorted(less, xs, s);
    }
  }

  /** Runs are counted the same from any start inside the first one. */
  lemma RunsTail<T>(less: (T, T) -> bool, s: seq<T>)
    requires |s| >= 2
    ensures Runs(less, s) == Runs(less, s[1..]) + if less(s[1], s[0]) then 1 else 0
  {
    if !less(s[1], s[0]) {
      RunEndTail(less, s, 1);
      assert s[1..][RunEnd(less, s[1..], 0)..] == s[RunEnd(less, s, 0)..];
    }
  }

  lemma {:induction false} RunEndTail<T>(less: (T, T) -> bool, s: seq<T>, i: nat)
    requires 0 < i < |s|
    ensures RunEnd(less, s, i) == RunEnd(less, s[1..], i - 1) + 1
    decreases |s| - i
  {
    if i + 1 < |s| && !Drop(less, s, i + 1) {
      RunEndTail(less, s, i + 1);
    }
  }

  /** Putting a sorted sequence in front adds at most one run. */
  lemma {:induction false} RunsConcat<T>(less: (T, T) -> bool, a: seq<T>, b: seq<T>)
    requires Sorted(less, a)
    ensures Runs(less, a + b) <= 1 + Runs(less, b)
  {
    if a == [] {
      assert a + b == b;
    } else {
      var s := a + b;
      assert s[1..] == a[1..] + b;
      if |a| == 1 {
        assert s[1..] == b;
        if b != [] {
          RunsTail(less, s);
        }
      } else {
        RunsConcat(less, a[1..], b);
        RunsTail(less, s);
        assert s[1] == a[1] && s[0] == a[0];
      }
    }
  }

  // ----- Passes -----

  /** One pass: merges the runs two by two. */
  function Pass<T>(less: (T, T) -> bool, s: seq<T>): (t: seq<T>)
    ensures |t| == |s|
  {
    if s == [] then []
    else
      var m := RunEnd(less, s, 0);
      if m == |s| then s
      else
        var e := RunEnd(less, s, m);
        Merge(less, s[..m], s[m..e]) + Pass(less, s[e..])
  }

  /** The two runs of a pair are sorted, and so is their merge. */
  lemma PairSorted<T>(less: (T, T) -> bool, xs: set<T>, s: seq<T>, m: nat, e: nat)
    requires StrictWeak(less, xs) && From(s, xs)
    requires s != [] && m == RunEnd(less, s, 0) < |s| && e == RunEnd(less, s, m)
    ensures Sorted(less, s[..m]) && Sorted(less, s[m..e]) && Sorted(less, Merge(less, s[..m], s[m..e]))
  {
    hide StrictWeak, Sorted, Merge;
    RunSlice(less, xs, s, 0, m);
    RunSlice(less, xs, s, m, e);
    assert s[0..m] == s[..m];
    MergeSorted(less, xs, s[..m], s[m..e]);
  }

  lemma RunSlice<T>(less: (T, T) -> bool, xs: set<T>, s: seq<T>, i: nat, e: nat)
    requires StrictWeak(less, xs) && From(s, xs) && i < |s| && e == RunEnd(less, s, i)
    ensures Sorted(less, s[i..e])
  {
    hide StrictWeak, Sorted, RunEnd;
    var a := s[i..e];
    forall k | 0 < k < |a| ensures !Drop(less, a, k) {
      assert !Drop(less, s, i + k);
    }
    RunSorted(less, xs, a);
  }

  /** A pass at least halves the number of runs, rounding up. */
  lemma {:induction false} PassHalves<T>(less: (T, T) -> bool, xs: set<T>, s: seq<T>)
    requires StrictWeak(less, xs) && From(s, xs)
    ensures Runs(less, Pass(less, s)) <= (Runs(less, s) + 1) / 2
  {
    hide StrictWeak, Runs, Sorted, Merge;
    if s != [] {
      var m := RunEnd(less, s, 0);
      if m < |s| {
        var e := RunEnd(less, s, m);
        PairRuns(less, s, m, e);
        PassHalves(less, xs, s[e..]);
        PairSorted(less, xs, s, m, e);
        RunsConcat(less, Merge(less, s[..m], s[m..e]), Pass(less, s[e..]));
      } else {
        OneRun(less, s);
      }
    }
  }

  lemma OneRun<T>(less: (T, T) -> bool, s: seq<T>)
    requires s != [] && RunEnd(less, s, 0) == |s|
    ensures Runs(less, s) == 1
  {
  }

  /** Skipping a pair of runs takes two off the count. */
  lemma PairRuns<T>(less: (T, T) -> bool, s: seq<T>, m: nat, e: nat)
    requires s != [] && m == RunEnd(less, s, 0) < |s| && e == RunEnd(less, s, m)
    ensures Runs(less, s) == 2 + Runs(less, s[e..])
  {
    RunEndShift(less, s, m, m);
    SliceAgain(s, m, e);
  }

  lemma SliceAgain<T>(s: seq<T>, m: nat, e: nat)
    requires m <= e <= |s|
    ensures s[m..][e - m..] == s[e..]
  {
  }

  lemma ThreeParts<T>(s: seq<T>, m: nat, e: nat)
    requires m <= e <= |s|
    ensures s == s[..m] + s[m..e] + s[e..]
  {
  }

  lemma {:induction false} RunEndShift<T>(less: (T, T) -> bool, s: seq<T>, d: nat, i: nat)
    requires d <= i < |s|
    ensures RunEnd(less, s, i) == RunEnd(less, s[d..], i - d) + d
    decreases |s| - i
  {
    if i + 1 < |s| && !Drop(less, s, i + 1) {
      RunEndShift(less, s, d, i + 1);
    }
  }

  lemma {:induction false} PassStable<T>(less: (T, T) -> bool, xs: set<T>, s: seq<T>)
    requires StrictWeak(less, xs) && From(s, xs)
    ensures Stable(less, xs, s, Pass(less, s))
  {
    hide StrictWeak, Sorted, Merge, Stable;
    if s == [] || RunEnd(less, s, 0) == |s| {
      StableRefl(less, xs, s);
    } else {
      var m := RunEnd(less, s, 0);
      var e := RunEnd(less, s, m);
      PassStable(less, xs, s[e..]);
      PairSorted(less, xs, s, m, e);
      ThreeParts(s, m, e);
      PairStable(less, xs, s[..m], s[m..e], s[e..], Pass(less, s[e..]));
    }
  }

  lemma StableRefl<T>(less: (T, T) -> bool, xs: set<T>, s: seq<T>)
    ensures Stable(less, xs, s, s)
  {
  }

  lemma PairStable<T>(less: (T, T) -> bool, xs: set<T>, a: seq<T>, b: seq<T>, c: seq<T>, rest: seq<T>)
    requires StrictWeak(less, xs) && From(a, xs) && From(b, xs)
    requires Sorted(less, a) && Sorted(less, b) && Stable(less, xs, c, rest)
    ensures Stable(less, xs, a + b + c, Merge(less, a, b) + rest)
  {
    MergeStable(less, xs, a, b);
    StableConcat(less, xs, a + b, c, Merge(less, a, b), rest);
  }

  lemma StableConcat<T>(less: (T, T) -> bool, xs: set<T>, a: seq<T>, b: seq<T>, a': seq<T>, b': seq<T>)
    requires Stable(less, xs, a, a') && Stable(less, xs, b, b')
    ensures Stable(less, xs, a + b, a' + b')
  {
    forall x | x in xs ensures Class(less, a' + b', x) == Class(less, a + b, x) {
      ClassConcat(less, a, b, x);
      ClassConcat(less, a', b', x);
    }
  }

  // ----- The whole sort -----

  /** `t` is `s` sorted stably. */
  ghost predicate StablySorted<T>(less: (T, T) -> bool, xs: set<T>, s: seq<T>, t: seq<T>) {
    Sorted(less, t) && Stable(less, xs, s, t)
  }

  /** Being sorted stably leaves no choice: there is only one such rearrangement. */
  lemma {:induction false} StableUnique<T>(less: (T, T) -> bool, xs: set<T>, t: seq<T>, u: seq<T>)
    requires StrictWeak(less, xs) && From(t, xs) && From(u, xs)
    requires Sorted(less, t) && Sorted(less, u) && Stable(less, xs, t, u)
    ensures t == u
  {
    assert |multiset(u)| == |multiset(t)|;
    if t != [] {
      FirstSame(less, xs, t, u);
      TailsStable(less, xs, t, u);
      StableUnique(less, xs, t[1..], u[1..]);
      assert t == [t[0]] + t[1..] && u == [u[0]] + u[1..];
    }
  }

  lemma TailsStable<T>(less: (T, T) -> bool, xs: set<T>, t: seq<T>, u: seq<T>)
    requires t != [] && u != [] && t[0] == u[0] && Stable(less, xs, t, u)
    ensures Stable(less, xs, t[1..], u[1..])
  {
    assert t == [t[0]] + t[1..] && u == [u[0]] + u[1..];
    assert multiset(t[1..]) == multiset(t) - multiset{t[0]};
    assert multiset(u[1..]) == multiset(u) - multiset{u[0]};
    forall x | x in xs ensures Class(less, u[1..], x) == Class(less, t[1..], x) {
      var n := if Same(less, t[0], x) then 1 else 0;
      assert Class(less, t, x)[n..] == Class(less, t[1..], x);
      assert Class(less, u, x)[n..] == Class(less, u[1..], x);
    }
  }

  /** The first elements of two stable sortings compare equal, and so are the first of the same class. */
  lemma FirstSame<T>(less: (T, T) -> bool, xs: set<T>, t: seq<T>, u: seq<T>)
    requires StrictWeak(less, xs) && From(t, xs) && From(u, xs) && t != [] && u != []
    requires Sorted(less, t) && Sorted(less, u) && Stable(less, xs, t, u)
    ensures t[0] == u[0]
  {
    InMultiset(t, u, t[0]);
    InMultiset(t, u, u[0]);
    var i :| 0 <= i < |t| && t[i] == u[0];
    var j :| 0 <= j < |u| && u[j] == t[0];
    assert !less(u[0], t[0]) && !less(t[0], u[0]);
    assert Class(less, t, t[0])[0] == t[0];
    assert Class(less, u, t[0])[0] == u[0];
  }
}
