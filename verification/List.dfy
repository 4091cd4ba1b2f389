/**
  Doubly linked lists with a head and a tail element (`lib/kernel/list.c`), and the
  natural merge sort that rewires them in place.
 */
module Lists {
  import opened Sorting

  class Elem {
    var prev: Elem?
    var next: Elem?

    constructor () {
      prev, next := null, null;
    }
  }

  /** The elements of `s`, from head to tail, are linked both ways and are all different. */
  ghost predicate Linked(s: seq<Elem>)
    reads s
  {
    |s| >= 2 && s[0].prev == null && s[|s| - 1].next == null && Chained(s)
  }

  /** The elements of `s` are linked to each other; where its ends point does not matter. */
  ghost predicate Chained(s: seq<Elem>)
    reads s
  {
    && (forall i {:trigger s[i].next} :: 0 <= i < |s| - 1 ==> s[i].next == s[i + 1])
    && (forall i {:trigger s[i].prev} :: 0 < i < |s| ==> s[i].prev == s[i - 1])
    && Distinct(s)
  }

  ghost predicate Distinct(s: seq<Elem>) {
    forall i, j :: 0 <= i < j < |s| ==> s[i] != s[j]
  }

  /** `s` with the elements from `i` up to `j` moved in front of the one at `b`. */
  ghost function Moved(s: seq<Elem>, b: nat, i: nat, j: nat): seq<Elem>
    requires i <= j <= |s| && b <= |s| && (b <= i || j <= b)
  {
    if b <= i then s[..b] + s[i..j] + s[b..i] + s[j..] else s[..i] + s[j..b] + s[i..j] + s[b..]
  }

  ghost predicate Disjoint(a: seq<Elem>, b: seq<Elem>) {
    forall k, l :: 0 <= k < |a| && 0 <= l < |b| ==> a[k] != b[l]
  }

  lemma ChainSlice(s: seq<Elem>, i: nat, j: nat)
    requires Chained(s) && i <= j <= |s|
    ensures Chained(s[i..j])
  {
  }

  lemma ChainConcat(a: seq<Elem>, b: seq<Elem>)
    requires Chained(a) && Chained(b) && a != [] && b != [] && Disjoint(a, b)
    requires a[|a| - 1].next == b[0] && b[0].prev == a[|a| - 1]
    ensures Chained(a + b)
  {
  }

  /** Takes the elements from `first` through `last`, which are at `i` up to `j`, out of the list `s`. */
  method Detach(first: Elem, last: Elem, ghost s: seq<Elem>, ghost i: nat, ghost j: nat)
    requires Linked(s) && 0 < i < j < |s| && first == s[i] && last == s[j - 1]
    modifies s[i - 1], s[j]
    ensures Linked(s[..i] + s[j..]) && Chained(s[i..j])
  {
    ghost var pre, seg, post := s[..i], s[i..j], s[j..];
    ChainSlice(s, 0, i);
    ChainSlice(s, i, j);
    ChainSlice(s, j, |s|);
    first.prev.next := last.next;
    last.next.prev := first.prev;
    assert Chained(pre) && Chained(post);
    ChainConcat(pre, post);
  }

  /** Puts the chain `seg`, from `first` through `last`, in front of `before`, which is at `b` in the list `t`. */
  method Attach(before: Elem, first: Elem, last: Elem, ghost t: seq<Elem>, ghost seg: seq<Elem>, ghost b: nat)
    requires Linked(t) && 0 < b < |t| && before == t[b]
    requires Chained(seg) && seg != [] && first == seg[0] && last == seg[|seg| - 1] && Disjoint(seg, t)
    modifies seg[0], seg[|seg| - 1], t[b - 1], t[b]
    ensures Linked(t[..b] + seg + t[b..])
  {
    ghost var pre, post := t[..b], t[b..];
    ChainSlice(t, 0, b);
    ChainSlice(t, b, |t|);
    first.prev := before.prev;
    last.next := before;
    before.prev.next := first;
    before.prev := last;
    assert Chained(pre) && Chained(seg) && Chained(post);
    ChainConcat(pre, seg);
    ChainConcat(pre + seg, post);
  }

  lemma Apart(s: seq<Elem>, i: nat, j: nat)
    requires Distinct(s) && i <= j <= |s|
    ensures var seg, t := s[i..j], s[..i] + s[j..];
            Disjoint(seg, t)
  {
    var t := s[..i] + s[j..];
    assert forall l {:trigger t[l]} :: 0 <= l < |t| ==> t[l] == s[if l < i then l else l + j - i];
  }

  lemma MovedParts(s: seq<Elem>, b: nat, i: nat, j: nat)
    requires i <= j <= |s| && b < |s| && (b < i || j <= b)
    ensures var t, b' := s[..i] + s[j..], if b < i then b else b - (j - i);
            t[..b'] + s[i..j] + t[b'..] == Moved(s, b, i, j) && t[b'] == s[b]
  {
    var t := s[..i] + s[j..];
    if b < i {
      assert t[..b] == s[..b];
      assert t[b..] == s[b..i] + s[j..];
    } else {
      var b' := b - (j - i);
      assert t[..b'] == s[..i] + s[j..b];
      assert t[b'..] == s[b..];
    }
  }

  lemma MovedEnds(s: seq<Elem>, b: nat, i: nat, j: nat)
    requires 0 < i <= j < |s| && 0 < b < |s| && (b < i || j <= b)
    ensures var m := Moved(s, b, i, j); |m| == |s| && m[0] == s[0] && m[|s| - 1] == s[|s| - 1]
    ensures i == j ==> Moved(s, b, i, j) == s
  {
    if i == j {
      if b < i {
        assert s[..b] + s[b..i] + s[j..] == s;
      } else {
        assert s[..i] + s[j..b] + s[b..] == s;
      }
    }
  }

  /** Takes the elements from `first` through `last` out and puts them back in front of `before`. */
  method Relink(before: Elem, first: Elem, last: Elem, ghost s: seq<Elem>, ghost b: nat, ghost i: nat, ghost j: nat)
    requires Linked(s) && 0 < b < |s| && 0 < i < j < |s| && (b < i || j <= b)
    requires before == s[b] && first == s[i] && last == s[j - 1]
    modifies s
    ensures Linked(Moved(s, b, i, j))
  {
    ghost var t, seg := s[..i] + s[j..], s[i..j];
    ghost var b' := if b < i then b else b - (j - i);
    assert Distinct(s);
    Apart(s, i, j);
    Detach(first, last, s, i, j);
    hide Moved, Linked, Chained, Distinct, Disjoint;
    MovedParts(s, b, i, j);
    Attach(before, first, last, t, seg, b');
  }

  // ----- Merging two neighbouring ranges in place -----

  /** `s` with its ranges `p` to `q` and `q` to `e` merged. */
  ghost function MergeAt<T>(less: (T, T) -> bool, s: seq<T>, p: nat, q: nat, e: nat): (r: seq<T>)
    requires p <= q <= e <= |s|
    ensures |r| == |s|
  {
    s[..p] + Merge(less, s[p..q], s[q..e]) + s[e..]
  }

  lemma MergeDone<T>(less: (T, T) -> bool, s: seq<T>, p: nat, q: nat, e: nat)
    requires p <= q <= e <= |s| && (p == q || q == e)
    ensures MergeAt(less, s, p, q, e) == s
  {
  }

  /** Leaving the first element of the left range where it is. */
  lemma MergeLeft<T>(less: (T, T) -> bool, s: seq<T>, p: nat, q: nat, e: nat)
    requires p < q < e <= |s| && !less(s[q], s[p])
    ensures MergeAt(less, s, p + 1, q, e) == MergeAt(less, s, p, q, e)
  {
    assert s[p..q][1..] == s[p + 1..q];
    assert s[..p + 1] == s[..p] + [s[p]];
  }

  /** The parts of `s` once the element at `q` stands in front of the one at `p`. */
  lemma MovedOne(s: seq<Elem>, p: nat, q: nat, e: nat)
    requires p < q < e <= |s|
    ensures var s' := Moved(s, p, q, q + 1);
            && |s'| == |s| && s'[..p + 1] == s[..p] + [s[q]] && s'[p + 1..q + 1] == s[p..q]
            && s'[q + 1..e] == s[q + 1..e] && s'[e..] == s[e..]
  {
  }

  lemma MovedOneAt(s: seq<Elem>, p: nat, q: nat)
    requires p < q < |s| - 1
    ensures var s' := Moved(s, p, q, q + 1);
            |s'| == |s| && s'[p + 1] == s[p] && forall k :: q < k < |s| ==> s'[k] == s[k]
  {
  }

  /** Moving the first element of the right range in front of the left one. */
  lemma MergeRight(less: (Elem, Elem) -> bool, s: seq<Elem>, p: nat, q: nat, e: nat)
    requires p < q < e <= |s| && less(s[q], s[p])
    ensures var s' := Moved(s, p, q, q + 1);
            |s'| == |s| && MergeAt(less, s', p + 1, q + 1, e) == MergeAt(less, s, p, q, e)
  {
    hide Moved;
    MovedOne(s, p, q, e);
    TakeRight(less, s[p..q], s[q..e]);
    assert s[q..e][1..] == s[q + 1..e];
  }

  lemma TakeRight<T>(less: (T, T) -> bool, a: seq<T>, b: seq<T>)
    requires a != [] && b != [] && less(b[0], a[0])
    ensures Merge(less, a, b) == [b[0]] + Merge(less, a, b[1..])
  {
  }

  lemma Neighbours(s: seq<Elem>, i: nat)
    requires Linked(s) && i < |s| - 1
    ensures s[i].next == s[i + 1] && s[i + 1].prev == s[i]
  {
  }

  lemma SamePlace(s: seq<Elem>, i: nat, j: nat)
    requires Linked(s) && i < |s| && j < |s|
    ensures s[i] == s[j] <==> i == j
  {
  }

  ghost predicate Inner(s: seq<Elem>, xs: set<Elem>) {
    forall i :: 0 < i < |s| - 1 ==> s[i] in xs
  }

  lemma MovedFrom(s: seq<Elem>, b: nat, i: nat, j: nat, xs: set<Elem>)
    requires 0 < b <= i <= j < |s| && Inner(s, xs)
    ensures Inner(Moved(s, b, i, j), xs)
  {
  }

  lemma MergedKeeps<T>(less: (T, T) -> bool, s: seq<T>, p: nat, q: nat, e: nat)
    requires p <= q <= e < |s|
    ensures MergeAt(less, s, p, q, e)[e] == s[e]
  {
  }

  // ----- One pass over the list -----

  lemma SliceOfSlice<T>(s: seq<T>, i: nat, j: nat, a: nat, b: nat)
    requires a <= b && i + b <= j <= |s|
    ensures s[i..j][a..b] == s[i + a..i + b]
  {
    var t, u := s[i..j][a..b], s[i + a..i + b];
    assert |t| == |u| && forall k :: 0 <= k < |t| ==> t[k] == u[k];
  }

  lemma ItemsMerged<T>(less: (T, T) -> bool, s: seq<T>, k: nat, m: nat, e: nat)
    requires k <= m <= e && e + 2 <= |s|
    ensures s[k + 1..m + 1] == s[1..|s| - 1][k..m] && s[m + 1..e + 1] == s[1..|s| - 1][m..e]
    ensures MergeAt(less, s, k + 1, m + 1, e + 1)[1..|s| - 1] == MergeAt(less, s[1..|s| - 1], k, m, e)
  {
    SliceOfSlice(s, 1, |s| - 1, k, m);
    SliceOfSlice(s, 1, |s| - 1, m, e);
    MiddleOf(s, k, e, Merge(less, s[k + 1..m + 1], s[m + 1..e + 1]));
  }

  lemma MiddleOf<T>(s: seq<T>, k: nat, e: nat, x: seq<T>)
    requires k <= e && e + 2 <= |s| && |x| == e - k
    ensures var t := s[..k + 1] + x + s[e + 1..];
            |t| == |s| && t[1..|s| - 1] == s[1..|s| - 1][..k] + x + s[1..|s| - 1][e..]
  {
  }

  /** What a pass makes of `s` when it has come as far as `k`. */
  ghost function Rest<T>(less: (T, T) -> bool, s: seq<T>, k: nat): seq<T>
    requires k <= |s|
  {
    s[..k] + Pass(less, s[k..])
  }

  lemma RestEnds<T>(less: (T, T) -> bool, s: seq<T>)
    ensures Rest(less, s, 0) == Pass(less, s) && s[0..] == s
    ensures Rest(less, s, |s|) == s && Runs(less, s[|s|..]) == 0
  {
    assert s[0..] == s && s[|s|..] == [];
  }

  /** What is left of a pass from `k` on, when the last run starts there. */
  lemma LastRun<T>(less: (T, T) -> bool, s: seq<T>, k: nat)
    requires k < |s| && RunEnd(less, s, k) == |s|
    ensures Rest(less, s, k) == s && Runs(less, s[k..]) == 1
  {
    hide Runs, Pass, RunEnd;
    RunEndShift(less, s, k, k);
    OneRun(less, s[k..]);
    OnePass(less, s[k..]);
    assert s[..k] + s[k..] == s;
  }

  lemma OnePass<T>(less: (T, T) -> bool, s: seq<T>)
    requires s != [] && RunEnd(less, s, 0) == |s|
    ensures Pass(less, s) == s
  {
  }

  lemma PassUnfold<T>(less: (T, T) -> bool, u: seq<T>, m: nat, e: nat)
    requires u != [] && m == RunEnd(less, u, 0) < |u| && e == RunEnd(less, u, m)
    ensures Pass(less, u) == Merge(less, u[..m], u[m..e]) + Pass(less, u[e..])
  {
  }

  /** Merging the pair of runs at `k` is the first step of what is left of a pass from there on. */
  lemma PassStep<T>(less: (T, T) -> bool, s: seq<T>, k: nat, m: nat, e: nat)
    requires k < |s| && m == RunEnd(less, s, k) < |s| && e == RunEnd(less, s, m)
    ensures Rest(less, MergeAt(less, s, k, m, e), e) == Rest(less, s, k)
    ensures Runs(less, s[k..]) == 2 + Runs(less, MergeAt(less, s, k, m, e)[e..])
  {
    hide Runs, Merge, Pass;
    RunEndShift(less, s, k, k);
    RunEndShift(less, s, k, m);
    PassUnfold(less, s[k..], m - k, e - k);
    PairRuns(less, s[k..], m - k, e - k);
    PairSlices(s, k, m, e);
    MergedParts(less, s, k, m, e);
  }

  lemma PairSlices<T>(s: seq<T>, k: nat, m: nat, e: nat)
    requires k <= m <= e <= |s|
    ensures s[k..][..m - k] == s[k..m] && s[k..][m - k..e - k] == s[m..e] && s[k..][e - k..] == s[e..]
  {
  }

  lemma MergedParts<T>(less: (T, T) -> bool, s: seq<T>, k: nat, m: nat, e: nat)
    requires k <= m <= e <= |s|
    ensures var t := MergeAt(less, s, k, m, e);
            t[..e] == s[..k] + Merge(less, s[k..m], s[m..e]) && t[e..] == s[e..]
  {
  }

  lemma RunsSorted<T>(less: (T, T) -> bool, xs: set<T>, s: seq<T>, k: nat, m: nat, e: nat)
    requires StrictWeak(less, xs) && From(s, xs)
    requires k < |s| && m == RunEnd(less, s, k) < |s| && e == RunEnd(less, s, m)
    ensures Sorted(less, s[k..m]) && Sorted(less, s[m..e])
  {
    hide StrictWeak, Sorted;
    var u := s[k..];
    RunEndShift(less, s, k, k);
    RunEndShift(less, s, k, m);
    PairSorted(less, xs, u, m - k, e - k);
    PairSlices(s, k, m, e);
  }

  /** Merging two runs of the items of `nodes` is a step of a pass. */
  lemma MergeStep(less: (Elem, Elem) -> bool, xs: set<Elem>, nodes: seq<Elem>, k: nat, m: nat, e: nat)
    requires |nodes| >= 2 && StrictWeak(less, xs) && Inner(nodes, xs)
    requires var s := nodes[1..|nodes| - 1];
             k < |s| && m == RunEnd(less, s, k) < |s| && e == RunEnd(less, s, m)
    ensures Sorted(less, nodes[k + 1..m + 1]) && Sorted(less, nodes[m + 1..e + 1])
    ensures var s, t := nodes[1..|nodes| - 1], MergeAt(less, nodes, k + 1, m + 1, e + 1);
            && t[e + 1] == nodes[e + 1]
            && Rest(less, t[1..|nodes| - 1], e) == Rest(less, s, k)
            && Runs(less, s[k..]) == 2 + Runs(less, t[1..|nodes| - 1][e..])
  {
    hide Runs, Pass, Rest, StrictWeak, Sorted, Merge;
    var s := nodes[1..|nodes| - 1];
    RunsSorted(less, xs, s, k, m, e);
    PassStep(less, s, k, m, e);
    ItemsMerged(less, nodes, k, m, e);
    MergedKeeps(less, nodes, k + 1, m + 1, e + 1);
  }

  class List {
    const head: Elem
    const tail: Elem
    ghost var nodes: seq<Elem>

    ghost predicate Valid()
      reads this, nodes
    {
      |nodes| >= 2 && Linked(nodes) && nodes[0] == head && nodes[|nodes| - 1] == tail
    }

    /** The interior elements. */
    ghost function Items(): seq<Elem>
      requires |nodes| >= 2
      reads this
    {
      nodes[1..|nodes| - 1]
    }

    constructor ()
      ensures Valid() && Items() == [] && fresh(nodes)
    {
      head := new Elem();
      tail := new Elem();
      new;
      head.prev, head.next, tail.prev, tail.next := null, tail, head, null;
      nodes := [head, tail];
    }

    /** Inserts `e`, which is not in the list, at its back. */
    method PushBack(e: Elem)
      requires Valid() && e !in nodes
      modifies this`nodes, nodes, e
      ensures Valid() && Items() == old(Items()) + [e] && nodes == old(nodes)[..|nodes| - 2] + [e, tail]
    {
      ghost var s := nodes;
      Attach(tail, e, e, s, [e], |s| - 1);
      hide Linked;
      assert s[..|s| - 1] + [e] + s[|s| - 1..] == s[..|s| - 1] + [e, tail];
      nodes := s[..|s| - 1] + [e, tail];
    }

    /** Removes the first element. */
    method PopFront() returns (e: Elem)
      requires Valid() && Items() != []
      modifies this`nodes, nodes
      ensures Valid() && old(Items()) == [e] + Items()
    {
      ghost var s := nodes;
      e := head.next;
      Detach(e, e, s, 1, 2);
      hide Linked;
      assert s[..1] + s[2..] == [head] + s[2..];
      assert s[1..|s| - 1] == [e] + s[2..|s| - 1];
      nodes := [head] + s[2..];
      assert nodes[1..|nodes| - 1] == s[2..|s| - 1];
    }

    /** Moves the elements from `first` up to, not including, `last` in front of `before`.  The ghost
        parameters are their positions. */
    method Splice(before: Elem, first: Elem, last: Elem, ghost b: nat, ghost i: nat, ghost j: nat)
      requires Valid() && 0 < b < |nodes| && 0 < i <= j < |nodes| && (b < i || j <= b)
      requires before == nodes[b] && first == nodes[i] && last == nodes[j]
      modifies this`nodes, nodes
      ensures Valid() && nodes == Moved(old(nodes), b, i, j)
    {
      hide Moved;
      MovedEnds(nodes, b, i, j);
      if first == last {
        assert i == j;
        return;
      }
      Relink(before, first, last.prev, nodes, b, i, j);
      hide Linked;
      nodes := Moved(nodes, b, i, j);
    }

    /** The end of the run of nondecreasing elements that starts at `a`. */
    method FindEndOfRun(a: Elem, less: (Elem, Elem) -> bool, ghost i: nat) returns (r: Elem, ghost e: nat)
      requires Valid() && i < |Items()| && a == Items()[i]
      ensures e == RunEnd(less, Items(), i) && r == nodes[RunEnd(less, Items(), i) + 1]
    {
      ghost var s := Items();
      assert a == nodes[i + 1];
      r, e := a.next, i + 1;
      while r != tail && !less(r, r.prev)
        invariant i < e <= |s| && r == nodes[e + 1]
        invariant RunEnd(less, s, i) == RunEnd(less, s, e - 1)
        decreases |s| - e
      {
        assert r == s[e] && r.prev == s[e - 1] && !Drop(less, s, e);
        r, e := r.next, e + 1;
      }
      assert e < |s| ==> r == s[e] && r.prev == s[e - 1];
    }

    /** Merges the ranges from `a0` to `a1b0` and from there to `b1`, which are sorted and are at `i`, `m` and `e`. */
    method InplaceMerge(a0: Elem, a1b0: Elem, b1: Elem, less: (Elem, Elem) -> bool, ghost xs: set<Elem>,
                        ghost i: nat, ghost m: nat, ghost e: nat)
      requires Valid() && Inner(nodes, xs) && 0 < i <= m <= e < |nodes|
      requires a0 == nodes[i] && a1b0 == nodes[m] && b1 == nodes[e]
      requires Sorted(less, nodes[i..m]) && Sorted(less, nodes[m..e])
      modifies this`nodes, xs, head, tail
      ensures Valid() && Inner(nodes, xs) && nodes == MergeAt(less, old(nodes), i, m, e)
    {
      hide MergeAt, Moved, Linked;
      var a, b := a0, a1b0;
      ghost var p, q, goal := i, m, MergeAt(less, nodes, i, m, e);
      while a != b && b != b1
        invariant Valid() && Inner(nodes, xs) && 0 < p <= q <= e < |nodes| == |old(nodes)|
        invariant a == nodes[p] && b == nodes[q] && b1 == nodes[e]
        invariant MergeAt(less, nodes, p, q, e) == goal
        decreases e - p
      {
        if !less(b, a) {
          MergeLeft(less, nodes, p, q, e);
          Neighbours(nodes, p);
          a := a.next;
        } else {
          MergeRight(less, nodes, p, q, e);
          b := MoveFront(a, b, xs, p, q);
          q := q + 1;
        }
        p := p + 1;
      }
      SamePlace(nodes, p, q);
      SamePlace(nodes, q, e);
      MergeDone(less, nodes, p, q, e);
    }

    /** Moves `b`, which is at `q`, in front of `a`, which is at `p`; `r` is what followed `b`. */
    method MoveFront(a: Elem, b: Elem, ghost xs: set<Elem>, ghost p: nat, ghost q: nat) returns (r: Elem)
      requires Valid() && Inner(nodes, xs) && 0 < p < q < |nodes| - 1 && a == nodes[p] && b == nodes[q]
      modifies this`nodes, xs, head, tail
      ensures Valid() && Inner(nodes, xs) && nodes == Moved(old(nodes), p, q, q + 1)
      ensures |nodes| == |old(nodes)| && nodes[p + 1] == a && r == nodes[q + 1]
      ensures forall k :: q < k < |nodes| ==> nodes[k] == old(nodes)[k]
    {
      hide Moved, Linked;
      Neighbours(nodes, q);
      MovedOneAt(nodes, p, q);
      MovedFrom(nodes, p, q, q + 1, xs);
      r := b.next;
      Splice(a, r.prev, r, p, q, q + 1);
    }

    /** Merges the runs two by two, from front to back; `cnt` runs come out. */
    method RunPass(less: (Elem, Elem) -> bool, ghost xs: set<Elem>) returns (cnt: nat)
      requires Valid() && StrictWeak(less, xs) && Inner(nodes, xs)
      modifies this`nodes, xs, head, tail
      ensures Valid() && Inner(nodes, xs) && Items() == Pass(less, old(Items()))
      ensures cnt == (Runs(less, old(Items())) + 1) / 2
    {
      hide Linked, Runs, Pass, Rest, MergeAt, StrictWeak, Sorted;
      ghost var s := Items();
      ghost var k: nat := 0;
      RestEnds(less, s);
      Neighbours(nodes, 0);
      var a0 := head.next;
      cnt := 0;
      while a0 != tail
        invariant Valid() && Inner(nodes, xs) && k <= |Items()| && a0 == nodes[k + 1]
        invariant Rest(less, Items(), k) == Pass(less, s)
        invariant 2 * cnt + Runs(less, Items()[k..]) == Runs(less, s)
        decreases |Items()| - k
      {
        cnt := cnt + 1;
        var a1b0, m := FindEndOfRun(a0, less, k);
        SamePlace(nodes, m + 1, |nodes| - 1);
        if a1b0 == tail {
          LastRun(less, Items(), k);
          return;
        }
        var b1, e := MergePair(a0, a1b0, less, xs, k, m);
        a0, k := b1, e;
      }
      SamePlace(nodes, k + 1, |nodes| - 1);
      RestEnds(less, Items());
    }

    /** Merges the run at `k` with the one behind it, which starts at `m`; `b1` is where they end. */
    method MergePair(a0: Elem, a1b0: Elem, less: (Elem, Elem) -> bool, ghost xs: set<Elem>, ghost k: nat, ghost m: nat)
      returns (b1: Elem, ghost e: nat)
      requires Valid() && StrictWeak(less, xs) && Inner(nodes, xs)
      requires k < |Items()| && m == RunEnd(less, Items(), k) < |Items()| && a0 == nodes[k + 1] && a1b0 == nodes[m + 1]
      modifies this`nodes, xs, head, tail
      ensures Valid() && Inner(nodes, xs) && |Items()| == |old(Items())| && m < e <= |Items()| && b1 == nodes[e + 1]
      ensures Rest(less, Items(), e) == Rest(less, old(Items()), k)
      ensures Runs(less, old(Items())[k..]) == 2 + Runs(less, Items()[e..])
    {
      hide Linked, Runs, Pass, Rest, MergeAt, StrictWeak, Sorted, Merge;
      b1, e := FindEndOfRun(a1b0, less, m);
      MergeStep(less, xs, nodes, k, m, e);
      InplaceMerge(a0, a1b0, b1, less, xs, k + 1, m + 1, e + 1);
    }

    /** Sorts the list; elements that compare equal keep their order. */
    method Sort(less: (Elem, Elem) -> bool, ghost xs: set<Elem>)
      requires Valid() && StrictWeak(less, xs) && Inner(nodes, xs)
      modifies this`nodes, xs, head, tail
      ensures Valid() && Inner(nodes, xs) && StablySorted(less, xs, old(Items()), Items())
    {
      hide Linked, Runs, Pass, StrictWeak, Sorted, Stable;
      ghost var s := Items();
      PassHalves(less, xs, s);
      PassStable(less, xs, s);
      var cnt := RunPass(less, xs);
      while cnt > 1
        invariant Valid() && Inner(nodes, xs) && Stable(less, xs, s, Items()) && Runs(less, Items()) <= cnt
        decreases cnt
      {
        PassHalves(less, xs, Items());
        PassStable(less, xs, Items());
        StableTrans(less, xs, s, Items(), Pass(less, Items()));
        cnt := RunPass(less, xs);
      }
      OneRunSorted(less, xs, Items());
    }
  }
}
