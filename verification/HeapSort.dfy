/**
  In-place heapsort and binary search (`lib/stdlib.c`).  Positions in the heap count from 1,
  as in the source; `cmp` gives a negative, zero or positive number as `strcmp` does.
 */
module HeapSorts {
  import opened Wrappers

  /** `cmp` is a total preorder. */
  ghost predicate Preorder<T(!new)>(cmp: (T, T) -> int) {
    && (forall x, y :: cmp(x, y) > 0 <==> cmp(y, x) < 0)
    && (forall x, y, z :: cmp(x, y) <= 0 && cmp(y, z) <= 0 ==> cmp(x, z) <= 0)
  }

  ghost predicate Ascending<T>(cmp: (T, T) -> int, s: seq<T>) {
    forall i, j :: 0 <= i < j < |s| ==> cmp(s[i], s[j]) <= 0
  }

  // ----- Heaps -----

  /** The element at `p` is not below the one at `c`. */
  predicate NotBelow<T>(cmp: (T, T) -> int, s: seq<T>, p: nat, c: nat)
    requires 1 <= p <= |s| && 1 <= c <= |s|
  {
    cmp(s[c - 1], s[p - 1]) <= 0
  }

  predicate Child(p: int, c: int) { c == 2 * p || c == 2 * p + 1 }

  /** Among the first `cnt` elements, those from `lo` on are not below their children. */
  ghost predicate HeapFrom<T>(cmp: (T, T) -> int, s: seq<T>, lo: nat, cnt: nat)
    requires 1 <= lo && cnt <= |s|
  {
    forall p, c :: lo <= p && Child(p, c) && c <= cnt ==> NotBelow(cmp, s, p, c)
  }

  /** The same but for the element at `hole`, whose parent is not below its children. */
  ghost predicate HeapBut<T>(cmp: (T, T) -> int, s: seq<T>, lo: nat, cnt: nat, hole: nat)
    requires 1 <= lo && cnt <= |s| && 1 <= hole
  {
    && (forall p, c :: lo <= p && Child(p, c) && c <= cnt && p != hole ==> NotBelow(cmp, s, p, c))
    && (forall g, c :: lo <= g && Child(g, hole) && Child(hole, c) && c <= cnt ==> NotBelow(cmp, s, g, c))
  }

  ghost function Swapped<T>(s: seq<T>, i: nat, j: nat): (t: seq<T>)
    requires 1 <= i <= |s| && 1 <= j <= |s|
    ensures |t| == |s|
  {
    s[i - 1 := s[j - 1]][j - 1 := s[i - 1]]
  }

  /** Exchanging the hole with its larger child moves the hole there. */
  lemma HoleSinks<T(!new)>(cmp: (T, T) -> int, s: seq<T>, lo: nat, cnt: nat, hole: nat, m: nat)
    requires Preorder(cmp) && 1 <= lo <= hole && cnt <= |s| && HeapBut(cmp, s, lo, cnt, hole)
    requires Child(hole, m) && m <= cnt && NotBelow(cmp, s, m, hole)
    requires forall c :: Child(hole, c) && c <= cnt ==> NotBelow(cmp, s, m, c)
    ensures HeapBut(cmp, Swapped(s, hole, m), lo, cnt, m)
  {
    var t := Swapped(s, hole, m);
    forall p, c | lo <= p && Child(p, c) && c <= cnt && p != m ensures NotBelow(cmp, t, p, c) {
      if p == hole {
        assert NotBelow(cmp, s, m, c);
      } else if c == hole {
        assert NotBelow(cmp, s, p, m);
      } else {
        assert NotBelow(cmp, s, p, c);
      }
    }
    forall g, c | lo <= g && Child(g, m) && Child(m, c) && c <= cnt ensures NotBelow(cmp, t, g, c) {
      assert g == hole && NotBelow(cmp, s, m, c);
    }
  }

  lemma HoleFilled<T>(cmp: (T, T) -> int, s: seq<T>, lo: nat, cnt: nat, hole: nat)
    requires 1 <= lo <= hole && cnt <= |s| && HeapBut(cmp, s, lo, cnt, hole)
    requires forall c :: Child(hole, c) && c <= cnt ==> NotBelow(cmp, s, hole, c)
    ensures HeapFrom(cmp, s, lo, cnt)
  {
  }

  /** Nothing is above the top of a heap. */
  lemma {:induction false} TopIsMax<T(!new)>(cmp: (T, T) -> int, s: seq<T>, cnt: nat, k: nat)
    requires Preorder(cmp) && 1 <= k <= cnt <= |s| && HeapFrom(cmp, s, 1, cnt)
    ensures NotBelow(cmp, s, 1, k)
  {
    if k > 1 {
      TopIsMax(cmp, s, cnt, k / 2);
      assert Child(k / 2, k) && NotBelow(cmp, s, k / 2, k);
    }
  }

  // ----- Rearranging -----

  lemma SwapRearranges<T>(s: seq<T>, i: nat, j: nat, cnt: nat)
    requires 1 <= i < j <= cnt <= |s|
    ensures multiset(Swapped(s, i, j)[..cnt]) == multiset(s[..cnt])
    ensures Swapped(s, i, j)[cnt..] == s[cnt..] && Swapped(s, i, j)[..i - 1] == s[..i - 1]
  {
    var u := s[..cnt];
    assert u == u[..i - 1] + [s[i - 1]] + u[i..j - 1] + [s[j - 1]] + u[j..];
    assert Swapped(s, i, j)[..cnt] == u[..i - 1] + [s[j - 1]] + u[i..j - 1] + [s[i - 1]] + u[j..];
    SamePieces(u[..i - 1], u[i..j - 1], u[j..], s[i - 1], s[j - 1]);
  }

  lemma SamePieces<T>(a: seq<T>, b: seq<T>, c: seq<T>, x: T, y: T)
    ensures multiset(a + [x] + b + [y] + c) == multiset(a + [y] + b + [x] + c)
  {
  }

  /** `t` rearranges the elements of `s` between `lo` and `cnt`, and leaves the others where they are. */
  ghost predicate Rearranged<T>(s: seq<T>, t: seq<T>, lo: nat, cnt: nat)
    requires 1 <= lo && cnt <= |s|
  {
    && |t| == |s| && multiset(t[..cnt]) == multiset(s[..cnt]) && t[cnt..] == s[cnt..]
    && forall k :: 0 <= k < lo - 1 && k < |s| ==> t[k] == s[k]
  }

  /** Exchanges two elements. */
  method Swap<T>(a: array<T>, i: nat, j: nat)
    requires 1 <= i <= a.Length && 1 <= j <= a.Length
    modifies a
    ensures a[..] == Swapped(old(a[..]), i, j)
  {
    a[i - 1], a[j - 1] := a[j - 1], a[i - 1];
  }

  /** The largest of the element at `i` and its children. */
  method Largest<T(!new)>(a: array<T>, i: nat, cnt: nat, cmp: (T, T) -> int) returns (m: nat)
    requires Preorder(cmp) && 1 <= i && cnt <= a.Length
    ensures m == i || (Child(i, m) && m <= cnt)
    ensures m != i ==> NotBelow(cmp, a[..], m, i)
    ensures forall c :: Child(i, c) && c <= cnt ==> NotBelow(cmp, a[..], m, c)
  {
    m := i;
    if 2 * i <= cnt && cmp(a[2 * i - 1], a[m - 1]) > 0 {
      m := 2 * i;
    }
    if 2 * i + 1 <= cnt && cmp(a[2 * i], a[m - 1]) > 0 {
      m := 2 * i + 1;
    }
  }

  /** Floats the element at `i` down until the heap property holds from there on. */
  method Heapify<T(!new)>(a: array<T>, i: nat, cnt: nat, cmp: (T, T) -> int)
    requires Preorder(cmp) && 1 <= i && cnt <= a.Length && HeapFrom(cmp, a[..], i + 1, cnt)
    modifies a
    ensures HeapFrom(cmp, a[..], i, cnt) && Rearranged(old(a[..]), a[..], i, cnt)
  {
    hide Preorder, Rearranged;
    var j := i;
    RearrangedSame(a[..], i, cnt);
    while true
      invariant i <= j && HeapBut(cmp, a[..], i, cnt, j) && Rearranged(old(a[..]), a[..], i, cnt)
      decreases a.Length - j
    {
      hide HeapBut, HeapFrom;
      var m := Largest(a, j, cnt, cmp);
      if m == j {
        HoleFilled(cmp, a[..], i, cnt, j);
        return;
      }
      HoleSinks(cmp, a[..], i, cnt, j, m);
      SwapRearranged(old(a[..]), a[..], i, cnt, j, m);
      Swap(a, j, m);
      j := m;
    }
  }

  lemma RearrangedSame<T>(s: seq<T>, lo: nat, cnt: nat)
    requires 1 <= lo && cnt <= |s|
    ensures Rearranged(s, s, lo, cnt)
  {
  }

  lemma SwapRearranged<T>(s: seq<T>, t: seq<T>, lo: nat, cnt: nat, i: nat, j: nat)
    requires 1 <= lo <= i < j <= cnt <= |s| && Rearranged(s, t, lo, cnt)
    ensures Rearranged(s, Swapped(t, i, j), lo, cnt)
  {
    SwapRearranges(t, i, j, cnt);
  }

  lemma RearrangedAll<T>(s: seq<T>, t: seq<T>, lo: nat, cnt: nat)
    requires 1 <= lo && cnt <= |s| && Rearranged(s, t, lo, cnt)
    ensures multiset(t) == multiset(s) && |t| == |s|
  {
    assert s == s[..cnt] + s[cnt..] && t == t[..cnt] + t[cnt..];
  }

  // ----- Sorting -----

  /** The elements from `i` on are where they belong. */
  ghost predicate Settled<T>(cmp: (T, T) -> int, s: seq<T>, i: nat) {
    forall x, y :: 0 <= x < y < |s| && i <= y ==> cmp(s[x], s[y]) <= 0
  }

  /** Exchanging the top of the heap with its last element settles that place ... */
  lemma TopSettles<T(!new)>(cmp: (T, T) -> int, s: seq<T>, i: nat)
    requires Preorder(cmp) && 2 <= i <= |s| && HeapFrom(cmp, s, 1, i) && Settled(cmp, s, i)
    ensures Settled(cmp, Swapped(s, 1, i), i - 1) && HeapFrom(cmp, Swapped(s, 1, i), 2, i - 1)
  {
    var t := Swapped(s, 1, i);
    forall x, y | 0 <= x < y < |t| && i - 1 <= y ensures cmp(t[x], t[y]) <= 0 {
      if y == i - 1 {
        TopIsMax(cmp, s, i, if x == 0 then i else x + 1);
      } else {
        assert cmp(s[0], s[y]) <= 0;
      }
    }
    forall p, c | 2 <= p && Child(p, c) && c <= i - 1 ensures NotBelow(cmp, t, p, c) {
      assert NotBelow(cmp, s, p, c);
    }
  }

  /** ... and rearranging the elements in front of it does not unsettle it. */
  lemma StaysSettled<T>(cmp: (T, T) -> int, t: seq<T>, u: seq<T>, n: nat)
    requires n <= |t| && Settled(cmp, t, n) && Rearranged(t, u, 1, n)
    ensures Settled(cmp, u, n)
  {
    forall x, y | 0 <= x < y < |u| && n <= y ensures cmp(u[x], u[y]) <= 0 {
      assert u[y] == u[n..][y - n] == t[y];
      if x < n {
        assert u[x] in multiset(u[..n]);
        assert u[x] in t[..n];
        var k :| 0 <= k < n && t[k] == u[x];
      } else {
        assert u[x] == u[n..][x - n] == t[x];
      }
    }
  }

  /** Makes a heap of all elements. */
  method BuildHeap<T(!new)>(a: array<T>, cmp: (T, T) -> int)
    requires Preorder(cmp)
    modifies a
    ensures HeapFrom(cmp, a[..], 1, a.Length) && multiset(a[..]) == multiset(old(a[..]))
  {
    hide Preorder, Rearranged;
    var i: nat := a.Length / 2;
    while i > 0
      invariant HeapFrom(cmp, a[..], i + 1, a.Length) && multiset(a[..]) == multiset(old(a[..]))
    {
      hide HeapFrom;
      ghost var s := a[..];
      Heapify(a, i, a.Length, cmp);
      RearrangedAll(s, a[..], i, a.Length);
      i := i - 1;
    }
  }

  /** Sorts the array in place. */
  method Sort<T(!new)>(a: array<T>, cmp: (T, T) -> int)
    requires Preorder(cmp)
    modifies a
    ensures Ascending(cmp, a[..]) && multiset(a[..]) == multiset(old(a[..]))
  {
    hide Preorder, Rearranged;
    BuildHeap(a, cmp);
    var i: nat := a.Length;
    while i > 1
      invariant i <= a.Length && HeapFrom(cmp, a[..], 1, i) && Settled(cmp, a[..], i)
      invariant multiset(a[..]) == multiset(old(a[..]))
    {
      hide HeapFrom, Settled;
      ghost var s := a[..];
      TopSettles(cmp, s, i);
      SwapRearranges(s, 1, i, i);
      Swap(a, 1, i);
      ghost var t := a[..];
      assert t == t[..i] + t[i..] && s == s[..i] + s[i..];
      Heapify(a, 1, i - 1, cmp);
      StaysSettled(cmp, t, a[..], i - 1);
      RearrangedAll(t, a[..], 1, i - 1);
      i := i - 1;
    }
  }

  // ----- Searching -----

  /** Finds an element that compares equal to `key`, if there is one. */
  method BinarySearch<T(!new)>(key: T, a: array<T>, cmp: (T, T) -> int) returns (found: Option<nat>)
    requires Preorder(cmp) && Ascending(cmp, a[..])
    ensures found.Some? <==> exists k :: 0 <= k < a.Length && cmp(key, a[k]) == 0
    ensures found.Some? ==> found.value < a.Length && cmp(key, a[found.value]) == 0
  {
    var first, last := 0, a.Length;
    while first < last
      invariant first <= last <= a.Length
      invariant forall k :: 0 <= k < first ==> cmp(key, a[k]) > 0
      invariant forall k :: last <= k < a.Length ==> cmp(key, a[k]) < 0
    {
      var middle := first + (last - first) / 2;
      var c := cmp(key, a[middle]);
      if c < 0 {
        Beyond(cmp, a[..], key, middle);
        last := middle;
      } else if c > 0 {
        Before(cmp, a[..], key, middle);
        first := middle + 1;
      } else {
        return Some(middle);
      }
    }
    return None;
  }

  lemma Strictly<T(!new)>(cmp: (T, T) -> int, x: T, y: T, z: T)
    requires Preorder(cmp)
    ensures cmp(x, y) < 0 && cmp(y, z) <= 0 ==> cmp(x, z) < 0
    ensures cmp(x, y) <= 0 && cmp(y, z) < 0 ==> cmp(x, z) < 0
  {
    assert cmp(y, z) <= 0 && cmp(z, x) <= 0 ==> cmp(y, x) <= 0;
    assert cmp(z, x) <= 0 && cmp(x, y) <= 0 ==> cmp(z, y) <= 0;
  }

  lemma Beyond<T(!new)>(cmp: (T, T) -> int, s: seq<T>, key: T, m: nat)
    requires Preorder(cmp) && Ascending(cmp, s) && m < |s| && cmp(key, s[m]) < 0
    ensures forall k :: m <= k < |s| ==> cmp(key, s[k]) < 0
  {
    forall k | m < k < |s| ensures cmp(key, s[k]) < 0 {
      Strictly(cmp, key, s[m], s[k]);
    }
  }

  lemma Before<T(!new)>(cmp: (T, T) -> int, s: seq<T>, key: T, m: nat)
    requires Preorder(cmp) && Ascending(cmp, s) && m < |s| && cmp(key, s[m]) > 0
    ensures forall k :: 0 <= k <= m ==> cmp(key, s[k]) > 0
  {
    forall k | 0 <= k < m ensures cmp(key, s[k]) > 0 {
      Strictly(cmp, s[k], s[m], key);
    }
  }
}
