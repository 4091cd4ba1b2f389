/**
  Chained hash tables that resize themselves (`lib/kernel/hash.c`).  What a table holds is
  the multiset of the elements in its chains, in which no two compare equal: a finite map
  from what elements compare by to the elements.
 */
module HashTables {
  import opened Wrappers
  import opened Arithmetic
  import opened Sorting

  // ----- Bit tricks -----

  /** Bitwise and. */
  function And(x: nat, y: nat): nat {
    if x == 0 || y == 0 then 0 else 2 * And(x / 2, y / 2) + if x % 2 == 1 && y % 2 == 1 then 1 else 0
  }

  ghost predicate IsPow2(x: nat) {
    exists k: nat :: x == Pow2(k)
  }

  /** `turn_off_least_1bit`. */
  function TurnOffLeast(x: nat): nat
    requires x > 0
  {
    And(x, x - 1)
  }

  lemma {:induction false} AndSelf(x: nat)
    ensures And(x, x) == x
  {
    if x > 0 {
      AndSelf(x / 2);
    }
  }

  /** It takes one bit away, the lowest. */
  lemma TurnOffHalves(x: nat)
    requires x > 0
    ensures x % 2 == 1 ==> TurnOffLeast(x) == x - 1
    ensures x % 2 == 0 ==> TurnOffLeast(x) == 2 * TurnOffLeast(x / 2)
  {
    if x % 2 == 1 {
      assert (x - 1) / 2 == x / 2;
      AndSelf(x / 2);
    } else {
      assert (x - 1) / 2 == x / 2 - 1;
    }
  }

  /** A mask of the low bits takes the remainder. */
  lemma {:induction false} MaskIsRemainder(x: nat, k: nat)
    ensures And(x, Pow2(k) - 1) == Mod(x, Pow2(k))
  {
    hide Mod;
    if x > 0 && k > 0 {
      var p := Pow2(k - 1);
      assert (2 * p - 1) / 2 == p - 1 && (2 * p - 1) % 2 == 1;
      MaskIsRemainder(x / 2, k - 1);
      HalfRemainder(x, p);
    } else if x > 0 {
      ModIs(x, 1, x, 0);
    } else {
      ModIs(0, Pow2(k), 0, 0);
    }
  }

  lemma MaskPow2(x: nat, p: nat)
    requires IsPow2(p)
    ensures p > 0 && And(x, p - 1) == Mod(x, p)
  {
    var k: nat :| p == Pow2(k);
    MaskIsRemainder(x, k);
  }

  lemma HalfRemainder(x: nat, p: nat)
    requires p > 0
    ensures Mod(x, 2 * p) == 2 * Mod(x / 2, p) + x % 2
  {
    var q, r := Div(x / 2, p), Mod(x / 2, p);
    QuotientRemainder(x / 2, p);
    hide Mod, Div;
    MulAssoc(2, p, q);
    MulAssoc(2, q, p);
    ModIs(x, 2 * p, q, 2 * r + x % 2);
  }

  lemma ModIs(x: nat, d: nat, q: nat, r: nat)
    requires d > 0 && r < d && x == q * d + r
    ensures Mod(x, d) == r
  {
    QuotientRemainder(x, d);
    DivUnique(x, d, q);
  }

  /** The largest power of two that is not above `x`. */
  function Floor2(x: nat): (p: nat)
    requires x > 0
    ensures p <= x < 2 * p
  {
    if x == 1 then 1 else 2 * Floor2(x / 2)
  }

  lemma {:induction false} Floor2IsPow2(x: nat)
    requires x > 0
    ensures IsPow2(Floor2(x))
  {
    if x == 1 {
      assert Pow2(0) == 1;
    } else {
      Floor2IsPow2(x / 2);
      var k: nat :| Floor2(x / 2) == Pow2(k);
      assert Pow2(k + 1) == Floor2(x);
    }
  }

  /** Taking the lowest bit away leaves the highest, unless it was the only one. */
  lemma {:induction false} TurnOffKeepsHigh(x: nat)
    requires x > 0
    ensures TurnOffLeast(x) < x
    ensures TurnOffLeast(x) == 0 <==> x == Floor2(x)
    ensures TurnOffLeast(x) != 0 ==> Floor2(TurnOffLeast(x)) == Floor2(x)
  {
    TurnOffHalves(x);
    if x % 2 == 0 {
      TurnOffKeepsHigh(x / 2);
      var y := TurnOffLeast(x / 2);
      assert (2 * y) / 2 == y;
    } else if x > 1 {
      assert (x - 1) / 2 == x / 2;
      assert x - 1 > 1;
    }
  }

  lemma Floor2AtLeast4(x: nat)
    requires x >= 4
    ensures Floor2(x) >= 4
  {
    assert Floor2(x) == 2 * Floor2(x / 2);
    assert Floor2(x / 2) == 2 * Floor2(x / 2 / 2);
  }

  /** The number of buckets that `rehash` wants for `n` elements: a power of two, at least four, with one bucket
      for about every two elements. */
  method BestBucketCnt(n: nat) returns (r: nat)
    ensures r >= 4 && IsPow2(r) && n < 4 * r && (r == 4 || 2 * r <= n)
  {
    r := n / 2;
    if r < 4 {
      r := 4;
    }
    ghost var r0 := r;
    while !(r != 0 && TurnOffLeast(r) == 0)
      invariant r > 0 && Floor2(r) == Floor2(r0)
      decreases r
    {
      TurnOffKeepsHigh(r);
      r := TurnOffLeast(r);
    }
    TurnOffKeepsHigh(r);
    Floor2IsPow2(r0);
    Floor2AtLeast4(r0);
  }

  // ----- Chains -----

  /** All elements of the chains `b`. */
  ghost function All<E>(b: seq<seq<E>>): multiset<E> {
    if b == [] then multiset{} else multiset(b[0]) + All(b[1..])
  }

  lemma {:induction false} AllUpdated<E>(b: seq<seq<E>>, i: nat, c: seq<E>)
    requires i < |b|
    ensures All(b[i := c]) + multiset(b[i]) == All(b) + multiset(c)
  {
    if i == 0 {
      assert b[i := c][1..] == b[1..];
    } else {
      AllUpdated(b[1..], i - 1, c);
      assert b[i := c][1..] == b[1..][i - 1 := c];
      AddBoth(multiset(b[0]), All(b[1..][i - 1 := c]), multiset(b[i]), All(b[1..]), multiset(c));
    }
  }

  lemma AddBoth<E>(a: multiset<E>, x: multiset<E>, p: multiset<E>, y: multiset<E>, q: multiset<E>)
    requires x + p == y + q
    ensures (a + x) + p == (a + y) + q
  {
    assert (a + x) + p == a + (x + p);
    assert (a + y) + q == a + (y + q);
  }

  lemma {:induction false} InAll<E>(b: seq<seq<E>>, x: E)
    ensures x in All(b) <==> exists i :: 0 <= i < |b| && x in b[i]
  {
    if b != [] {
      InAll(b[1..], x);
      if i :| 0 <= i < |b| && x in b[i] {
        assert i > 0 ==> x in b[1..][i - 1];
      }
      if i :| 0 <= i < |b[1..]| && x in b[1..][i] {
        assert x in b[i + 1];
      }
    }
  }

  lemma {:induction false} AllEmpty<E>(b: seq<seq<E>>)
    requires forall i :: 0 <= i < |b| ==> b[i] == []
    ensures All(b) == multiset{}
  {
    if b != [] {
      AllEmpty(b[1..]);
    }
  }

  /** Putting `x` in front of a chain adds it. */
  lemma AllPushed<E>(b: seq<seq<E>>, i: nat, x: E)
    requires i < |b|
    ensures All(b[i := [x] + b[i]]) == All(b) + multiset{x}
  {
    AllUpdated(b, i, [x] + b[i]);
    Cancel(All(b[i := [x] + b[i]]), All(b) + multiset{x}, multiset(b[i]));
  }

  /** Taking the element at `k` out of a chain removes it. */
  lemma AllRemoved<E>(b: seq<seq<E>>, i: nat, k: nat)
    requires i < |b| && k < |b[i]|
    ensures All(b[i := b[i][..k] + b[i][k + 1..]]) == All(b) - multiset{b[i][k]}
    ensures b[i][k] in All(b)
  {
    var c := b[i][..k] + b[i][k + 1..];
    assert b[i] == b[i][..k] + [b[i][k]] + b[i][k + 1..];
    assert multiset(b[i]) == multiset(c) + multiset{b[i][k]};
    AllUpdated(b, i, c);
    Cancel(All(b[i := c]) + multiset{b[i][k]}, All(b), multiset(c));
  }

  lemma Cancel<E>(a: multiset<E>, b: multiset<E>, c: multiset<E>)
    requires a + c == b + c
    ensures a == b
  {
    assert (a + c) - c == a && (b + c) - c == b;
  }

  // ----- What makes a table -----

  /** Comparing equal is an equivalence, and elements that compare equal have the same hash. */
  ghost predicate Lawful<E(!new)>(hash: E -> nat, less: (E, E) -> bool) {
    && (forall x :: Same(less, x, x))
    && (forall x, y, z :: Same(less, x, y) && Same(less, y, z) ==> Same(less, x, z))
    && (forall x, y :: Same(less, x, y) ==> hash(x) == hash(y))
  }

  /** Every element is in the chain that its hash selects. */
  ghost predicate Placed<E(!new)>(hash: E -> nat, b: seq<seq<E>>) {
    |b| > 0 && forall i, x :: 0 <= i < |b| && x in b[i] ==> Mod(hash(x), |b|) == i
  }

  /** No two elements compare equal. */
  ghost predicate Unique<E(!new)>(less: (E, E) -> bool, m: multiset<E>) {
    && (forall x :: x in m ==> m[x] == 1)
    && (forall x, y :: x in m && y in m && Same(less, x, y) ==> x == y)
  }

  ghost predicate Has<E(!new)>(less: (E, E) -> bool, m: multiset<E>, e: E) {
    exists x :: x in m && Same(less, x, e)
  }

  lemma UniqueAdd<E(!new)>(less: (E, E) -> bool, m: multiset<E>, e: E)
    requires Unique(less, m) && !Has(less, m, e) && Same(less, e, e)
    ensures Unique(less, m + multiset{e})
  {
    assert forall y :: y in m ==> !Same(less, y, e);
    forall x | x in m + multiset{e} ensures x == e || x in m {
    }
  }

  lemma UniqueRemove<E(!new)>(less: (E, E) -> bool, m: multiset<E>, x: E)
    requires Unique(less, m) && x in m
    ensures Unique(less, m - multiset{x})
  {
    forall y | y in m - multiset{x} ensures y in m && (m - multiset{x})[y] == 1 {
    }
  }

  /** Without the element that compares equal to `e` there is none. */
  lemma OnlyOne<E(!new)>(hash: E -> nat, less: (E, E) -> bool, m: multiset<E>, x: E, e: E)
    requires Lawful(hash, less) && Unique(less, m) && Same(less, x, e)
    ensures x in m ==> !Has(less, m - multiset{x}, e)
  {
    if x in m {
      forall y | y in m && Same(less, y, e) ensures y == x {
        assert Same(less, e, x);
      }
      assert m[x] == 1;
    }
  }

  /** An element that compares equal to `e` can only be in the chain that the hash of `e` selects. */
  lemma ChainDecides<E(!new)>(hash: E -> nat, less: (E, E) -> bool, b: seq<seq<E>>, e: E, i: nat)
    requires Lawful(hash, less) && Placed(hash, b) && i == Mod(hash(e), |b|) < |b|
    ensures Has(less, All(b), e) <==> exists x :: x in b[i] && Same(less, x, e)
  {
    if x :| x in All(b) && Same(less, x, e) {
      InAll(b, x);
      var j :| 0 <= j < |b| && x in b[j];
      assert j == i;
    }
    if x :| x in b[i] && Same(less, x, e) {
      InAll(b, x);
    }
  }

  class HashTable<E(!new, ==)> {
    const hash: E -> nat
    const less: (E, E) -> bool
    var buckets: array<seq<E>>
    var bucketCnt: nat
    var elemCnt: nat

    ghost predicate Valid()
      reads this, buckets
    {
      && Lawful(hash, less)
      && bucketCnt == buckets.Length >= 4 && IsPow2(bucketCnt)
      && Placed(hash, buckets[..])
      && elemCnt == |Contents()| && Unique(less, Contents())
    }

    ghost function Contents(): multiset<E>
      reads this, buckets
    {
      All(buckets[..])
    }

    /** The chain that `e` belongs in. */
    function FindBucket(e: E): (i: nat)
      requires IsPow2(bucketCnt)
      reads this
      ensures i == Mod(hash(e), bucketCnt) < bucketCnt
    {
      MaskPow2(hash(e), bucketCnt);
      And(hash(e), bucketCnt - 1)
    }

    /** Where in its chain the element is that compares equal to `e`. */
    method FindElem(i: nat, e: E) returns (at: Option<nat>)
      requires Valid() && i == Mod(hash(e), bucketCnt) < bucketCnt
      ensures at.Some? <==> Has(less, Contents(), e)
      ensures at.Some? ==> at.value < |buckets[i]| && Same(less, buckets[i][at.value], e)
    {
      var chain := buckets[i];
      ChainDecides(hash, less, buckets[..], e, i);
      for k := 0 to |chain|
        invariant forall j :: 0 <= j < k ==> !Same(less, chain[j], e)
      {
        if Same(less, chain[k], e) {
          return Some(k);
        }
      }
      return None;
    }

    /** The element that compares equal to `e`. */
    method Find(e: E) returns (found: Option<E>)
      requires Valid()
      ensures found.Some? <==> Has(less, Contents(), e)
      ensures found.Some? ==> found.value in Contents() && Same(less, found.value, e)
    {
      var i := FindBucket(e);
      var at := FindElem(i, e);
      if at.None? {
        return None;
      }
      InAll(buckets[..], buckets[i][at.value]);
      return Some(buckets[i][at.value]);
    }

    /** Puts `e` in front of its chain. */
    method InsertElem(i: nat, e: E)
      requires Valid() && i == Mod(hash(e), bucketCnt) < bucketCnt && !Has(less, Contents(), e)
      modifies this`elemCnt, buckets
      ensures Valid() && Contents() == old(Contents()) + multiset{e}
    {
      AllPushed(buckets[..], i, e);
      UniqueAdd(less, Contents(), e);
      ghost var b := buckets[..];
      elemCnt := elemCnt + 1;
      buckets[i] := [e] + buckets[i];
      assert buckets[..] == b[i := [e] + b[i]];
    }

    /** Takes the element at `k` out of its chain. */
    method RemoveElem(i: nat, k: nat)
      requires Valid() && i < bucketCnt && k < |buckets[i]|
      modifies this`elemCnt, buckets
      ensures Valid() && old(buckets[i][k]) in old(Contents())
              && Contents() == old(Contents()) - multiset{old(buckets[i][k])}
    {
      AllRemoved(buckets[..], i, k);
      UniqueRemove(less, Contents(), buckets[i][k]);
      ghost var b := buckets[..];
      elemCnt := elemCnt - 1;
      buckets[i] := buckets[i][..k] + buckets[i][k + 1..];
      assert buckets[..] == b[i := b[i][..k] + b[i][k + 1..]];
    }

    /** An empty table. */
    constructor (hash: E -> nat, less: (E, E) -> bool)
      requires Lawful(hash, less)
      ensures Valid() && this.hash == hash && this.less == less && Contents() == multiset{} && bucketCnt == 4
              && fresh(buckets)
    {
      this.hash, this.less := hash, less;
      elemCnt, bucketCnt := 0, 4;
      buckets := new seq<E>[4](_ => []);
      new;
      AllEmpty(buckets[..]);
      assert Pow2(2) == 2 * Pow2(1) == 4;
    }

    /** Moves the elements of an old chain to the chains where they belong now. */
    method MoveChain(chain: seq<E>)
      requires bucketCnt == buckets.Length && IsPow2(bucketCnt) && Placed(hash, buckets[..])
      modifies buckets
      ensures Placed(hash, buckets[..]) && Contents() == old(Contents()) + multiset(chain)
    {
      var rest := chain;
      while rest != []
        invariant Placed(hash, buckets[..]) && Contents() + multiset(rest) == old(Contents()) + multiset(chain)
      {
        var e := rest[0];
        assert rest == [e] + rest[1..];
        var i := FindBucket(e);
        ghost var b := buckets[..];
        AllPushed(b, i, e);
        buckets[i] := [e] + buckets[i];
        assert buckets[..] == b[i := [e] + b[i]];
        rest := rest[1..];
      }
    }

    /** Moves the elements of all the old chains into the new, empty ones. */
    method MoveChains(chains: seq<seq<E>>)
      requires bucketCnt == buckets.Length && IsPow2(bucketCnt) && Placed(hash, buckets[..]) && Contents() == multiset{}
      modifies buckets
      ensures Placed(hash, buckets[..]) && Contents() == All(chains)
    {
      for i := 0 to |chains|
        invariant Placed(hash, buckets[..]) && Contents() + All(chains[i..]) == All(chains)
      {
        assert chains[i..][1..] == chains[i + 1..];
        MoveChain(chains[i]);
      }
      assert chains[|chains|..] == [];
    }

    /** Fewer than four elements per bucket and, above four buckets, at least two. */
    ghost predicate Fitted()
      reads this
    {
      elemCnt < 4 * bucketCnt && (bucketCnt == 4 || 2 * bucketCnt <= elemCnt)
    }

    /** Fits the number of buckets to the number of elements, if memory for them can be had. */
    method Rehash(memory: bool)
      requires Valid()
      modifies this`buckets, this`bucketCnt
      ensures Valid() && Contents() == old(Contents())
      ensures buckets == old(buckets) || fresh(buckets)
      ensures if memory then Fitted() else bucketCnt == old(bucketCnt)
    {
      var n := BestBucketCnt(elemCnt);
      if n == bucketCnt || !memory {
        return;
      }
      var chains := buckets[..];
      buckets, bucketCnt := new seq<E>[n](_ => []), n;
      AllEmpty(buckets[..]);
      MoveChains(chains);
    }

    /** Adds `e` unless an element that compares equal is there, which is returned. */
    method Insert(e: E, memory: bool) returns (found: Option<E>)
      requires Valid()
      modifies this`buckets, this`bucketCnt, this`elemCnt, buckets
      ensures Valid() && (found.Some? <==> Has(less, old(Contents()), e))
      ensures found.Some? ==>
              found.value in old(Contents()) && Same(less, found.value, e) && Contents() == old(Contents())
      ensures found.None? ==> Contents() == old(Contents()) + multiset{e}
      ensures if memory then Fitted() else bucketCnt == old(bucketCnt)
      ensures buckets == old(buckets) || fresh(buckets)
    {
      var i := FindBucket(e);
      var at := FindElem(i, e);
      found := None;
      if at.None? {
        InsertElem(i, e);
      } else {
        InAll(buckets[..], buckets[i][at.value]);
        found := Some(buckets[i][at.value]);
      }
      Rehash(memory);
    }

    /** Adds `e` in place of an element that compares equal, which is returned. */
    method Replace(e: E, memory: bool) returns (found: Option<E>)
      requires Valid()
      modifies this`buckets, this`bucketCnt, this`elemCnt, buckets
      ensures Valid() && (found.Some? <==> Has(less, old(Contents()), e))
      ensures found.Some? ==> found.value in old(Contents()) && Same(less, found.value, e)
      ensures Contents() ==
              (if found.Some? then old(Contents()) - multiset{found.value} else old(Contents())) + multiset{e}
      ensures if memory then Fitted() else bucketCnt == old(bucketCnt)
      ensures buckets == old(buckets) || fresh(buckets)
    {
      var i := FindBucket(e);
      var at := FindElem(i, e);
      found := None;
      if at.Some? {
        found := Some(buckets[i][at.value]);
        OnlyOne(hash, less, Contents(), found.value, e);
        RemoveElem(i, at.value);
      }
      InsertElem(i, e);
      Rehash(memory);
    }

    /** Removes the element that compares equal to `e`. */
    method Delete(e: E, memory: bool) returns (found: Option<E>)
      requires Valid()
      modifies this`buckets, this`bucketCnt, this`elemCnt, buckets
      ensures Valid() && (found.Some? <==> Has(less, old(Contents()), e))
      ensures found.Some? ==> found.value in old(Contents()) && Same(less, found.value, e)
      ensures Contents() == if found.Some? then old(Contents()) - multiset{found.value} else old(Contents())
      ensures if memory && found.Some? then Fitted() else bucketCnt == old(bucketCnt)
      ensures buckets == old(buckets) || fresh(buckets)
    {
      var i := FindBucket(e);
      var at := FindElem(i, e);
      if at.None? {
        return None;
      }
      found := Some(buckets[i][at.value]);
      RemoveElem(i, at.value);
      Rehash(memory);
    }
  }
}
