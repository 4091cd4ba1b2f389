/**
  The block allocator (`threads/malloc.c`).  Blocks of seven sizes are carved out of one-page
  arenas, larger blocks get pages of their own.  A pointer to a block is given by its page and
  its number in the arena; arena headers, which are 12 bytes, and free-list links are kept in
  the fields `arenas` and `free` instead of in the memory they take.
 */
module Mallocs {
  import opened Wrappers
  import opened PageAllocators
  import opened Disks

  // ----- Sizes and addresses -----

  const DESC_CNT := 7

  /** The block size of descriptor `d`. */
  function Size(d: nat): nat {
    if d == 0 then 16 else if d == 1 then 32 else if d == 2 then 64 else if d == 3 then 128
    else if d == 4 then 256 else if d == 5 then 512 else 1024
  }

  /** How many blocks of that size a page holds beside the header. */
  function PerArena(d: nat): nat {
    if d == 0 then 255 else if d == 1 then 127 else if d == 2 then 63 else if d == 3 then 31
    else if d == 4 then 15 else if d == 5 then 7 else 3
  }

  /** `i` times the block size. */
  function Offset(d: nat, i: nat): nat {
    if d == 0 then 16 * i else if d == 1 then 32 * i else if d == 2 then 64 * i else if d == 3 then 128 * i
    else if d == 4 then 256 * i else if d == 5 then 512 * i else 1024 * i
  }

  /** `c` is the least block size with room for `size` bytes. */
  predicate LeastSize(c: nat, size: nat) {
    c in {16, 32, 64, 128, 256, 512, 1024} && size <= c && (c == 16 || c < 2 * size)
  }

  lemma LeastSizeAt(d: nat, size: nat)
    requires d < DESC_CNT && size <= Size(d) && (d > 0 ==> Size(d - 1) < size)
    ensures forall e: nat :: e < DESC_CNT ==> (LeastSize(Size(e), size) <==> e == d)
  {
    forall e: nat | e < DESC_CNT ensures LeastSize(Size(e), size) <==> e == d {
      if e > d {
        SizeDoubles(d, e);
      } else if e < d {
        SizeDoubles(e, d - 1);
      }
    }
  }

  lemma SizeDoubles(d: nat, e: nat)
    requires d <= e < DESC_CNT
    ensures Size(d) <= Size(e) && (d < e ==> 2 * Size(d) <= Size(e)) && (d > 0 ==> Size(d) == 2 * Size(d - 1))
  {
  }

  /** What `malloc_init` puts into the descriptors. */
  method MallocInit() returns (sizes: seq<nat>, counts: seq<nat>)
    ensures |sizes| == |counts| == DESC_CNT
    ensures forall d :: 0 <= d < DESC_CNT ==> sizes[d] == Size(d) && counts[d] == PerArena(d)
  {
    sizes, counts := [], [];
    var blockSize := 16;
    while blockSize < 2048
      invariant |sizes| == |counts| <= DESC_CNT
      invariant blockSize == if |sizes| == DESC_CNT then 2048 else Size(|sizes|)
      invariant forall d :: 0 <= d < |sizes| ==> sizes[d] == Size(d) && counts[d] == PerArena(d)
      decreases 2048 - blockSize
    {
      sizes, counts := sizes + [blockSize], counts + [4084 / blockSize];
      blockSize := blockSize * 2;
    }
  }

  lemma OffsetNext(d: nat, i: nat, j: nat)
    ensures i < j ==> Offset(d, i) + Size(d) <= Offset(d, j)
    ensures Offset(d, PerArena(d)) <= 4084
  {
  }

  datatype Block = Block(page: nat, idx: nat)

  /** An arena header: its descriptor and its free blocks, or no descriptor and the pages of a big block. */
  datatype Arena = Arena(desc: Option<nat>, freeCnt: nat)

  /** The allocator's state; `used` are the pages in use, by anyone. */
  datatype State = State(free: seq<seq<Block>>, arenas: map<nat, Arena>, used: set<nat>)

  function Pages(a: Arena): nat { if a.desc.Some? then 1 else a.freeCnt }

  /** `b` is a block of an arena. */
  predicate IsBlock(s: State, b: Block) {
    b.page in s.arenas && match s.arenas[b.page].desc { case Some(d) => b.idx < PerArena(d) case None => b.idx == 0 }
  }

  function Address(s: State, b: Block): nat
    requires IsBlock(s, b)
  {
    PGSIZE * b.page + 12 + match s.arenas[b.page].desc { case Some(d) => Offset(d, b.idx) case None => 0 }
  }

  /** The bytes a block has room for. */
  function Capacity(s: State, b: Block): int
    requires IsBlock(s, b)
  {
    match s.arenas[b.page].desc { case Some(d) => Size(d) case None => PGSIZE * s.arenas[b.page].freeCnt - 12 }
  }

  /** `b` has been handed out and not been given back. */
  ghost predicate IsLive(s: State, b: Block) {
    IsBlock(s, b) && match s.arenas[b.page].desc { case Some(d) => d < |s.free| && b !in s.free[d] case None => true }
  }

  // ----- The invariant -----

  /** Free lists hold blocks of their own arenas, each once. */
  ghost predicate Listed(s: State) {
    && |s.free| == DESC_CNT
    && (forall d, k :: 0 <= d < DESC_CNT && 0 <= k < |s.free[d]| ==>
        IsBlock(s, s.free[d][k]) && s.arenas[s.free[d][k].page].desc == Some(d))
    && (forall d, k, l :: 0 <= d < DESC_CNT && 0 <= k < l < |s.free[d]| ==> s.free[d][k] != s.free[d][l])
  }

  /** The numbers of the free blocks of the arena at `p`. */
  ghost function FreeIdx(q: seq<Block>, p: nat, n: nat): set<nat> {
    set i: nat | i < n && Block(p, i) in q
  }

  /** The header of the arena at `p` counts its free blocks. */
  ghost predicate CountOk(s: State, p: nat)
    requires |s.free| == DESC_CNT && p in s.arenas
  {
    match s.arenas[p].desc
    case None => true
    case Some(d) => d < DESC_CNT && s.arenas[p].freeCnt == |FreeIdx(s.free[d], p, PerArena(d))|
  }

  ghost predicate Counted(s: State)
    requires |s.free| == DESC_CNT
  {
    forall p :: p in s.arenas ==> CountOk(s, p)
  }

  /** No arena is kept that has only free blocks. */
  ghost predicate NoIdle(s: State) {
    forall p :: p in s.arenas && s.arenas[p].desc.Some? ==> s.arenas[p].freeCnt < PerArena(s.arenas[p].desc.value)
  }

  /** Arenas have pages of their own. */
  ghost predicate Owned(s: State) {
    && (forall p :: p in s.arenas ==> Pages(s.arenas[p]) > 0 && Span(p, Pages(s.arenas[p])) <= s.used)
    && (forall p, q :: p in s.arenas && q in s.arenas && p < q ==> p + Pages(s.arenas[p]) <= q)
  }

  ghost predicate Inv(s: State) {
    Listed(s) && Counted(s) && NoIdle(s) && Owned(s)
  }

  // ----- What the invariant means -----

  /** A block lies in its arena, behind the header. */
  lemma BlockInside(s: State, b: Block)
    requires Owned(s) && IsBlock(s, b)
    ensures PGSIZE * b.page + 12 <= Address(s, b)
    ensures Address(s, b) + Capacity(s, b) <= PGSIZE * (b.page + Pages(s.arenas[b.page]))
  {
    if s.arenas[b.page].desc.Some? {
      var d := s.arenas[b.page].desc.value;
      OffsetNext(d, b.idx, PerArena(d));
    }
  }

  /** Different blocks do not overlap. */
  lemma BlocksDisjoint(s: State, b: Block, c: Block)
    requires Owned(s) && IsBlock(s, b) && IsBlock(s, c) && b != c
    ensures Address(s, b) + Capacity(s, b) <= Address(s, c) || Address(s, c) + Capacity(s, c) <= Address(s, b)
  {
    BlockInside(s, b);
    BlockInside(s, c);
    if b.page == c.page && s.arenas[b.page].desc.Some? {
      OffsetNext(s.arenas[b.page].desc.value, b.idx, c.idx);
      OffsetNext(s.arenas[b.page].desc.value, c.idx, b.idx);
    }
  }

  lemma {:induction false} SubsetSize(xs: set<nat>, n: nat)
    requires forall i :: i in xs ==> i < n
    ensures |xs| <= n
    ensures |xs| == n ==> forall i: nat :: i < n ==> i in xs
  {
    if n > 0 {
      var ys := xs - {n - 1};
      SubsetSize(ys, n - 1);
      assert n - 1 in xs ==> xs == ys + {n - 1};
    } else {
      assert xs == {};
    }
  }

  /** An arena is kept exactly as long as one of its blocks is live. */
  lemma ArenaKept(s: State, p: nat)
    requires Inv(s)
    ensures p in s.arenas <==> exists i: nat :: IsLive(s, Block(p, i))
  {
    if p in s.arenas {
      match s.arenas[p].desc
      case None => assert IsLive(s, Block(p, 0));
      case Some(d) =>
        var n, xs := PerArena(d), FreeIdx(s.free[d], p, PerArena(d));
        assert CountOk(s, p);
        if forall i: nat :: i < n ==> i in xs {
          AllOf(xs, n);
          assert false;
        }
        var i: nat :| i < n && i !in xs;
        assert IsLive(s, Block(p, i));
    }
  }

  lemma {:induction false} AllOf(xs: set<nat>, n: nat)
    requires (forall i :: i in xs ==> i < n) && forall i: nat :: i < n ==> i in xs
    ensures |xs| == n
  {
    if n > 0 {
      AllOf(xs - {n - 1}, n - 1);
    } else {
      assert xs == {};
    }
  }

  // ----- Taking the first block of a free list -----

  ghost predicate Core(s: State) {
    Listed(s) && Counted(s) && Owned(s)
  }

  /** No arena but perhaps the one at `p` has only free blocks. */
  ghost predicate NoIdleBut(s: State, p: nat) {
    forall q :: q in s.arenas && q != p && s.arenas[q].desc.Some? ==>
      s.arenas[q].freeCnt < PerArena(s.arenas[q].desc.value)
  }

  function WithCount(s: State, p: nat, n: nat): map<nat, Arena>
    requires p in s.arenas
  {
    s.arenas[p := s.arenas[p].(freeCnt := n)]
  }

  ghost function Popped(s: State, d: nat): State
    requires Listed(s) && d < DESC_CNT && s.free[d] != [] && s.arenas[s.free[d][0].page].freeCnt > 0
  {
    var p := s.free[d][0].page;
    s.(free := s.free[d := s.free[d][1..]], arenas := WithCount(s, p, s.arenas[p].freeCnt - 1))
  }

  lemma PopCounts(s: State, d: nat)
    requires Core(s) && d < DESC_CNT && s.free[d] != []
    ensures var b := s.free[d][0];
            s.arenas[b.page].freeCnt > 0 && s.arenas[b.page].freeCnt <= PerArena(d)
            && |FreeIdx(s.free[d][1..], b.page, PerArena(d))| == s.arenas[b.page].freeCnt - 1
  {
    var b, q, n := s.free[d][0], s.free[d], PerArena(d);
    var xs := FreeIdx(q, b.page, n);
    assert b == Block(b.page, b.idx) && b in q;
    assert b.idx in xs;
    SubsetSize(xs, n);
    assert b !in q[1..];
    assert q == [b] + q[1..];
    assert FreeIdx(q[1..], b.page, n) == xs - {b.idx};
  }

  lemma PopKeeps(s: State, d: nat)
    requires Core(s) && d < DESC_CNT && s.free[d] != [] && NoIdleBut(s, s.free[d][0].page)
    ensures s.arenas[s.free[d][0].page].freeCnt > 0 && Inv(Popped(s, d))
  {
    PopCounts(s, d);
    PopListed(s, d);
    var b, t := s.free[d][0], Popped(s, d);
    hide Listed, Owned, PerArena;
    forall p | p in t.arenas ensures CountOk(t, p) {
      assert CountOk(s, p);
      if p != b.page && t.arenas[p].desc == Some(d) {
        SameFree(s.free[d], t.free[d], p, PerArena(d)) by {
          assert s.free[d] == [b] + t.free[d];
        }
      }
    }
  }

  lemma SameFree(q: seq<Block>, r: seq<Block>, p: nat, n: nat)
    requires forall i: nat :: i < n ==> (Block(p, i) in q <==> Block(p, i) in r)
    ensures FreeIdx(q, p, n) == FreeIdx(r, p, n)
  {
  }

  lemma PopListed(s: State, d: nat)
    requires Core(s) && d < DESC_CNT && s.free[d] != [] && s.arenas[s.free[d][0].page].freeCnt > 0
    ensures Listed(Popped(s, d)) && Owned(Popped(s, d))
  {
    var q := s.free[d];
    assert q == [q[0]] + q[1..];
  }

  lemma PopLive(s: State, d: nat, c: Block)
    requires Core(s) && d < DESC_CNT && s.free[d] != [] && s.arenas[s.free[d][0].page].freeCnt > 0
    ensures IsBlock(Popped(s, d), c) <==> IsBlock(s, c)
    ensures IsBlock(s, c) ==> Address(Popped(s, d), c) == Address(s, c) && Capacity(Popped(s, d), c) == Capacity(s, c)
    ensures IsLive(Popped(s, d), c) <==> IsLive(s, c) || c == s.free[d][0]
    ensures !IsLive(s, s.free[d][0])
  {
    var b, q := s.free[d][0], s.free[d];
    assert q == [b] + q[1..] && b in q && b !in q[1..];
  }

  // ----- Carving up a new arena -----

  function FreshBlocks(p: nat, n: nat): (q: seq<Block>)
    ensures |q| == n && forall i :: 0 <= i < n ==> q[i] == Block(p, i)
  {
    seq(n, i requires 0 <= i < n => Block(p, i))
  }

  ghost function Carved(s: State, p: nat, d: nat): State
    requires d < |s.free|
  {
    State(s.free[d := FreshBlocks(p, PerArena(d))], s.arenas[p := Arena(Some(d), PerArena(d))], s.used + {p})
  }

  lemma NewPage(s: State, p: nat)
    requires Owned(s) && p !in s.used
    ensures p !in s.arenas && forall q :: q in s.arenas && q < p ==> q + Pages(s.arenas[q]) <= p
  {
    forall q | q in s.arenas && q <= p ensures q < p && q + Pages(s.arenas[q]) <= p {
      assert Within(q, Pages(s.arenas[q]), q);
      InSpan(q, Pages(s.arenas[q]), p);
    }
  }

  lemma CarveKeeps(s: State, p: nat, d: nat)
    requires Inv(s) && d < DESC_CNT && s.free[d] == [] && p !in s.used
    ensures Core(Carved(s, p, d)) && NoIdleBut(Carved(s, p, d), p) && Carved(s, p, d).free[d][0].page == p
  {
    CarveListed(s, p, d);
    var t, n := Carved(s, p, d), PerArena(d);
    FreshFree(p, n);
    hide Listed, Owned, PerArena, FreshBlocks;
    forall q | q in t.arenas ensures CountOk(t, q) {
      if q != p {
        assert CountOk(s, q);
        if t.arenas[q].desc == Some(d) {
          SameFree(s.free[d], t.free[d], q, n);
        }
      }
    }
  }

  lemma FreshFree(p: nat, n: nat)
    ensures |FreeIdx(FreshBlocks(p, n), p, n)| == n
  {
    forall i: nat | i < n ensures i in FreeIdx(FreshBlocks(p, n), p, n) {
      assert FreshBlocks(p, n)[i] == Block(p, i);
    }
    AllOf(FreeIdx(FreshBlocks(p, n), p, n), n);
  }

  lemma CarveListed(s: State, p: nat, d: nat)
    requires Inv(s) && d < DESC_CNT && s.free[d] == [] && p !in s.used
    ensures Listed(Carved(s, p, d)) && Owned(Carved(s, p, d))
  {
    NewPage(s, p);
  }

  /** A new arena changes nothing about the blocks that are there, and none of its own is live. */
  lemma CarveLive(s: State, p: nat, d: nat, c: Block)
    requires Inv(s) && d < DESC_CNT && s.free[d] == [] && p !in s.used
    ensures IsBlock(s, c) ==> IsBlock(Carved(s, p, d), c)
    ensures IsBlock(s, c) ==>
            Address(Carved(s, p, d), c) == Address(s, c) && Capacity(Carved(s, p, d), c) == Capacity(s, c)
    ensures IsLive(Carved(s, p, d), c) <==> IsLive(s, c)
  {
    NewPage(s, p);
    var t := Carved(s, p, d);
    if c.page == p && c.idx < PerArena(d) {
      assert t.free[d][c.idx] == c;
    }
  }

  // ----- Giving a block back -----

  ghost function Pushed(s: State, b: Block): State
    requires IsLive(s, b) && s.arenas[b.page].desc.Some?
  {
    var d := s.arenas[b.page].desc.value;
    s.(free := s.free[d := [b] + s.free[d]], arenas := WithCount(s, b.page, s.arenas[b.page].freeCnt + 1))
  }

  lemma PushKeeps(s: State, b: Block)
    requires Inv(s) && IsLive(s, b) && s.arenas[b.page].desc.Some?
    ensures Core(Pushed(s, b)) && NoIdleBut(Pushed(s, b), b.page)
  {
    var d, t := s.arenas[b.page].desc.value, Pushed(s, b);
    assert CountOk(s, b.page);
    PushListed(s, b);
    PushCounts(s.free[d], b, PerArena(d));
    hide Listed, Owned, PerArena;
    forall p | p in t.arenas ensures CountOk(t, p) {
      assert CountOk(s, p);
      if p != b.page && t.arenas[p].desc == Some(d) {
        SameFree(s.free[d], t.free[d], p, PerArena(d));
      }
    }
  }

  lemma PushListed(s: State, b: Block)
    requires Inv(s) && IsLive(s, b) && s.arenas[b.page].desc.Some?
    ensures Listed(Pushed(s, b)) && Owned(Pushed(s, b))
  {
    assert CountOk(s, b.page);
    assert Owned(Pushed(s, b)) by {
      hide Listed, Counted;
    }
    hide Owned, Counted, NoIdle, CountOk;
  }

  lemma PushCounts(q: seq<Block>, b: Block, n: nat)
    requires b.idx < n && b !in q
    ensures |FreeIdx([b] + q, b.page, n)| == |FreeIdx(q, b.page, n)| + 1
  {
    assert b == Block(b.page, b.idx);
    assert FreeIdx([b] + q, b.page, n) == FreeIdx(q, b.page, n) + {b.idx};
  }

  lemma PushLive(s: State, b: Block, c: Block)
    requires Inv(s) && IsLive(s, b) && s.arenas[b.page].desc.Some?
    ensures IsBlock(Pushed(s, b), c) <==> IsBlock(s, c)
    ensures IsBlock(s, c) ==> Address(Pushed(s, b), c) == Address(s, c) && Capacity(Pushed(s, b), c) == Capacity(s, c)
    ensures IsLive(Pushed(s, b), c) <==> IsLive(s, c) && c != b
  {
  }

  // ----- Giving an idle arena back -----

  /** `q` without the first `n` blocks of the arena at `p`. */
  function Without(q: seq<Block>, p: nat, n: nat): seq<Block> {
    if q == [] then [] else (if q[0].page == p && q[0].idx < n then [] else [q[0]]) + Without(q[1..], p, n)
  }

  /** `list_remove`; the list holds `b` once. */
  function Removed(q: seq<Block>, b: Block): seq<Block> {
    if q == [] then [] else if q[0] == b then q[1..] else [q[0]] + Removed(q[1..], b)
  }

  lemma {:induction false} WithoutIn(q: seq<Block>, p: nat, n: nat, b: Block)
    ensures b in Without(q, p, n) <==> b in q && !(b.page == p && b.idx < n)
  {
    if q != [] {
      WithoutIn(q[1..], p, n, b);
    }
  }

  lemma {:induction false} WithoutOnce(q: seq<Block>, p: nat, n: nat)
    requires forall k, l :: 0 <= k < l < |q| ==> q[k] != q[l]
    ensures var r := Without(q, p, n); forall k, l :: 0 <= k < l < |r| ==> r[k] != r[l]
  {
    if q != [] {
      WithoutOnce(q[1..], p, n);
      WithoutIn(q[1..], p, n, q[0]);
    }
  }

  lemma {:induction false} WithoutNone(q: seq<Block>, p: nat)
    ensures Without(q, p, 0) == q
  {
    if q != [] {
      WithoutNone(q[1..], p);
    }
  }

  /** Removing one block after the other removes them all. */
  lemma {:induction false} WithoutNext(q: seq<Block>, p: nat, n: nat)
    requires forall k, l :: 0 <= k < l < |q| ==> q[k] != q[l]
    ensures Removed(Without(q, p, n), Block(p, n)) == Without(q, p, n + 1)
  {
    if q != [] {
      var r := q[1..];
      WithoutNext(r, p, n);
      if q[0] == Block(p, n) {
        assert q[0] !in r;
        WithoutSame(r, p, n);
      } else if !(q[0].page == p && q[0].idx < n) {
        assert ([q[0]] + Without(r, p, n))[1..] == Without(r, p, n);
      } else {
        assert Without(q, p, n) == Without(r, p, n) && Without(q, p, n + 1) == Without(r, p, n + 1);
      }
    }
  }

  lemma {:induction false} WithoutSame(q: seq<Block>, p: nat, n: nat)
    requires Block(p, n) !in q
    ensures Without(q, p, n) == Without(q, p, n + 1)
  {
    if q != [] {
      assert q[0] in q;
      WithoutSame(q[1..], p, n);
    }
  }

  /** Takes the blocks of the arena at `p` off the list, one after the other. */
  method RemoveBlocks(q: seq<Block>, p: nat, n: nat) returns (r: seq<Block>)
    requires forall k, l :: 0 <= k < l < |q| ==> q[k] != q[l]
    ensures r == Without(q, p, n)
  {
    r := q;
    WithoutNone(q, p);
    for i := 0 to n
      invariant r == Without(q, p, i)
    {
      WithoutNext(q, p, i);
      r := Removed(r, Block(p, i));
    }
  }

  lemma ListOnce(s: State, d: nat)
    requires Listed(s) && d < |s.free|
    ensures forall k, l :: 0 <= k < l < |s.free[d]| ==> s.free[d][k] != s.free[d][l]
  {
  }

  lemma OnePage(p: nat)
    ensures Span(p, 1) == {p}
  {
    InSpan(p, 1, p);
  }

  lemma PageUsed(s: State, p: nat)
    requires Owned(s) && p in s.arenas
    ensures p in s.used
  {
    InSpan(p, Pages(s.arenas[p]), p);
  }

  ghost function Dropped(s: State, p: nat): State
    requires p in s.arenas && s.arenas[p].desc.Some? && s.arenas[p].desc.value < |s.free|
  {
    var d := s.arenas[p].desc.value;
    State(s.free[d := Without(s.free[d], p, PerArena(d))], s.arenas - {p}, s.used - {p})
  }

  lemma DropListed(s: State, p: nat)
    requires Core(s) && p in s.arenas && s.arenas[p].desc.Some? && CountOk(s, p)
    ensures Listed(Dropped(s, p)) && Owned(Dropped(s, p))
  {
    var d, t := s.arenas[p].desc.value, Dropped(s, p);
    var n := PerArena(d);
    WithoutOnce(s.free[d], p, n);
    DropOwned(s, p);
    hide Owned, Counted, CountOk, PerArena;
    forall k | 0 <= k < |t.free[d]| ensures t.free[d][k] in s.free[d] && t.free[d][k].page != p {
      WithoutIn(s.free[d], p, n, t.free[d][k]);
    }
  }

  lemma DropOwned(s: State, p: nat)
    requires Owned(s) && p in s.arenas && s.arenas[p].desc.Some? && s.arenas[p].desc.value < |s.free|
    ensures Owned(Dropped(s, p))
  {
    forall q | q in s.arenas && q != p ensures p !in Span(q, Pages(s.arenas[q])) {
      InSpan(q, Pages(s.arenas[q]), p);
    }
  }

  /** An arena whose blocks are all free can go. */
  lemma DropKeeps(s: State, p: nat)
    requires Core(s) && NoIdleBut(s, p) && p in s.arenas && s.arenas[p].desc.Some? && CountOk(s, p)
    ensures Inv(Dropped(s, p))
  {
    DropListed(s, p);
    var d, t := s.arenas[p].desc.value, Dropped(s, p);
    var n := PerArena(d);
    hide Listed, Owned, PerArena;
    forall q | q in t.arenas ensures CountOk(t, q) {
      assert CountOk(s, q);
      if t.arenas[q].desc == Some(d) {
        forall i: nat | i < n ensures Block(q, i) in t.free[d] <==> Block(q, i) in s.free[d] {
          WithoutIn(s.free[d], p, n, Block(q, i));
        }
        SameFree(s.free[d], t.free[d], q, n);
      }
    }
  }

  lemma DropLive(s: State, p: nat, c: Block)
    requires Core(s) && p in s.arenas && s.arenas[p].desc.Some? && CountOk(s, p)
    requires s.arenas[p].freeCnt == PerArena(s.arenas[p].desc.value)
    ensures IsBlock(Dropped(s, p), c) <==> IsBlock(s, c) && c.page != p
    ensures IsBlock(Dropped(s, p), c) ==>
            Address(Dropped(s, p), c) == Address(s, c) && Capacity(Dropped(s, p), c) == Capacity(s, c)
    ensures IsLive(Dropped(s, p), c) <==> IsLive(s, c)
  {
    var d := s.arenas[p].desc.value;
    WithoutIn(s.free[d], p, PerArena(d), c);
    SubsetSize(FreeIdx(s.free[d], p, PerArena(d)), PerArena(d));
    if c.page == p && c.idx < PerArena(d) {
      assert c.idx in FreeIdx(s.free[d], p, PerArena(d));
      assert c == Block(p, c.idx);
    }
  }

  // ----- Big blocks -----

  ghost function Enlarged(s: State, p: nat, cnt: nat): State {
    s.(arenas := s.arenas[p := Arena(None, cnt)], used := s.used + Span(p, cnt))
  }

  lemma EnlargeKeeps(s: State, p: nat, cnt: nat)
    requires Inv(s) && cnt > 0 && s.used !! Span(p, cnt)
    ensures p !in s.used && Inv(Enlarged(s, p, cnt))
  {
    InSpan(p, cnt, p);
    NewPage(s, p);
    forall q | q in s.arenas && p < q ensures p + cnt <= q {
      InSpan(p, cnt, q);
      InSpan(q, Pages(s.arenas[q]), q);
    }
    forall q | q in s.arenas ensures CountOk(Enlarged(s, p, cnt), q) {
      assert CountOk(s, q);
    }
  }

  lemma EnlargeLive(s: State, p: nat, cnt: nat, c: Block)
    requires Inv(s) && p !in s.used
    ensures IsBlock(s, c) ==> IsBlock(Enlarged(s, p, cnt), c)
    ensures IsBlock(s, c) ==>
            Address(Enlarged(s, p, cnt), c) == Address(s, c) && Capacity(Enlarged(s, p, cnt), c) == Capacity(s, c)
    ensures IsLive(Enlarged(s, p, cnt), c) <==> IsLive(s, c) || c == Block(p, 0)
    ensures !IsBlock(s, Block(p, 0))
  {
    NewPage(s, p);
  }

  ghost function Shrunk(s: State, p: nat): State
    requires p in s.arenas
  {
    s.(arenas := s.arenas - {p}, used := s.used - Span(p, s.arenas[p].freeCnt))
  }

  lemma ShrinkKeeps(s: State, p: nat)
    requires Inv(s) && p in s.arenas && s.arenas[p].desc.None?
    ensures Inv(Shrunk(s, p))
  {
    var t, n := Shrunk(s, p), s.arenas[p].freeCnt;
    forall q | q in t.arenas ensures CountOk(t, q) && Span(q, Pages(t.arenas[q])) <= t.used {
      assert CountOk(s, q);
      forall x | x in Span(q, Pages(t.arenas[q])) ensures x !in Span(p, n) {
        InSpan(q, Pages(t.arenas[q]), x);
        InSpan(p, n, x);
      }
    }
  }

  lemma ShrinkLive(s: State, p: nat, c: Block)
    requires Inv(s) && p in s.arenas && s.arenas[p].desc.None?
    ensures IsBlock(Shrunk(s, p), c) <==> IsBlock(s, c) && c != Block(p, 0)
    ensures IsBlock(Shrunk(s, p), c) ==>
            Address(Shrunk(s, p), c) == Address(s, c) && Capacity(Shrunk(s, p), c) == Capacity(s, c)
    ensures IsLive(Shrunk(s, p), c) <==> IsLive(s, c) && c != Block(p, 0)
  {
  }

  // ----- The allocator -----

  /** What `DIV_ROUND_UP (size + sizeof *a, PGSIZE)` comes to in 32 bits. */
  function PageCnt(size: nat): nat {
    ((size + 12 + PGSIZE - 1) % 0x1_0000_0000) / PGSIZE
  }

  /** A block that many pages long has room for the request, unless the addition wrapped around. */
  lemma PageCntRoom(size: nat)
    requires size < 0x1_0000_0000 && PageCnt(size) > 0
    ensures PGSIZE * PageCnt(size) - 12 >= size <==> size <= 0xFFFF_FFF4
    ensures size > 0xFFFF_FFF4 ==> PageCnt(size) == 1
  {
  }

  lemma PageCntLeast(size: nat)
    requires size < 0x1_0000_0000
    ensures PGSIZE * PageCnt(size) - 12 < size + PGSIZE
  {
  }

  /** The allocator got or lost `b`; all else about its blocks is as before. */
  ghost predicate Gained(s: State, t: State, b: Block) {
    && !IsLive(s, b) && IsLive(t, b)
    && (forall c :: IsLive(t, c) <==> IsLive(s, c) || c == b)
    && (forall c :: IsLive(s, c) ==>
        IsBlock(t, c) && Address(t, c) == Address(s, c) && Capacity(t, c) == Capacity(s, c))
  }

  ghost predicate Lost(s: State, t: State, b: Block) {
    && (forall c :: IsLive(t, c) <==> IsLive(s, c) && c != b)
    && (forall c :: IsLive(t, c) ==>
        IsBlock(s, c) && Address(t, c) == Address(s, c) && Capacity(t, c) == Capacity(s, c))
  }

  lemma PopGains(s: State, d: nat)
    requires Core(s) && d < DESC_CNT && s.free[d] != [] && s.arenas[s.free[d][0].page].freeCnt > 0
    ensures Gained(s, Popped(s, d), s.free[d][0])
    ensures Capacity(Popped(s, d), s.free[d][0]) == Size(d)
  {
    forall c: Block {
      PopLive(s, d, c);
    }
  }

  /** The same blocks are live, in the same places. */
  ghost predicate SameLive(s: State, t: State) {
    && (forall c :: IsLive(t, c) <==> IsLive(s, c))
    && (forall c :: IsLive(t, c) ==>
        IsBlock(s, c) && Address(t, c) == Address(s, c) && Capacity(t, c) == Capacity(s, c))
  }

  lemma SameRefl(s: State)
    ensures SameLive(s, s)
  {
  }

  lemma CarveSame(s: State, p: nat, d: nat)
    requires Inv(s) && d < DESC_CNT && s.free[d] == [] && p !in s.used
    ensures SameLive(s, Carved(s, p, d))
  {
    forall c: Block ensures IsLive(Carved(s, p, d), c) <==> IsLive(s, c) {
      CarveLive(s, p, d, c);
    }
    forall c: Block | IsLive(s, c)
      ensures Address(Carved(s, p, d), c) == Address(s, c) && Capacity(Carved(s, p, d), c) == Capacity(s, c)
    {
      CarveLive(s, p, d, c);
    }
  }

  lemma SameThenGained(s: State, t: State, u: State, b: Block)
    requires SameLive(s, t) && Gained(t, u, b)
    ensures Gained(s, u, b)
  {
    hide IsLive, IsBlock, Address, Capacity;
    forall c: Block | IsLive(s, c)
      ensures IsBlock(s, c) && IsBlock(u, c) && Address(u, c) == Address(s, c) && Capacity(u, c) == Capacity(s, c)
    {
      assert IsLive(t, c);
    }
  }

  lemma EnlargeGains(s: State, p: nat, cnt: nat)
    requires Inv(s) && p !in s.used
    ensures Gained(s, Enlarged(s, p, cnt), Block(p, 0))
  {
    forall c: Block {
      EnlargeLive(s, p, cnt, c);
    }
  }

  /** The pages of the arena of `b`, and no others, go back to the page allocator if the arena is given up. */
  ghost predicate Released(s: State, t: State, b: Block)
    requires b.page in s.arenas
  {
    t.used == if b.page in t.arenas then s.used else s.used - Span(b.page, Pages(s.arenas[b.page]))
  }

  lemma PushLoses(s: State, b: Block)
    requires Inv(s) && IsLive(s, b) && s.arenas[b.page].desc.Some?
    ensures Lost(s, Pushed(s, b), b)
  {
    forall c: Block ensures IsLive(Pushed(s, b), c) <==> IsLive(s, c) && c != b {
      PushLive(s, b, c);
    }
    forall c: Block | IsLive(s, c)
      ensures IsBlock(Pushed(s, b), c) && Address(Pushed(s, b), c) == Address(s, c)
              && Capacity(Pushed(s, b), c) == Capacity(s, c)
    {
      PushLive(s, b, c);
    }
  }

  lemma DropSame(s: State, p: nat)
    requires Core(s) && p in s.arenas && s.arenas[p].desc.Some? && CountOk(s, p)
    requires s.arenas[p].freeCnt == PerArena(s.arenas[p].desc.value)
    ensures SameLive(s, Dropped(s, p))
  {
    var t := Dropped(s, p);
    forall c: Block ensures IsLive(t, c) <==> IsLive(s, c) {
      DropLive(s, p, c);
    }
    forall c: Block | IsLive(t, c)
      ensures IsBlock(s, c) && Address(t, c) == Address(s, c) && Capacity(t, c) == Capacity(s, c)
    {
      DropLive(s, p, c);
    }
  }

  lemma LostThenSame(s: State, t: State, u: State, b: Block)
    requires Lost(s, t, b) && SameLive(t, u)
    ensures Lost(s, u, b)
  {
    forall c: Block {
      LiveIsBlock(u, c);
    }
    hide IsLive, IsBlock, Address, Capacity;
    forall c: Block | IsLive(u, c)
      ensures IsBlock(s, c) && Address(u, c) == Address(s, c) && Capacity(u, c) == Capacity(s, c)
    {
      assert IsLive(t, c);
    }
  }

  lemma LiveIsBlock(s: State, b: Block)
    ensures IsLive(s, b) ==> IsBlock(s, b)
  {
  }

  lemma ShrinkLoses(s: State, p: nat)
    requires Inv(s) && p in s.arenas && s.arenas[p].desc.None?
    ensures Lost(s, Shrunk(s, p), Block(p, 0))
  {
    var t := Shrunk(s, p);
    forall c: Block ensures IsLive(t, c) <==> IsLive(s, c) && c != Block(p, 0) {
      ShrinkLive(s, p, c);
    }
    forall c: Block | IsLive(t, c)
      ensures IsBlock(s, c) && Address(t, c) == Address(s, c) && Capacity(t, c) == Capacity(s, c)
    {
      ShrinkLive(s, p, c);
    }
  }

  // ----- From addresses to blocks -----

  /** `off` divided by the block size. */
  function IdxAt(d: nat, off: nat): nat {
    if d == 0 then off / 16 else if d == 1 then off / 32 else if d == 2 then off / 64 else if d == 3 then off / 128
    else if d == 4 then off / 256 else if d == 5 then off / 512 else off / 1024
  }

  /** The block that the address `a` points to. */
  function BlockAt(arenas: map<nat, Arena>, a: nat): Block {
    var p := a / PGSIZE;
    if p in arenas && arenas[p].desc.Some? && a % PGSIZE >= 12
    then Block(p, IdxAt(arenas[p].desc.value, a % PGSIZE - 12)) else Block(p, 0)
  }

  /** A block is found again from its address. */
  lemma AddressRoundTrip(s: State, b: Block)
    requires IsBlock(s, b)
    ensures BlockAt(s.arenas, Address(s, b)) == b
  {
    if s.arenas[b.page].desc.Some? {
      var d := s.arenas[b.page].desc.value;
      OffsetNext(d, b.idx, PerArena(d));
      assert IdxAt(d, Offset(d, b.idx)) == b.idx;
      assert Address(s, b) == PGSIZE * b.page + (12 + Offset(d, b.idx));
    }
  }

  // ----- Bytes -----

  predicate Inside(s: State, b: Block, a: nat)
    requires IsBlock(s, b)
  {
    Address(s, b) <= a < Address(s, b) + Capacity(s, b)
  }

  /** The live blocks of `s` hold the same bytes in `m` and `m'`. */
  ghost predicate Intact(s: State, m: nat -> byte, m': nat -> byte) {
    forall c, a: nat :: IsLive(s, c) && Inside(s, c, a) ==> m'(a) == m(a)
  }

  /** `m` with `n` bytes from `lo` on overwritten. */
  function Scrubbed(m: nat -> byte, lo: nat, n: nat): nat -> byte {
    (a: nat) => if lo <= a < lo + n then 0xcc else m(a)
  }

  function Copied(m: nat -> byte, to: nat, from: nat, n: nat): nat -> byte {
    (a: nat) => if to <= a < to + n then m(from + (a - to)) else m(a)
  }

  /** Overwriting bytes of a block leaves the others alone. */
  lemma ScrubIntact(s: State, t: State, b: Block, m: nat -> byte, n: nat)
    requires Owned(s) && IsBlock(s, b) && Lost(s, t, b) && n <= Capacity(s, b)
    ensures Intact(t, m, Scrubbed(m, Address(s, b), n))
  {
    forall c, a: nat | IsLive(t, c) && Inside(t, c, a) ensures Scrubbed(m, Address(s, b), n)(a) == m(a) {
      assert IsLive(s, c) && c != b;
      BlocksDisjoint(s, b, c);
    }
  }

  /** Overwriting pages that hold no arena leaves all blocks alone. */
  lemma ScrubPages(s: State, p: nat, cnt: nat, m: nat -> byte)
    requires Owned(s) && forall q :: q in s.arenas ==> q + Pages(s.arenas[q]) <= p || p + cnt <= q
    ensures Intact(s, m, Scrubbed(m, PGSIZE * p, PGSIZE * cnt))
  {
    forall c, a: nat | IsLive(s, c) && Inside(s, c, a) ensures Scrubbed(m, PGSIZE * p, PGSIZE * cnt)(a) == m(a) {
      BlockInside(s, c);
    }
  }

  lemma IntactTwice(s: State, t: State, m: nat -> byte, m': nat -> byte, m'': nat -> byte)
    requires Intact(s, m, m') && SameLive(s, t) && Intact(t, m', m'')
    ensures Intact(t, m, m'')
  {
    forall c, a: nat | IsLive(t, c) && Inside(t, c, a) ensures m''(a) == m(a) {
      assert IsLive(s, c) && Inside(s, c, a);
    }
  }

  /** The page of an arena that is given back is apart from the other arenas. */
  lemma DroppedApart(s: State, p: nat)
    requires Owned(s) && p in s.arenas
    ensures forall q :: q in s.arenas && q != p ==> q + Pages(s.arenas[q]) <= p || p + Pages(s.arenas[p]) <= q
  {
  }

  lemma CountBound(s: State, p: nat)
    requires |s.free| == DESC_CNT && p in s.arenas && CountOk(s, p) && s.arenas[p].desc.Some?
    ensures s.arenas[p].freeCnt <= PerArena(s.arenas[p].desc.value)
  {
    var d := s.arenas[p].desc.value;
    SubsetSize(FreeIdx(s.free[d], p, PerArena(d)), PerArena(d));
  }

  lemma NoIdleNow(s: State, p: nat)
    requires Core(s) && NoIdleBut(s, p) && p in s.arenas && s.arenas[p].desc.Some?
    requires s.arenas[p].freeCnt < PerArena(s.arenas[p].desc.value)
    ensures Inv(s)
  {
  }

  function Least(x: int, y: int): nat {
    if x < 0 || y < 0 then 0 else if x < y then x else y
  }

  /** The `n` bytes of `m` from `a` on. */
  ghost function Bytes(m: nat -> byte, a: nat, n: nat): seq<byte> {
    seq(n, i requires 0 <= i < n => m(a + i))
  }

  /** The live blocks of `s`, but for `b` and `c`, hold the same bytes in `m` and `m'`. */
  ghost predicate KeptBut(s: State, b: Block, c: Block, m: nat -> byte, m': nat -> byte) {
    forall x, a: nat :: IsLive(s, x) && x != b && x != c && Inside(s, x, a) ==> m'(a) == m(a)
  }

  /** Block `c` starts in `m'` with what block `b` started with in `m`. */
  ghost predicate HoldsPrefix(s: State, b: Block, c: Block, size: nat, m: nat -> byte, m': nat -> byte)
    requires IsBlock(s, b) && IsBlock(s, c)
  {
    var n := Least(size, Capacity(s, b));
    Bytes(m', Address(s, c), n) == Bytes(m, Address(s, b), n)
  }

  /** `b` has been given up for the new block `c`. */
  ghost predicate Replaced(s: State, t: State, b: Block, c: Block) {
    && !IsLive(s, c)
    && (forall x :: IsLive(t, x) <==> (IsLive(s, x) && x != b) || x == c)
    && (forall x :: IsLive(s, x) && x != b ==>
        IsBlock(t, x) && Address(t, x) == Address(s, x) && Capacity(t, x) == Capacity(s, x))
  }

  lemma GainedLive(s: State, t: State, c: Block, b: Block)
    requires Gained(s, t, c) && IsLive(s, b)
    ensures IsLive(t, b) && IsLive(t, c) && b != c && Address(t, b) == Address(s, b) && Capacity(t, b) == Capacity(s, b)
  {
  }

  lemma GainedThenLost(s: State, t: State, u: State, c: Block, b: Block)
    requires Gained(s, t, c) && Lost(t, u, b) && IsLive(s, b)
    ensures Replaced(s, u, b, c)
    ensures IsBlock(u, c) && IsBlock(t, c) && Address(u, c) == Address(t, c) && Capacity(u, c) == Capacity(t, c)
  {
    assert IsLive(u, c);
    forall x: Block | IsLive(s, x) && x != b
      ensures IsBlock(u, x) && Address(u, x) == Address(s, x) && Capacity(u, x) == Capacity(s, x)
    {
      assert IsLive(t, x) && IsLive(u, x);
    }
  }

  lemma KeptButBefore(s: State, t: State, c: Block, b: Block, m: nat -> byte, m': nat -> byte)
    requires Gained(s, t, c) && KeptBut(t, b, c, m, m')
    ensures KeptBut(s, b, c, m, m')
  {
    forall x, a: nat | IsLive(s, x) && x != b && x != c && Inside(s, x, a) ensures m'(a) == m(a) {
      assert IsLive(t, x) && Inside(t, x, a);
    }
  }

  /** Moving block `b` to a new block for `size` bytes copies no more than the new block holds. */
  ghost predicate CopyFits(s: State, b: Block, size: nat)
    requires IsBlock(s, b)
  {
    size <= 0xFFFF_FFF4 || Capacity(s, b) <= 4084
  }

  /** The run of `cnt` pages from `p` on is the first free one from `base` on. */
  ghost predicate FirstRun(used: set<nat>, base: nat, p: nat, cnt: nat) {
    base <= p && cnt > 0 && used !! Span(p, cnt) && NoRun(used, base, p + cnt - 1, cnt)
  }

  /** Blocks of one, one and two pages, the first of which is freed, and its page given to a request that wraps
      around. */
  ghost function OverrunRun(): seq<State> {
    var s0 := State(seq(DESC_CNT, _ => []), map[], {});
    var s1 := Enlarged(s0, 1, PageCnt(4084));
    var s2 := Enlarged(s1, 2, PageCnt(4084));
    var s3 := Enlarged(s2, 3, PageCnt(8180));
    var s4 := Shrunk(s3, 1);
    [s0, s1, s2, s3, s4, Enlarged(s4, 1, PageCnt(0xFFFF_FFF5))]
  }

  lemma OverrunPages()
    ensures PageCnt(4084) == PageCnt(0xFFFF_FFF5) == 1 && PageCnt(8180) == 2
    ensures Span(1, 1) == {1} && Span(2, 1) == {2} && Span(3, 2) == {3, 4}
    ensures var r := OverrunRun();
            r[1].used == {1} && r[2].used == {1, 2} && r[3].used == {1, 2, 3, 4} && r[4].used == {2, 3, 4}
  {
  }

  lemma BareInv()
    ensures Inv(State(seq(DESC_CNT, _ => []), map[], {}))
  {
  }

  lemma OverrunSound()
    ensures var r := OverrunRun(); forall i :: 0 <= i < |r| ==> Inv(r[i])
  {
    hide Inv, PageCnt, Span;
    var r := OverrunRun();
    OverrunPages();
    BareInv();
    EnlargeKeeps(r[0], 1, 1);
    EnlargeKeeps(r[1], 2, 1);
    EnlargeKeeps(r[2], 3, 2);
    ShrinkKeeps(r[3], 1);
    EnlargeKeeps(r[4], 1, 1);
  }

  /** The requests of that run get the first free pages, and the states are sound. */
  lemma OverrunReached()
    ensures var r := OverrunRun();
            && (forall b :: !IsLive(r[0], b)) && (forall i :: 0 <= i < |r| ==> Inv(r[i]))
            && FirstRun(r[0].used, 1, 1, PageCnt(4084)) && FirstRun(r[1].used, 1, 2, PageCnt(4084))
            && FirstRun(r[2].used, 1, 3, PageCnt(8180)) && FirstRun(r[4].used, 1, 1, PageCnt(0xFFFF_FFF5))
  {
    hide Inv, PageCnt;
    OverrunPages();
    OverrunSound();
    assert 1 in Span(1, 1) && 1 in Span(1, 2) && 2 in Span(2, 2);
  }

  /** Moving the block of two pages to the page of that request then changes the block behind it. */
  lemma MoveOverruns(m: nat -> byte)
    requires m(PGSIZE * 2 + 12) != m(PGSIZE * 4 + 12)
    ensures var s, b, c := OverrunRun()[5], Block(3, 0), Block(1, 0);
            && IsLive(s, b) && IsLive(s, c)
            && !KeptBut(s, b, c, m, Copied(m, Address(s, c), Address(s, b), Least(0xFFFF_FFF5, Capacity(s, b))))
  {
    hide PageCnt;
    OverrunPages();
    var s, x := OverrunRun()[5], Block(2, 0);
    assert s.arenas == map[1 := Arena(None, 1), 2 := Arena(None, 1), 3 := Arena(None, 2)];
    assert IsLive(s, x) && Inside(s, x, PGSIZE * 2 + 12);
  }

  lemma CapacityPositive(s: State, b: Block)
    requires Owned(s) && IsBlock(s, b)
    ensures Capacity(s, b) > 0
  {
  }

  /** Copying from `b` to `c` and then freeing `b`, when `c` has room. */
  lemma MoveKeeps(s: State, u: State, b: Block, c: Block, size: nat, n: nat,
                  m: nat -> byte, m': nat -> byte, m'': nat -> byte)
    requires Owned(s) && IsLive(s, b) && IsLive(s, c) && b != c
    requires n == Least(size, Capacity(s, b)) <= Capacity(s, c) && m' == Copied(m, Address(s, c), Address(s, b), n)
    requires Lost(s, u, b) && Intact(u, m', m'')
    ensures KeptBut(s, b, c, m, m'') && HoldsPrefix(s, b, c, size, m, m'')
  {
    hide Owned, IsLive, Address, Capacity;
    forall x, a: nat | IsLive(s, x) && x != b && x != c && Inside(s, x, a) ensures m''(a) == m(a) {
      assert IsLive(u, x);
      LiveIsBlock(s, x);
      LiveIsBlock(u, x);
      LiveIsBlock(s, c);
      assert Inside(u, x, a);
      BlocksDisjoint(s, x, c);
    }
    MovePrefix(s, u, b, c, n, m, m', m'');
  }

  lemma MovePrefix(s: State, u: State, b: Block, c: Block, n: nat,
                   m: nat -> byte, m': nat -> byte, m'': nat -> byte)
    requires IsLive(s, b) && IsLive(s, c) && b != c && n <= Capacity(s, c)
    requires m' == Copied(m, Address(s, c), Address(s, b), n) && Lost(s, u, b) && Intact(u, m', m'')
    ensures Bytes(m'', Address(s, c), n) == Bytes(m, Address(s, b), n)
  {
    hide IsLive, Address, Capacity;
    assert IsLive(u, c);
    LiveIsBlock(s, b);
    LiveIsBlock(s, c);
    LiveIsBlock(u, c);
    assert Address(u, c) == Address(s, c) && Capacity(u, c) == Capacity(s, c);
    var x, y := Bytes(m'', Address(s, c), n), Bytes(m, Address(s, b), n);
    forall i | 0 <= i < n ensures x[i] == y[i] {
      assert Inside(u, c, Address(s, c) + i);
    }
  }

  class Heap {
    const pages: PageAllocator
    var free: seq<seq<Block>>
    var arenas: map<nat, Arena>
    var mem: nat -> byte

    ghost predicate Valid()
      reads this`free, this`arenas, pages.kernel.usedMap.bits, pages.user.usedMap.bits
    {
      pages.Valid() && |free| == DESC_CNT && Inv(Snap()) && KernelOnly()
    }

    ghost predicate KernelOnly()
      reads this`arenas
    {
      forall p :: p in arenas ==> InKernel(p, Pages(arenas[p]))
    }

    /** The pages from `p` on belong to the kernel pool. */
    ghost predicate InKernel(p: nat, cnt: nat) {
      pages.kernel.base <= p && p + cnt <= pages.kernel.End()
    }

    ghost function Snap(): State
      requires pages.Valid()
      reads this`free, this`arenas, pages.kernel.usedMap.bits, pages.user.usedMap.bits
    {
      State(free, arenas, pages.Used())
    }

    /** No free run of `cnt` kernel pages is left. */
    ghost predicate NoPages(cnt: nat)
      requires pages.Valid()
      reads pages.kernel.usedMap.bits
    {
      NoRun(pages.kernel.Used(), pages.kernel.base, pages.kernel.End(), cnt)
    }

    constructor (pages: PageAllocator, mem: nat -> byte)
      requires pages.Valid()
      ensures Valid() && this.pages == pages && this.mem == mem && forall b :: !IsLive(Snap(), b)
    {
      this.pages, this.mem := pages, mem;
      free, arenas := seq(DESC_CNT, _ => []), map[];
    }

    /** The smallest descriptor with room for `size` bytes. */
    method FindDesc(size: nat) returns (d: nat)
      ensures d <= DESC_CNT && (d < DESC_CNT ==> size <= Size(d)) && forall e :: 0 <= e < d ==> Size(e) < size
      ensures d == DESC_CNT <==> size > 1024
      ensures d < DESC_CNT ==> forall e: nat :: e < DESC_CNT ==> (LeastSize(Size(e), size) <==> e == d)
    {
      d := 0;
      while d < DESC_CNT && Size(d) < size
        invariant d <= DESC_CNT && forall e :: 0 <= e < d ==> Size(e) < size
      {
        d := d + 1;
      }
      assert d > 0 ==> Size(d - 1) < size;
      if d < DESC_CNT {
        LeastSizeAt(d, size);
      }
    }

    /** Gets pages for a request that is too big for any descriptor. */
    method MallocBig(size: nat) returns (r: Option<Block>)
      requires Valid() && size < 0x1_0000_0000
      modifies this`free, this`arenas, pages.kernel.usedMap.bits, pages.user.usedMap.bits
      ensures Valid()
      ensures r.Some? ==> Gained(old(Snap()), Snap(), r.value)
      ensures r.Some? ==> (Capacity(Snap(), r.value) >= size <==> size <= 0xFFFF_FFF4)
      ensures r.Some? && size > 0xFFFF_FFF4 ==> Capacity(Snap(), r.value) == 4084
      ensures r.Some? ==>
              && Snap() == Enlarged(old(Snap()), r.value.page, PageCnt(size)) && r.value.idx == 0
              && FirstRun(old(pages.kernel.Used()), pages.kernel.base, r.value.page, PageCnt(size))
      ensures r.None? ==> Snap() == old(Snap()) && (PageCnt(size) == 0 || old(NoPages(PageCnt(size))))
    {
      var cnt := PageCnt(size);
      var p := pages.GetMultiple(false, cnt);
      if p.None? {
        return None;
      }
      EnlargeKeeps(old(Snap()), p.value, cnt);
      EnlargeGains(old(Snap()), p.value, cnt);
      PageCntRoom(size);
      arenas := arenas[p.value := Arena(None, cnt)];
      assert Snap() == Enlarged(old(Snap()), p.value, cnt);
      r := Some(Block(p.value, 0));
    }

    /** Makes a new arena and puts its blocks on the free list of `d`. */
    method Carve(d: nat) returns (ok: bool)
      requires Valid() && d < DESC_CNT && free[d] == []
      modifies this`free, this`arenas, pages.kernel.usedMap.bits, pages.user.usedMap.bits
      ensures pages.Valid() && KernelOnly()
      ensures !ok ==> Snap() == old(Snap()) && old(NoPages(1))
      ensures ok ==> exists p :: p !in old(Snap()).used && InKernel(p, 1) && Snap() == Carved(old(Snap()), p, d)
                                 && FirstRun(old(pages.kernel.Used()), pages.kernel.base, p, 1)
    {
      var page := pages.GetMultiple(false, 1);
      if page.None? {
        return false;
      }
      var p := page.value;
      OnePage(p);
      arenas := arenas[p := Arena(Some(d), PerArena(d))];
      var q: seq<Block> := [];
      for i := 0 to PerArena(d)
        invariant |q| == i && forall k :: 0 <= k < i ==> q[k] == Block(p, k)
      {
        q := q + [Block(p, i)];
      }
      free := free[d := q];
      assert q == FreshBlocks(p, PerArena(d));
      assert Snap() == Carved(old(Snap()), p, d);
      ok := true;
    }

    /** Takes the first block of the free list of `d`. */
    method PopBlock(d: nat) returns (b: Block)
      requires pages.Valid() && Core(Snap()) && d < DESC_CNT && free[d] != [] && NoIdleBut(Snap(), free[d][0].page)
               && KernelOnly()
      modifies this`free, this`arenas
      ensures KernelOnly()
      ensures old(Snap().arenas[free[d][0].page].freeCnt) > 0 && Snap() == Popped(old(Snap()), d)
              && b == old(free[d][0])
    {
      PopKeeps(Snap(), d);
      b := free[d][0];
      free := free[d := free[d][1..]];
      arenas := arenas[b.page := arenas[b.page].(freeCnt := arenas[b.page].freeCnt - 1)];
    }

    /** Gets a block from the free list of `d`, or from a new arena. */
    method MallocSmall(d: nat) returns (r: Option<Block>)
      requires Valid() && d < DESC_CNT
      modifies this`free, this`arenas, pages.kernel.usedMap.bits, pages.user.usedMap.bits
      ensures Valid()
      ensures r.Some? ==> Gained(old(Snap()), Snap(), r.value) && Capacity(Snap(), r.value) == Size(d)
      ensures r.None? ==> Snap() == old(Snap()) && old(free[d]) == [] && old(NoPages(1))
      ensures old(free[d]) != [] ==> r == Some(old(free[d])[0]) && pages.Used() == old(pages.Used())
      ensures r.Some? && old(free[d]) == [] ==>
              && FirstRun(old(pages.kernel.Used()), pages.kernel.base, r.value.page, 1)
              && pages.Used() == old(pages.Used()) + {r.value.page}
    {
      hide Listed, Counted, Owned, Gained, SameLive, IsLive, KernelOnly, NoRun, FirstRun;
      ghost var s := Snap();
      if free[d] == [] {
        var ok := Carve(d);
        if !ok {
          return None;
        }
        ghost var p :| p !in s.used && InKernel(p, 1) && Snap() == Carved(s, p, d)
                       && FirstRun(old(pages.kernel.Used()), pages.kernel.base, p, 1);
        CarveKeeps(s, p, d);
        CarveSame(s, p, d);
      } else {
        SameRefl(s);
      }
      ghost var t := Snap();
      PopKeeps(t, d);
      PopGains(t, d);
      var b := PopBlock(d);
      SameThenGained(s, t, Snap(), b);
      r := Some(b);
    }

    /** A new block of at least `size` bytes, if memory for it can be had. */
    method Malloc(size: nat) returns (r: Option<nat>, ghost b: Block)
      requires Valid() && size < 0x1_0000_0000
      modifies this`free, this`arenas, pages.kernel.usedMap.bits, pages.user.usedMap.bits
      ensures Valid()
      ensures r.Some? ==> Gained(old(Snap()), Snap(), b) && IsBlock(Snap(), b) && r.value == Address(Snap(), b)
      ensures r.Some? ==> (Capacity(Snap(), b) >= size <==> size <= 0xFFFF_FFF4)
      ensures r.Some? && size > 0xFFFF_FFF4 ==> Capacity(Snap(), b) == 4084
      ensures size == 0 ==> r.None?
      ensures r.None? ==> Snap() == old(Snap())
      ensures r.None? && 0 < size <= 1024 ==> old(NoPages(1))
      ensures r.None? && 1024 < size ==> PageCnt(size) == 0 || old(NoPages(PageCnt(size)))
      ensures r.Some? && size <= 1024 ==> LeastSize(Capacity(Snap(), b), size)
      ensures forall d: nat :: d < DESC_CNT && size > 0 && LeastSize(Size(d), size) ==>
              && (r.None? ==> old(free)[d] == [])
              && (old(free)[d] != [] ==> b == old(free)[d][0] && pages.Used() == old(pages.Used()))
              && (r.Some? && old(free)[d] == [] ==>
                   && FirstRun(old(pages.kernel.Used()), pages.kernel.base, b.page, 1)
                   && pages.Used() == old(pages.Used()) + {b.page})
      ensures r.Some? && 1024 < size ==>
              && FirstRun(old(pages.kernel.Used()), pages.kernel.base, b.page, PageCnt(size))
              && pages.Used() == old(pages.Used()) + Span(b.page, PageCnt(size))
              && Capacity(Snap(), b) == PGSIZE * PageCnt(size) - 12 < size + PGSIZE
    {
      hide Listed, Counted, Owned, NoIdle, KernelOnly, NoRun, PageCnt, FirstRun;
      b := Block(0, 0);
      if size == 0 {
        return None, b;
      }
      var d := FindDesc(size);
      var block: Option<Block>;
      if d == DESC_CNT {
        block := MallocBig(size);
        PageCntLeast(size);
      } else {
        block := MallocSmall(d);
      }
      if block.None? {
        return None, b;
      }
      b := block.value;
      r := Some(Address(State(free, arenas, {}), block.value));
    }

    /** Gives the page of an arena back whose blocks are all free. */
    method DropArena(p: nat)
      requires pages.Valid() && |free| == DESC_CNT && Core(Snap()) && KernelOnly()
      requires p in arenas && arenas[p].desc.Some? && CountOk(Snap(), p)
      modifies this, pages.kernel.usedMap.bits, pages.user.usedMap.bits
      ensures pages.Valid() && KernelOnly() && Snap() == Dropped(old(Snap()), p)
      ensures mem == Scrubbed(old(mem), PGSIZE * p, PGSIZE)
    {
      hide Listed, Counted, Owned, PerArena, FreeIdx, Without;
      var d := arenas[p].desc.value;
      ListOnce(Snap(), d);
      var q := RemoveBlocks(free[d], p, PerArena(d));
      PageUsed(Snap(), p);
      OnePage(p);
      free := free[d := q];
      arenas := arenas - {p};
      mem := Scrubbed(mem, PGSIZE * p, PGSIZE);
      pages.FreeMultiple(p, 1);
    }

    /** Puts a small block back on its free list. */
    method PushBlock(b: Block)
      requires Valid() && IsLive(Snap(), b) && arenas[b.page].desc.Some?
      modifies this
      ensures pages.Valid() && KernelOnly() && Snap() == Pushed(old(Snap()), b)
      ensures mem == Scrubbed(old(mem), Address(old(Snap()), b), Size(arenas[b.page].desc.value))
    {
      hide Counted, NoIdle, Owned, Listed;
      ghost var t := Pushed(Snap(), b);
      var d := arenas[b.page].desc.value;
      mem := Scrubbed(mem, Address(State(free, arenas, {}), b), Size(d));
      free := free[d := [b] + free[d]];
      arenas := arenas[b.page := arenas[b.page].(freeCnt := arenas[b.page].freeCnt + 1)];
      assert free == t.free && arenas == t.arenas && pages.Used() == t.used;
    }

    /** Frees a small block, and its arena when that is idle then. */
    method FreeSmall(b: Block)
      requires Valid() && IsLive(Snap(), b) && arenas[b.page].desc.Some?
      modifies this, pages.kernel.usedMap.bits, pages.user.usedMap.bits
      ensures Valid() && Lost(old(Snap()), Snap(), b) && Released(old(Snap()), Snap(), b)
              && Intact(Snap(), old(mem), mem)
    {
      ghost var s, m := Snap(), mem;
      assert CountOk(s, b.page);
      OnePage(b.page);
      PushKeeps(s, b);
      PushLoses(s, b);
      PushBlock(b);
      ghost var t, m' := Snap(), mem;
      ScrubIntact(s, t, b, m, Size(arenas[b.page].desc.value));
      assert CountOk(t, b.page) && |free| == DESC_CNT;
      hide Listed, Counted, Owned, Lost, Intact, SameLive, IsLive, KernelOnly, CountOk, FreeIdx;
      CountBound(t, b.page);
      if arenas[b.page].freeCnt >= PerArena(arenas[b.page].desc.value) {
        DropKeeps(t, b.page);
        DropSame(t, b.page);
        DroppedApart(t, b.page);
        DropArena(b.page);
        ghost var u := Snap();
        LostThenSame(s, t, u, b);
        ScrubPages(u, b.page, 1, m');
        IntactTwice(t, u, m, m', mem);
      } else {
        NoIdleNow(t, b.page);
      }
    }

    /** Gives the pages of a big block back. */
    method FreeBig(p: nat)
      requires Valid() && p in arenas && arenas[p].desc.None?
      modifies this, pages.kernel.usedMap.bits, pages.user.usedMap.bits
      ensures Valid() && Lost(old(Snap()), Snap(), Block(p, 0)) && Released(old(Snap()), Snap(), Block(p, 0))
              && Intact(Snap(), old(mem), mem) && Snap() == Shrunk(old(Snap()), p)
    {
      hide Listed, Counted, NoIdle, Lost, Intact;
      ghost var s, m := Snap(), mem;
      ShrinkKeeps(s, p);
      ShrinkLoses(s, p);
      DroppedApart(s, p);
      var cnt := arenas[p].freeCnt;
      arenas := arenas - {p};
      mem := Scrubbed(mem, PGSIZE * p, PGSIZE * cnt);
      pages.FreeMultiple(p, cnt);
      assert Snap() == Shrunk(s, p);
      ScrubPages(Snap(), p, cnt, m);
    }

    /** Frees the block at address `a`, which is the live block `b`; a null pointer is let through. */
    method Free(a: Option<nat>, ghost b: Block)
      requires Valid() && (a.Some? ==> IsLive(Snap(), b) && a.value == Address(Snap(), b))
      modifies this, pages.kernel.usedMap.bits, pages.user.usedMap.bits
      ensures Valid()
      ensures a.Some? ==>
              Lost(old(Snap()), Snap(), b) && Released(old(Snap()), Snap(), b) && Intact(Snap(), old(mem), mem)
      ensures a.None? ==> Snap() == old(Snap()) && mem == old(mem)
    {
      hide Inv, Lost, Intact, KernelOnly;
      if a.Some? {
        AddressRoundTrip(Snap(), b);
        var block := BlockAt(arenas, a.value);
        if arenas[block.page].desc.Some? {
          FreeSmall(block);
        } else {
          FreeBig(block.page);
        }
      }
    }

    /** Copies what fits from the live block `b` at `a` to the live block `c` at `to`, and frees `b`. */
    method CopyAndFree(a: nat, to: nat, size: nat, ghost b: Block, ghost c: Block)
      requires Valid() && IsLive(Snap(), b) && IsLive(Snap(), c) && b != c && a == Address(Snap(), b)
               && to == Address(Snap(), c)
      modifies this, pages.kernel.usedMap.bits, pages.user.usedMap.bits
      ensures Valid() && Lost(old(Snap()), Snap(), b)
      ensures Least(size, old(Capacity(Snap(), b))) <= old(Capacity(Snap(), c)) ==>
        KeptBut(old(Snap()), b, c, old(mem), mem) && HoldsPrefix(old(Snap()), b, c, size, old(mem), mem)
    {
      hide Counted, Listed, NoIdle, KernelOnly, Lost, IsLive;
      ghost var s, m := Snap(), mem;
      LiveIsBlock(s, b);
      LiveIsBlock(s, c);
      AddressRoundTrip(s, b);
      CapacityPositive(s, b);
      var from := BlockAt(arenas, a);
      var oldSize := Capacity(State(free, arenas, {}), from);
      var n := if size < oldSize then size else oldSize;
      mem := Copied(mem, to, a, n);
      ghost var m' := mem;
      Free(Some(a), b);
      if n <= Capacity(s, c) {
        MoveKeeps(s, Snap(), b, c, size, n, m, m', mem);
      }
    }

    /** Moves what the block at `a`, which is the live block `b`, holds to a new block `c` of at least `size` bytes. */
    method Realloc(a: Option<nat>, size: nat, ghost b: Block) returns (r: Option<nat>, ghost c: Block)
      requires Valid() && (a.Some? ==> IsLive(Snap(), b) && a.value == Address(Snap(), b)) && size < 0x1_0000_0000
      modifies this, pages.kernel.usedMap.bits, pages.user.usedMap.bits
      ensures Valid()
      ensures size == 0 ==> r.None? && Intact(Snap(), old(mem), mem)
      ensures size == 0 && a.Some? ==> Lost(old(Snap()), Snap(), b) && Released(old(Snap()), Snap(), b)
      ensures size == 0 && a.None? ==> Snap() == old(Snap())
      ensures size > 0 && r.None? ==> Snap() == old(Snap()) && mem == old(mem)
      ensures r.Some? ==> IsBlock(Snap(), c) && r.value == Address(Snap(), c)
      ensures r.Some? ==> (Capacity(Snap(), c) >= size <==> size <= 0xFFFF_FFF4)
      ensures r.Some? && size <= 1024 ==> LeastSize(Capacity(Snap(), c), size)
      ensures r.Some? && size > 1024 ==> Capacity(Snap(), c) < size + PGSIZE
      ensures r.Some? && a.None? ==> Gained(old(Snap()), Snap(), c) && mem == old(mem)
      ensures r.Some? && a.Some? ==> Replaced(old(Snap()), Snap(), b, c)
      ensures r.Some? && a.Some? ==>
        (Least(size, old(Capacity(Snap(), b))) <= Capacity(Snap(), c) <==> old(CopyFits(Snap(), b, size)))
      ensures r.Some? && a.Some? && old(CopyFits(Snap(), b, size)) ==>
        && KeptBut(old(Snap()), b, c, old(mem), mem)
        && var n := Least(size, old(Capacity(Snap(), b)));
           Bytes(mem, r.value, n) == Bytes(old(mem), a.value, n)
    {
      hide Inv, KernelOnly, Gained, Lost, Replaced, KeptBut, NoRun, PageCnt;
      c := Block(0, 0);
      if size == 0 {
        Free(a, b);
        return None, c;
      }
      ghost var s := Snap();
      r, c := Malloc(size);
      if a.Some? && r.Some? {
        ghost var t := Snap();
        GainedLive(s, t, c, b);
        CopyAndFree(a.value, r.value, size, b, c);
        GainedThenLost(s, t, Snap(), c, b);
        if CopyFits(s, b, size) {
          KeptButBefore(s, t, c, b, old(mem), mem);
        }
      }
    }
  }
}
