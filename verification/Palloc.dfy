/**
  The page allocator (`threads/palloc.c`): a kernel pool and a user pool of pages, each with a
  bitmap of used pages kept in the first pages of the pool's memory.  Pages are given by their
  numbers.
 */
module PageAllocators {
  import opened Wrappers
  import opened Bitmaps

  predicate Within(p: nat, cnt: nat, q: nat) { p <= q < p + cnt }

  /** The pages from `p` up to `p + cnt`. */
  ghost function Span(p: nat, cnt: nat): set<nat> {
    set q: nat | p <= q < p + cnt && Within(p, cnt, q)
  }

  lemma InSpan(p: nat, cnt: nat, q: nat)
    ensures q in Span(p, cnt) <==> Within(p, cnt, q)
  {
  }

  /** The used pages of a pool whose map is `s`. */
  ghost function UsedPages(s: seq<bool>, base: nat): set<nat> {
    set q: nat | base <= q < base + |s| && Within(base, |s|, q) && s[q - base]
  }

  lemma TakenPages(s: seq<bool>, base: nat, i: nat, cnt: nat)
    requires IsGroup(s, i, cnt, false)
    ensures UsedPages(Fill(s, i, cnt, true), base) == UsedPages(s, base) + Span(base + i, cnt)
    ensures UsedPages(s, base) !! Span(base + i, cnt)
  {
  }

  lemma ReleasedPages(s: seq<bool>, base: nat, i: nat, cnt: nat)
    requires i + cnt <= |s|
    ensures UsedPages(Fill(s, i, cnt, false), base) == UsedPages(s, base) - Span(base + i, cnt)
  {
  }

  /** No run of `cnt` pages from `lo` up to `hi` is free. */
  ghost predicate NoRun(used: set<nat>, lo: nat, hi: nat, cnt: nat) {
    forall p: nat {:trigger Span(p, cnt)} :: lo <= p && p + cnt <= hi ==> used * Span(p, cnt) != {}
  }

  lemma FitIsFirst(s: seq<bool>, base: nat, cnt: nat, r: Option<nat>)
    requires FirstFit(s, 0, cnt, false, r) && cnt > 0
    ensures r.None? ==> NoRun(UsedPages(s, base), base, base + |s|, cnt)
    ensures r.Some? ==> NoRun(UsedPages(s, base), base, base + r.value + cnt - 1, cnt)
  {
    forall p: nat | base <= p && p + cnt <= base + |s| && (r.Some? ==> p < base + r.value)
      ensures UsedPages(s, base) * Span(p, cnt) != {}
    {
      assert !IsGroup(s, p - base, cnt, false);
      var j :| p - base <= j < p - base + cnt && s[j];
      assert base + j in UsedPages(s, base) * Span(p, cnt);
    }
  }

  // ----- Where the map is kept -----

  /** The bytes that a bitmap of `n` bits takes. */
  function BufSize(n: nat): nat { 8 + 4 * ElemCnt(n) }

  function BitmapPages(n: nat): nat { (BufSize(n) + PGSIZE - 1) / PGSIZE }

  /** The pages set aside hold the map of the pages that are left. */
  lemma MapFits(n: nat)
    requires BitmapPages(n) <= n
    ensures BufSize(n - BitmapPages(n)) <= PGSIZE * BitmapPages(n)
    ensures PGSIZE * (BitmapPages(n) - 1) < 8 + 4 * ((n + 31) / 32) <= PGSIZE * BitmapPages(n)
  {
    assert ELEM_BITS == 32;
    assert ElemCnt(n - BitmapPages(n)) <= ElemCnt(n);
  }

  /** That is as few as the map of all the pages needs, which can be one more than the map of the rest needs. */
  lemma OnePageSpare()
    ensures BitmapPages(32705) == 2 && BufSize(32705 - 1) <= PGSIZE
  {
  }

  class Pool {
    const start: nat
    const base: nat
    const usedMap: Bitmap

    ghost predicate Valid() {
      usedMap.Valid() && BufSize(usedMap.bitCnt) <= PGSIZE * (base - start)
    }

    ghost function End(): nat { base + usedMap.bitCnt }

    ghost function Used(): set<nat>
      requires Valid()
      reads usedMap.bits
    {
      UsedPages(usedMap.Contents(), base)
    }

    /** A pool over `cnt` pages from `start` on; the kernel panics if they do not even hold the map. */
    constructor (start: nat, cnt: nat)
      requires BitmapPages(cnt) <= cnt
      ensures Valid() && this.start == start <= base && End() == start + cnt && Used() == {} && fresh(usedMap.bits)
      ensures PGSIZE * (base - start - 1) < 8 + 4 * ((cnt + 31) / 32) <= PGSIZE * (base - start)
    {
      var pages := BitmapPages(cnt);
      MapFits(cnt);
      this.start, base := start, start + pages;
      usedMap := new Bitmap(cnt - pages);
    }

    /** Whether `page` belongs to this pool. */
    predicate FromPool(page: nat) {
      base <= page < base + usedMap.bitCnt
    }
  }

  class PageAllocator {
    const kernel: Pool
    const user: Pool

    ghost predicate Valid() {
      kernel.Valid() && user.Valid() && kernel.End() <= user.start <= user.base
      && kernel.usedMap.bits != user.usedMap.bits
    }

    ghost function Used(): set<nat>
      requires Valid()
      reads kernel.usedMap.bits, user.usedMap.bits
    {
      kernel.Used() + user.Used()
    }

    /** Half of the memory goes to the user pool, up to a limit, and the rest to the kernel pool. */
    constructor (start: nat, cnt: nat, userLimit: nat)
      requires var users := if cnt / 2 > userLimit then userLimit else cnt / 2;
               BitmapPages(users) <= users && BitmapPages(cnt - users) <= cnt - users
      ensures Valid() && Used() == {} && kernel.start == start && user.End() == start + cnt
      ensures kernel.End() == user.start
      ensures user.End() - user.start == if cnt / 2 > userLimit then userLimit else cnt / 2
      ensures fresh(kernel.usedMap.bits) && fresh(user.usedMap.bits)
    {
      var users := cnt / 2;
      if users > userLimit {
        users := userLimit;
      }
      kernel := new Pool(start, cnt - users);
      user := new Pool(start + (cnt - users), users);
    }

    function PoolOf(isUser: bool): Pool { if isUser then user else kernel }

    /** Takes the first run of `cnt` free pages of a pool. */
    method GetMultiple(isUser: bool, cnt: nat) returns (r: Option<nat>)
      requires Valid()
      modifies kernel.usedMap.bits, user.usedMap.bits
      ensures cnt == 0 ==> r.None?
      ensures r.None? ==> Used() == old(Used())
      ensures r.None? && cnt > 0 ==> NoRun(old(PoolOf(isUser).Used()), PoolOf(isUser).base, PoolOf(isUser).End(), cnt)
      ensures r.Some? ==>
        && PoolOf(isUser).base <= r.value && r.value + cnt <= PoolOf(isUser).End()
        && old(Used()) !! Span(r.value, cnt) && Used() == old(Used()) + Span(r.value, cnt)
        && NoRun(old(PoolOf(isUser).Used()), PoolOf(isUser).base, r.value + cnt - 1, cnt)
    {
      if cnt == 0 {
        return None;
      }
      var pool := PoolOf(isUser);
      ghost var s := pool.usedMap.Contents();
      var idx := pool.usedMap.ScanAndFlip(0, cnt, false);
      FitIsFirst(s, pool.base, cnt, idx);
      if idx.None? {
        return None;
      }
      TakenPages(s, pool.base, idx.value, cnt);
      OtherPool(isUser, pool.base + idx.value, cnt);
      r := Some(pool.base + idx.value);
    }

    /** A run in one pool is apart from the other pool. */
    lemma OtherPool(isUser: bool, p: nat, cnt: nat)
      requires Valid() && PoolOf(isUser).base <= p && p + cnt <= PoolOf(isUser).End()
      ensures Span(p, cnt) !! PoolOf(!isUser).Used()
    {
    }

    /** Gives `cnt` used pages back. */
    method FreeMultiple(page: nat, cnt: nat)
      requires Valid() && Span(page, cnt) <= Used()
      requires (kernel.base <= page && page + cnt <= kernel.End()) || (user.base <= page && page + cnt <= user.End())
      modifies kernel.usedMap.bits, user.usedMap.bits
      ensures Used() == old(Used()) - Span(page, cnt)
    {
      if cnt == 0 {
        return;
      }
      var isUser := !kernel.FromPool(page);
      var pool := PoolOf(isUser);
      ReleasedPages(pool.usedMap.Contents(), pool.base, page - pool.base, cnt);
      OtherPool(isUser, page, cnt);
      pool.usedMap.SetMultiple(page - pool.base, cnt, false);
    }
  }
}
