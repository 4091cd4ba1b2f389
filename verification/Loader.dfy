/**
  Loading an executable (`userprog/process.c`): which program headers are accepted,
  the page arithmetic done on them, and the supplemental page table entries that
  make the segment appear page by page when it is first touched.
 */
module Loaders {
  import opened Wrappers
  import opened Disks
  import opened Paging
  import opened VirtualMemories

  /** A loadable program header; the numbers are 32-bit. */
  datatype Phdr = Phdr(offset: nat, vaddr: nat, filesz: nat, memsz: nat, writable: bool)

  predicate Words(ph: Phdr) {
    ph.offset < WORD_LIMIT && ph.vaddr < WORD_LIMIT && ph.filesz < WORD_LIMIT && ph.memsz < WORD_LIMIT
  }

  /** `validate_segment`; sums are taken modulo 2 to the 32. */
  predicate ValidateSegment(ph: Phdr, fileLength: nat) {
    && ph.offset % PGSIZE == ph.vaddr % PGSIZE
    && ph.offset <= fileLength
    && ph.memsz >= ph.filesz
    && ph.memsz != 0
    && ph.vaddr < PHYS_BASE
    && (ph.vaddr + ph.memsz) % WORD_LIMIT < PHYS_BASE
    && (ph.vaddr + ph.memsz) % WORD_LIMIT >= ph.vaddr
    && ph.vaddr >= PGSIZE
  }

  /** The checks leave exactly the segments that lie in user space above page 0, wrap-around included. */
  lemma AcceptedRange(ph: Phdr, fileLength: nat)
    requires Words(ph)
    ensures ValidateSegment(ph, fileLength) <==>
              && 4096 <= ph.vaddr < ph.vaddr + ph.memsz < 0xc000_0000
              && ph.filesz <= ph.memsz && ph.offset <= fileLength
              && ph.offset % PGSIZE == ph.vaddr % PGSIZE
  {
    if ph.vaddr + ph.memsz >= WORD_LIMIT {
      assert (ph.vaddr + ph.memsz) % WORD_LIMIT == ph.vaddr + ph.memsz - WORD_LIMIT < ph.vaddr;
    }
  }

  function RoundUp(x: nat): nat { (x + PGSIZE - 1) % WORD_LIMIT / PGSIZE * PGSIZE }

  /** What `load` hands to `load_segment`. */
  datatype Layout = Layout(filePage: nat, memPage: nat, readBytes: nat, zeroBytes: nat)

  function LayoutOf(ph: Phdr): Layout {
    var pageOffset := ph.vaddr % PGSIZE;
    var end := RoundUp((pageOffset + ph.memsz) % WORD_LIMIT);
    var read := if ph.filesz > 0 then (pageOffset + ph.filesz) % WORD_LIMIT else 0;
    Layout(ph.offset - ph.offset % PGSIZE, ph.vaddr - pageOffset, read, (end - read) % WORD_LIMIT)
  }

  /** The arithmetic on an accepted header never wraps: whole pages, enough of them and not one too many. */
  lemma LayoutExact(ph: Phdr, fileLength: nat)
    requires Words(ph) && ValidateSegment(ph, fileLength)
    ensures var l := LayoutOf(ph); var pageOffset := ph.vaddr % PGSIZE;
            && l.readBytes == (if ph.filesz > 0 then pageOffset + ph.filesz else 0)
            && (l.readBytes + l.zeroBytes) % PGSIZE == 0
            && pageOffset + ph.memsz <= l.readBytes + l.zeroBytes < pageOffset + ph.memsz + PGSIZE
            && l.memPage % PGSIZE == 0 && l.filePage % PGSIZE == 0
            && l.memPage + pageOffset == ph.vaddr && l.filePage + pageOffset == ph.offset
            && l.memPage + l.readBytes + l.zeroBytes <= PHYS_BASE
  {
    hide RoundUp, ValidateSegment;
    AcceptedRange(ph, fileLength);
    var x := ph.vaddr % PGSIZE + ph.memsz;
    assert x % WORD_LIMIT == x;
    RoundUpExact(x);
    WholePages(ph.vaddr - ph.vaddr % PGSIZE, RoundUp(x), ph.vaddr + ph.memsz);
  }

  lemma RoundUpExact(x: nat)
    requires x + PGSIZE <= WORD_LIMIT
    ensures x <= RoundUp(x) < x + PGSIZE && RoundUp(x) % PGSIZE == 0
  {
  }

  lemma WholePages(start: nat, size: nat, last: nat)
    requires start % PGSIZE == 0 && size % PGSIZE == 0 && start + size < last + PGSIZE && last < PHYS_BASE
    ensures start + size <= PHYS_BASE
  {
    assert start + size == PGSIZE * ((start + size) / PGSIZE);
    assert PHYS_BASE == PGSIZE * 786432;
  }

  // ----- The entries of a segment -----

  /** How many bytes of page `i` come from the file. */
  function PageRead(readBytes: nat, i: nat): (r: nat)
    ensures r <= PGSIZE
  {
    if readBytes <= PGSIZE * i then 0 else if readBytes - PGSIZE * i < PGSIZE then readBytes - PGSIZE * i else PGSIZE
  }

  function PageEntry(file: seq<byte>, ofs: nat, readBytes: nat, writable: bool, i: nat): Spte {
    var r := PageRead(readBytes, i);
    Spte(Some(file), ofs + PGSIZE * i, r, PGSIZE - r, writable, false, false, 0)
  }

  /** Byte `j` of a segment loaded all at once. */
  function SegmentByte(file: seq<byte>, ofs: nat, readBytes: nat, j: nat): byte
    requires readBytes > 0 ==> ofs + readBytes <= |file|
  {
    if j < readBytes then file[ofs + j] else 0
  }

  /** The pages hold, between them, the segment loaded all at once. */
  lemma PageImage(file: seq<byte>, ofs: nat, readBytes: nat, writable: bool, i: nat, b: nat)
    requires (readBytes > 0 ==> ofs + readBytes <= |file|) && b < PGSIZE
    ensures Backed(PageEntry(file, ofs, readBytes, writable, i))
    ensures Image(PageEntry(file, ofs, readBytes, writable, i))[b] == SegmentByte(file, ofs, readBytes, PGSIZE * i + b)
  {
    var e := PageEntry(file, ofs, readBytes, writable, i);
    if e.readBytes > 0 {
      assert Image(e) == file[e.ofs..e.ofs + e.readBytes] + seq(e.zeroBytes, _ => 0);
    }
  }

  /** Every page can be read exactly when the file reaches to the end of the segment's file part. */
  lemma AllBacked(file: seq<byte>, ofs: nat, readBytes: nat, writable: bool, pages: nat)
    requires readBytes <= PGSIZE * pages
    ensures (forall i :: 0 <= i < pages ==> Backed(PageEntry(file, ofs, readBytes, writable, i)))
       <==> (readBytes == 0 || ofs + readBytes <= |file|)
  {
    if readBytes == 0 || ofs + readBytes <= |file| {
      forall i | 0 <= i < pages ensures Backed(PageEntry(file, ofs, readBytes, writable, i)) {
        PageImage(file, ofs, readBytes, writable, i, 0);
      }
    } else {
      var last := (readBytes - 1) / PGSIZE;
      assert PGSIZE * last < readBytes <= PGSIZE * (last + 1);
      assert last < pages;
      assert !Backed(PageEntry(file, ofs, readBytes, writable, last));
    }
  }

  function PageKey(pid: nat, upage: nat, i: nat): Key { Key(pid, upage + PGSIZE * i) }

  /** The supplemental entries after the first `n` pages of a segment; pages that have one already keep it. */
  ghost function WithPages(sptes: map<Key, Spte>, pid: nat, file: seq<byte>, ofs: nat, upage: nat,
                           readBytes: nat, writable: bool, n: nat): map<Key, Spte>
  {
    if n == 0 then sptes
    else
      var m := WithPages(sptes, pid, file, ofs, upage, readBytes, writable, n - 1);
      var k := PageKey(pid, upage, n - 1);
      if k in m then m else m[k := PageEntry(file, ofs, readBytes, writable, n - 1)]
  }

  /** Exactly one entry per page: new pages get theirs, all others are as before. */
  lemma {:induction false} WithPagesAre(sptes: map<Key, Spte>, pid: nat, file: seq<byte>, ofs: nat, upage: nat,
                                        readBytes: nat, writable: bool, n: nat)
    ensures var m := WithPages(sptes, pid, file, ofs, upage, readBytes, writable, n);
            && (forall k :: k in sptes ==> k in m && m[k] == sptes[k])
            && (forall i :: 0 <= i < n ==> var k := PageKey(pid, upage, i);
                 k in m && (k !in sptes ==> m[k] == PageEntry(file, ofs, readBytes, writable, i)))
            && (forall k :: k in m && k !in sptes ==>
                 && k.pid == pid && upage <= k.upage < upage + PGSIZE * n && (k.upage - upage) % PGSIZE == 0
                 && m[k].writable == writable && !m[k].loaded && !m[k].swapped)
  {
    hide PageRead;
    if n > 0 {
      WithPagesAre(sptes, pid, file, ofs, upage, readBytes, writable, n - 1);
      var k := PageKey(pid, upage, n - 1);
      assert k !in sptes ==> k !in WithPages(sptes, pid, file, ofs, upage, readBytes, writable, n - 1);
    }
  }

  /** Inserting the entry of one page, or finding one there that is not loaded either. */
  lemma PageInserted(s: State, k: Key, e: Spte)
    requires Inv(s) && !e.loaded && !e.swapped && e.file.Some? && (k in s.sptes ==> !s.sptes[k].loaded)
    ensures k in s.sptes ==> s.sptes[k := s.sptes[k].(loaded := false)] == s.sptes
    ensures k !in s.sptes ==> Inv(InsertStep(s, k, e)) && Flat(InsertStep(s, k, e)) == Flat(s)[k := Image(e)]
  {
    if k !in s.sptes {
      InsertKeeps(s, k, e);
    }
  }

  lemma NewWritable(sptes: map<Key, Spte>, pid: nat, file: seq<byte>, ofs: nat, upage: nat,
                    readBytes: nat, writable: bool, n: nat)
    ensures var m := WithPages(sptes, pid, file, ofs, upage, readBytes, writable, n);
            forall k :: k in m && k !in sptes ==> m[k].writable == writable
  {
    hide WithPages;
    WithPagesAre(sptes, pid, file, ofs, upage, readBytes, writable, n);
  }

  /** Enters one page, unless it has an entry already. */
  method EnterPage(vm: VirtualMemory, k: Key, file: seq<byte>, ofs: nat, readBytes: nat, zeroBytes: nat, writable: bool)
    requires vm.Valid() && (k in vm.sptes ==> !vm.sptes[k].loaded)
    modifies vm`sptes
    ensures vm.Valid()
    ensures vm.sptes == if k in old(vm.sptes) then old(vm.sptes)
                        else old(vm.sptes)[k := Spte(Some(file), ofs, readBytes, zeroBytes, writable, false, false, 0)]
  {
    hide Inv, Flat, Image;
    PageInserted(vm.Snap(), k, Spte(Some(file), ofs, readBytes, zeroBytes, writable, false, false, 0));
    PageInsert(vm, k, file, ofs, readBytes, zeroBytes, writable);
  }

  /** Enters the pages of a segment into the supplemental page table; none is read yet. */
  method LoadSegment(vm: VirtualMemory, pid: nat, file: seq<byte>, ofs: nat, upage: nat,
                     readBytes: nat, zeroBytes: nat, writable: bool)
    requires vm.Valid()
    requires (readBytes + zeroBytes) % PGSIZE == 0 && upage % PGSIZE == 0 && ofs % PGSIZE == 0
    requires forall k :: k in vm.sptes && k.pid == pid ==> !vm.sptes[k].loaded
    modifies vm`sptes
    ensures vm.Valid()
    ensures vm.sptes == WithPages(old(vm.sptes), pid, file, ofs, upage, readBytes, writable,
                                  (readBytes + zeroBytes) / PGSIZE)
    ensures forall k :: k in vm.sptes && k !in old(vm.sptes) ==> vm.sptes[k].writable == writable
  {
    hide Inv, Flat, Image;
    NewWritable(vm.sptes, pid, file, ofs, upage, readBytes, writable, (readBytes + zeroBytes) / PGSIZE);
    var read, zero, page, cur := readBytes, zeroBytes, upage, ofs;
    ghost var i, pages := 0, (readBytes + zeroBytes) / PGSIZE;
    while read > 0 || zero > 0
      invariant vm.Valid() && 0 <= i <= pages && read + zero == PGSIZE * (pages - i)
      invariant read == if readBytes > PGSIZE * i then readBytes - PGSIZE * i else 0
      invariant page == upage + PGSIZE * i && cur == ofs + PGSIZE * i
      invariant vm.sptes == WithPages(old(vm.sptes), pid, file, ofs, upage, readBytes, writable, i)
      invariant forall k :: k in vm.sptes && k.pid == pid ==> !vm.sptes[k].loaded
      decreases read + zero
    {
      var pageRead := if read < PGSIZE then read else PGSIZE;
      var pageZero := PGSIZE - pageRead;
      var k := Key(pid, page);
      ghost var e := Spte(Some(file), cur, pageRead, pageZero, writable, false, false, 0);
      assert pageRead == PageRead(readBytes, i);
      assert e == PageEntry(file, ofs, readBytes, writable, i) && k == PageKey(pid, upage, i);
      EnterPage(vm, k, file, cur, pageRead, pageZero, writable);
      read, zero := read - pageRead, zero - pageZero;
      page, cur := page + PGSIZE, cur + PGSIZE;
      i := i + 1;
    }
    assert i == pages;
  }

  /** `page_insert` makes an entry that counts as loaded unless the page has one; the loader then clears the flag. */
  method PageInsert(vm: VirtualMemory, k: Key, file: seq<byte>, ofs: nat, readBytes: nat, zeroBytes: nat,
                    writable: bool)
    requires vm.Shaped()
    modifies vm`sptes
    ensures k in old(vm.sptes) ==>
            vm.Snap() == old(vm.Snap()).(sptes := old(vm.sptes)[k := old(vm.sptes)[k].(loaded := false)])
    ensures k !in old(vm.sptes) ==>
              vm.Snap() == InsertStep(old(vm.Snap()), k,
                                      Spte(Some(file), ofs, readBytes, zeroBytes, writable, false, false, 0))
  {
    if k !in vm.sptes {
      vm.sptes := vm.sptes[k := Spte(Some(file), ofs, readBytes, zeroBytes, writable, true, false, 0)];
    }
    vm.sptes := vm.sptes[k := vm.sptes[k].(loaded := false)];
    assert k !in old(vm.sptes) ==>
      vm.sptes == old(vm.sptes)[k := Spte(Some(file), ofs, readBytes, zeroBytes, writable, false, false, 0)];
  }

  // ----- What a loaded segment means -----

  /** The pages of the segment of header `ph` were entered for `pid`, to whose entries `before`. */
  ghost predicate SegmentEntered(before: map<Key, Spte>, s: State, pid: nat, file: seq<byte>, ph: Phdr) {
    var l := LayoutOf(ph);
    var pages := (l.readBytes + l.zeroBytes) / PGSIZE;
    && s.sptes == WithPages(before, pid, file, l.filePage, l.memPage, l.readBytes, ph.writable, pages)
    && (forall k :: k in before && k.pid == pid ==> !before[k].loaded)
  }

  /** The value the header promises for byte `j` of the segment. */
  function PromisedByte(file: seq<byte>, ph: Phdr, j: nat): byte
    requires ph.filesz > 0 ==> ph.offset + ph.filesz <= |file|
  {
    if j < ph.filesz then file[ph.offset + j] else 0
  }

  /** Every page of the segment has an entry, with the permission that the header gives unless an earlier segment has
      the page; how long the file is does not matter. */
  lemma SegmentAccess(before: map<Key, Spte>, s: State, pid: nat, file: seq<byte>, ph: Phdr, j: nat)
    requires Words(ph) && ValidateSegment(ph, |file|) && SegmentEntered(before, s, pid, file, ph) && j < ph.memsz
    ensures var k := Key(pid, PageDown(ph.vaddr + j));
            k in s.sptes && s.sptes[k].writable == if k in before then before[k].writable else ph.writable
  {
    hide ValidateSegment, LayoutOf, PageEntry, WithPages, PageDown;
    LayoutExact(ph, |file|);
    var l := LayoutOf(ph);
    var x := ph.vaddr % PGSIZE + j;
    Addresses(l.memPage, x);
    assert ph.vaddr + j == l.memPage + x;
    var pages, i := (l.readBytes + l.zeroBytes) / PGSIZE, x / PGSIZE;
    assert i < pages;
    WithPagesAre(before, pid, file, l.filePage, l.memPage, l.readBytes, ph.writable, pages);
    var k := PageKey(pid, l.memPage, i);
    assert k == Key(pid, PageDown(ph.vaddr + j)) && k in s.sptes;
  }

  /** Loading keeps the promise of the program header, the file's bytes and then zeros, on every page that no
      earlier segment has.  On a page that one has, the bytes promised for that one stay, so that the promise is
      kept exactly where they are the same. */
  lemma SegmentMeaning(before: map<Key, Spte>, s: State, pid: nat, file: seq<byte>, ph: Phdr, j: nat)
    requires Words(ph) && ValidateSegment(ph, |file|) && SegmentEntered(before, s, pid, file, ph) && Inv(s)
    requires (ph.filesz > 0 ==> ph.offset + ph.filesz <= |file|) && j < ph.memsz
    ensures var a := ph.vaddr + j; var k := Key(pid, PageDown(a));
            && k in Flat(s)
            && s.sptes[k].writable == (if k in before then before[k].writable else ph.writable)
            && (k in before ==> Flat(s)[k] == Image(before[k]))
            && (Flat(s)[k][a % PGSIZE] == PromisedByte(file, ph, j) <==>
                 k !in before || Image(before[k])[a % PGSIZE] == PromisedByte(file, ph, j))
  {
    hide Inv, Flat, Image, ValidateSegment, LayoutOf;
    LayoutExact(ph, |file|);
    var l := LayoutOf(ph);
    var x := ph.vaddr % PGSIZE + j;
    Addresses(l.memPage, x);
    assert ph.vaddr + j == l.memPage + x;
    PageMeaning(before, s, pid, file, l, ph.writable, x);
    SegmentAccess(before, s, pid, file, ph, j);
  }

  lemma PageMeaning(before: map<Key, Spte>, s: State, pid: nat, file: seq<byte>, l: Layout, writable: bool, x: nat)
    requires Inv(s) && (l.readBytes + l.zeroBytes) % PGSIZE == 0 && x < l.readBytes + l.zeroBytes
    requires l.readBytes > 0 ==> l.filePage + l.readBytes <= |file|
    requires var pages := (l.readBytes + l.zeroBytes) / PGSIZE;
             s.sptes == WithPages(before, pid, file, l.filePage, l.memPage, l.readBytes, writable, pages)
    requires forall k :: k in before && k.pid == pid ==> !before[k].loaded
    ensures var k := PageKey(pid, l.memPage, x / PGSIZE);
            && k in Flat(s)
            && if k in before then Flat(s)[k] == Image(before[k])
               else Flat(s)[k][x % PGSIZE] == SegmentByte(file, l.filePage, l.readBytes, x)
  {
    hide Inv, Flat, Image;
    var pages, i := (l.readBytes + l.zeroBytes) / PGSIZE, x / PGSIZE;
    WithPagesAre(before, pid, file, l.filePage, l.memPage, l.readBytes, writable, pages);
    UnloadedPage(s, PageKey(pid, l.memPage, i));
    PageImage(file, l.filePage, l.readBytes, writable, i, x % PGSIZE);
  }

  lemma Addresses(memPage: nat, x: nat)
    requires memPage % PGSIZE == 0
    ensures PageDown(memPage + x) == memPage + PGSIZE * (x / PGSIZE)
    ensures (memPage + x) % PGSIZE == x % PGSIZE
  {
  }

  lemma UnloadedPage(s: State, k: Key)
    requires Inv(s) && k in s.sptes && !s.sptes[k].loaded
    ensures k in Flat(s) && Flat(s)[k] == Image(s.sptes[k])
  {
    assert EntryInv(s, k);
  }

  /** Action `a` leaves byte `ofs` of page `k` alone. */
  predicate Spares(a: Action, k: Key, ofs: nat) {
    match a
    case Write(k', ofs', _) => k' != k || ofs' != ofs
    case Grow(k', _) => k' != k
    case Insert(k', _) => k' != k
    case Free(k') => k' != k
    case _ => true
  }

  lemma {:induction false} Untouched(m: map<Key, Page>, actions: seq<Action>, k: Key, ofs: nat)
    requires ofs < PGSIZE && k in m && forall i :: 0 <= i < |actions| ==> Spares(actions[i], k, ofs)
    ensures LastStored(m, actions, k, ofs) == Some(m[k][ofs])
  {
    if actions != [] {
      var n := |actions| - 1;
      Untouched(m, actions[..n], k, ofs);
      assert Spares(actions[n], k, ofs);
    }
  }

  /** Lazy loading equals eager loading: in every run after the segment was entered, whatever the order of
      faults and evictions, a load of a byte that no store has reached yields the byte that is promised for it,
      on every page that no earlier segment has. */
  lemma LazyEqualsEager(before: map<Key, Spte>, pid: nat, file: seq<byte>, ph: Phdr, j: nat,
                        states: seq<State>, actions: seq<Action>, i: nat)
    requires Words(ph) && ValidateSegment(ph, |file|) && j < ph.memsz
    requires ph.filesz > 0 ==> ph.offset + ph.filesz <= |file|
    requires IsRun(states, actions) && Inv(states[0]) && SegmentEntered(before, states[0], pid, file, ph)
    requires i < |actions| && actions[i].Read?
    requires actions[i].k == Key(pid, PageDown(ph.vaddr + j)) && actions[i].ofs == (ph.vaddr + j) % PGSIZE
    requires forall n :: 0 <= n < i ==> Spares(actions[n], actions[i].k, actions[i].ofs)
    ensures actions[i].k !in before ==> actions[i].b == PromisedByte(file, ph, j)
    ensures actions[i].k in before ==> actions[i].b == Image(before[actions[i].k])[actions[i].ofs]
  {
    hide Inv, Flat, Image, ValidateSegment, SegmentEntered, IsRun, LastStored;
    RunLength(states, actions);
    SegmentMeaning(before, states[0], pid, file, ph, j);
    ReadsLastStored(states, actions, i);
    Untouched(Flat(states[0]), actions[..i], actions[i].k, actions[i].ofs);
  }

  /** Program text stays what it is: in no run after a segment that is not writable was entered is there a store to a
      byte of it, on a page that no earlier segment has, until the page is given up. */
  lemma ReadOnlySegment(before: map<Key, Spte>, pid: nat, file: seq<byte>, ph: Phdr, j: nat,
                        states: seq<State>, actions: seq<Action>, i: nat)
    requires Words(ph) && ValidateSegment(ph, |file|) && j < ph.memsz && !ph.writable
    requires IsRun(states, actions) && Inv(states[0]) && SegmentEntered(before, states[0], pid, file, ph)
    requires var k := Key(pid, PageDown(ph.vaddr + j));
             k !in before && i < |actions| && forall n :: 0 <= n < i ==> actions[n] != Free(k)
    ensures !(actions[i].Write? && actions[i].k == Key(pid, PageDown(ph.vaddr + j)))
  {
    hide Inv, Image, ValidateSegment, SegmentEntered, IsRun;
    RunLength(states, actions);
    SegmentAccess(before, states[0], pid, file, ph, j);
    NoStoreToReadOnly(states, actions, i, Key(pid, PageDown(ph.vaddr + j)));
  }

  // ----- Headers that are accepted and do not get what they promise -----

  /** Before a fault any pages may have been entered. */
  lemma EnteredInv(m: map<Key, Spte>)
    requires forall k :: k in m ==> !m[k].loaded && !m[k].swapped && (m[k].readBytes > 0 ==> m[k].file.Some?)
    ensures Inv(SmallMachine().(sptes := m))
  {
  }

  /** Two one-byte segments on one page: the byte of the second is lost. */
  lemma SharedPageLosesByte(pid: nat)
    ensures var first, second := Phdr(0, PGSIZE, 1, 1, true), Phdr(1, PGSIZE + 1, 1, 1, true);
            var file, k := [7, 8], Key(pid, PGSIZE);
            var before := map[k := PageEntry(file, 0, 1, true, 0)];
            var s := SmallMachine().(sptes := before);
            && Words(first) && ValidateSegment(first, |file|) && Words(second) && ValidateSegment(second, |file|)
            && Inv(s) && SegmentEntered(map[], s, pid, file, first) && SegmentEntered(before, s, pid, file, second)
            && k in Flat(s) && Flat(s)[k][1] == 0 && PromisedByte(file, second, 0) == 8
  {
    var first, second := Phdr(0, PGSIZE, 1, 1, true), Phdr(1, PGSIZE + 1, 1, 1, true);
    var file: seq<byte> := [7, 8];
    var k, e := Key(pid, PGSIZE), PageEntry(file, 0, 1, true, 0);
    var before := map[k := e];
    var s := SmallMachine().(sptes := before);
    EnteredInv(before);
    assert LayoutOf(first) == Layout(0, PGSIZE, 1, PGSIZE - 1);
    assert LayoutOf(second) == Layout(0, PGSIZE, 2, PGSIZE - 2);
    assert WithPages(map[], pid, file, 0, PGSIZE, 1, true, 1) == before;
    assert WithPages(before, pid, file, 0, PGSIZE, 2, true, 1) == before;
    UnloadedPage(s, k);
    PageImage(file, 0, 1, true, 0, 1);
  }

  /** A header may be accepted although its file ends before the segment does: the fault on the page then fails. */
  lemma ShortFileAccepted(pid: nat, filesz: nat)
    requires 1 <= filesz <= PGSIZE
    ensures var ph := Phdr(0, PGSIZE, filesz, filesz, true);
            var k, e := Key(pid, PGSIZE), PageEntry([], 0, filesz, true, 0);
            var s := SmallMachine().(sptes := map[k := e]);
            && Words(ph) && ValidateSegment(ph, 0) && Inv(s) && SegmentEntered(map[], s, pid, [], ph)
            && FaultOutcome(s, k, true) == ShortRead(filesz == PGSIZE)
            && FaultOutcome(s, k, false) == if filesz == PGSIZE then Halted else ShortRead(false)
  {
    var ph := Phdr(0, PGSIZE, filesz, filesz, true);
    var k, e := Key(pid, PGSIZE), PageEntry([], 0, filesz, true, 0);
    EnteredInv(map[k := e]);
    LayoutExact(ph, 0);
    assert LayoutOf(ph) == Layout(0, PGSIZE, filesz, PGSIZE - filesz);
    assert WithPages(map[], pid, [], 0, PGSIZE, filesz, true, 1) == map[k := e];
  }

  /** The second page of such a segment can even start beyond the end of the file; the fault on it stops the kernel,
      with or without the file lock. */
  lemma PageBeyondFile(pid: nat, filesz: nat, lock: bool)
    requires PGSIZE < filesz <= 2 * PGSIZE
    ensures var ph := Phdr(0, PGSIZE, filesz, filesz, true);
            var k0, k1 := Key(pid, PGSIZE), Key(pid, 2 * PGSIZE);
            var e0, e1 := PageEntry([], 0, filesz, true, 0), PageEntry([], 0, filesz, true, 1);
            var s := SmallMachine().(sptes := map[k0 := e0, k1 := e1]);
            && Words(ph) && ValidateSegment(ph, 0) && Inv(s) && SegmentEntered(map[], s, pid, [], ph)
            && !Exhausted(s) && FaultOutcome(s, k1, lock) == Halted
  {
    var ph := Phdr(0, PGSIZE, filesz, filesz, true);
    var k0, k1 := Key(pid, PGSIZE), Key(pid, 2 * PGSIZE);
    var e0, e1 := PageEntry([], 0, filesz, true, 0), PageEntry([], 0, filesz, true, 1);
    EnteredInv(map[k0 := e0, k1 := e1]);
    hide Inv, Image;
    LayoutExact(ph, 0);
    assert LayoutOf(ph) == Layout(0, PGSIZE, filesz, 2 * PGSIZE - filesz);
    assert WithPages(map[], pid, [], 0, PGSIZE, filesz, true, 1) == map[k0 := e0];
    assert WithPages(map[], pid, [], 0, PGSIZE, filesz, true, 2) == map[k0 := e0, k1 := e1];
  }

  lemma RunLength(states: seq<State>, actions: seq<Action>)
    requires IsRun(states, actions)
    ensures |states| == |actions| + 1
  {
  }
}
