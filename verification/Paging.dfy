/**
  Demand paging as a transition system (`vm/frame.c`, `vm/swap.c`, `vm/page.c`,
  `userprog/pagedir.c`, `userprog/exception.c`).

  A page of a process is either in a frame, or in a slot of the swap disk, or
  still (or again) only described by where its initial contents come from.  What
  the processes are meant to see is one flat page each: `Flat`.
 */
module Paging {
  import opened Wrappers
  import opened Disks

  const SECTORS_PER_PAGE := 8

  type Page = p: seq<byte> | |p| == PGSIZE witness ZeroPage()

  function ZeroPage(): (p: seq<byte>)
    ensures |p| == PGSIZE && forall i :: 0 <= i < PGSIZE ==> p[i] == 0
  {
    seq(PGSIZE, _ => 0)
  }

  /** What the page allocator leaves in a page given back to it. */
  function PoisonPage(): (p: seq<byte>)
    ensures |p| == PGSIZE
  {
    seq(PGSIZE, _ => 0xcc)
  }

  /** A user page of a process. */
  datatype Key = Key(pid: nat, upage: nat)

  /** A supplemental page table entry; a stack page has no file. */
  datatype Spte = Spte(file: Option<seq<byte>>, ofs: nat, readBytes: nat, zeroBytes: nat,
                       writable: bool, loaded: bool, swapped: bool, slot: nat)

  datatype Pte = Pte(kpage: nat, present: bool, writable: bool, dirty: bool)

  /** A frame table entry. */
  datatype Frame = Frame(key: Key, kpage: nat)

  /** Kernel pages of the user pool are named by their index in the pool. */
  datatype State = State(used: seq<bool>, ram: seq<Page>, slots: seq<bool>, swap: seq<Sector>,
                         frames: seq<Frame>, dirs: map<Key, Pte>, sptes: map<Key, Spte>)

  // ----- Swap slots -----

  /** The page held by the eight sectors of slot `idx`. */
  function LoadPage(swap: seq<Sector>, idx: nat): Page
    requires SECTORS_PER_PAGE * idx + SECTORS_PER_PAGE <= |swap|
  {
    seq(PGSIZE, i requires 0 <= i < PGSIZE => swap[SECTORS_PER_PAGE * idx + i / SECTOR_SIZE][i % SECTOR_SIZE])
  }

  function StorePage(swap: seq<Sector>, idx: nat, page: Page): (r: seq<Sector>)
    requires SECTORS_PER_PAGE * idx + SECTORS_PER_PAGE <= |swap|
    ensures |r| == |swap|
  {
    seq(|swap|, j requires 0 <= j < |swap| =>
      var k := j - SECTORS_PER_PAGE * idx;
      if 0 <= k < SECTORS_PER_PAGE then page[SECTOR_SIZE * k..SECTOR_SIZE * k + SECTOR_SIZE] else swap[j])
  }

  /** A stored page reads back, and the other slots are untouched. */
  lemma StoreThenLoad(swap: seq<Sector>, idx: nat, page: Page, at: nat)
    requires SECTORS_PER_PAGE * idx + SECTORS_PER_PAGE <= |swap|
    requires SECTORS_PER_PAGE * at + SECTORS_PER_PAGE <= |swap|
    ensures LoadPage(StorePage(swap, idx, page), at) == if at == idx then page else LoadPage(swap, at)
  {
    var r := LoadPage(StorePage(swap, idx, page), at);
    forall i | 0 <= i < PGSIZE ensures r[i] == (if at == idx then page else LoadPage(swap, at))[i] {
      var k := i / SECTOR_SIZE;
      assert 0 <= k < SECTORS_PER_PAGE && SECTOR_SIZE * k + i % SECTOR_SIZE == i;
      var j := SECTORS_PER_PAGE * at + k;
      if at == idx {
        assert StorePage(swap, idx, page)[j] == page[SECTOR_SIZE * k..SECTOR_SIZE * k + SECTOR_SIZE];
      } else {
        assert StorePage(swap, idx, page)[j] == swap[j];
      }
    }
  }

  // ----- What the processes see -----

  predicate Present(s: State, k: Key) { k in s.dirs && s.dirs[k].present }

  /** The file holds all the bytes the entry wants to read from it. */
  predicate Backed(e: Spte) {
    e.readBytes == 0 || (e.file.Some? && e.ofs + e.readBytes <= |e.file.value|)
  }

  /** The initial contents of a page: bytes of its file, zeros after them; a stack page starts out zero. */
  function Image(e: Spte): Page {
    if Backed(e) && 0 < e.readBytes && e.readBytes + e.zeroBytes == PGSIZE
    then e.file.value[e.ofs..e.ofs + e.readBytes] + seq(e.zeroBytes, _ => 0)
    else ZeroPage()
  }

  function PageOf(s: State, k: Key): Page
    requires k in s.sptes
  {
    var e := s.sptes[k];
    if Present(s, k) then (if s.dirs[k].kpage < |s.ram| then s.ram[s.dirs[k].kpage] else ZeroPage())
    else if e.swapped && SECTORS_PER_PAGE * e.slot + SECTORS_PER_PAGE <= |s.swap| then LoadPage(s.swap, e.slot)
    else Image(e)
  }

  function Flat(s: State): map<Key, Page> {
    map k | k in s.sptes :: PageOf(s, k)
  }

  // ----- The invariant -----

  ghost predicate Shapes(s: State) {
    && |s.ram| == |s.used|
    && SECTORS_PER_PAGE * |s.slots| <= |s.swap|
  }

  /** The frame table lists the used pages of the pool, each once, and each is mapped by its owner. */
  ghost predicate FramesInv(s: State) {
    && (forall i :: 0 <= i < |s.frames| ==> s.frames[i].kpage < |s.used| && s.used[s.frames[i].kpage])
    && (forall i, j :: 0 <= i < j < |s.frames| ==> s.frames[i].kpage != s.frames[j].kpage)
    && (forall p :: 0 <= p < |s.used| && s.used[p] ==> HasFrame(s.frames, p))
    && (forall i :: 0 <= i < |s.frames| ==>
         Present(s, s.frames[i].key) && s.dirs[s.frames[i].key].kpage == s.frames[i].kpage)
  }

  ghost predicate HasFrame(frames: seq<Frame>, p: nat) {
    exists i :: 0 <= i < |frames| && frames[i].kpage == p
  }

  /** Every mapped page has a supplemental entry and a frame table entry. */
  ghost predicate MappedInv(s: State) {
    forall k :: Present(s, k) ==> k in s.sptes && Frame(k, s.dirs[k].kpage) in s.frames
  }

  /** The flags of an entry say where its page is, and only writable pages can have been modified. */
  ghost predicate EntryInv(s: State, k: Key)
    requires k in s.sptes
  {
    var e := s.sptes[k];
    && (Present(s, k) <==> e.loaded && !e.swapped)
    && (e.swapped ==> e.loaded && e.writable)
    && (e.readBytes > 0 ==> e.file.Some?)
    && (e.loaded ==> Backed(e))
    && (Present(s, k) ==>
         var pte := s.dirs[k];
         && pte.writable == e.writable
         && (pte.dirty ==> e.writable)
         && (!pte.dirty ==> pte.kpage < |s.ram| && s.ram[pte.kpage] == Image(e)))
  }

  ghost predicate EntriesInv(s: State) {
    forall k :: k in s.sptes ==> EntryInv(s, k)
  }

  /** A swap bit is on exactly when one entry is swapped to that slot. */
  ghost predicate SlotsInv(s: State) {
    && (forall k :: k in s.sptes && s.sptes[k].swapped ==> s.sptes[k].slot < |s.slots| && s.slots[s.sptes[k].slot])
    && (forall k, l :: k in s.sptes && l in s.sptes && s.sptes[k].swapped && s.sptes[l].swapped && k != l ==>
         s.sptes[k].slot != s.sptes[l].slot)
    && (forall j :: 0 <= j < |s.slots| && s.slots[j] ==> HasOwner(s.sptes, j))
  }

  ghost predicate HasOwner(sptes: map<Key, Spte>, j: nat) {
    exists k :: k in sptes && sptes[k].swapped && sptes[k].slot == j
  }

  ghost predicate Inv(s: State) {
    Shapes(s) && FramesInv(s) && MappedInv(s) && EntriesInv(s) && SlotsInv(s)
  }

  /** Two mapped pages never share a frame. */
  lemma FramesDistinct(s: State, k: Key, l: Key)
    requires FramesInv(s) && MappedInv(s) && Present(s, k) && Present(s, l) && k != l
    ensures s.dirs[k].kpage != s.dirs[l].kpage
  {
    var i :| 0 <= i < |s.frames| && s.frames[i] == Frame(k, s.dirs[k].kpage);
    var j :| 0 <= j < |s.frames| && s.frames[j] == Frame(l, s.dirs[l].kpage);
  }

  // ----- Steps -----

  /** Evicts the page at the head of the frame table; a modified one goes to swap slot `slot`. */
  ghost function EvictStep(s: State, slot: nat): State
    requires CanEvict(s, slot)
  {
    var f := s.frames[0];
    var e := s.sptes[f.key];
    var gone := s.(dirs := s.dirs[f.key := s.dirs[f.key].(present := false)],
                   used := s.used[f.kpage := false], ram := s.ram[f.kpage := PoisonPage()],
                   frames := s.frames[1..]);
    if s.dirs[f.key].dirty
    then gone.(sptes := s.sptes[f.key := e.(swapped := true, slot := slot)],
               slots := s.slots[slot := true], swap := StorePage(s.swap, slot, s.ram[f.kpage]))
    else gone.(sptes := s.sptes[f.key := e.(loaded := false)])
  }

  ghost predicate CanEvict(s: State, slot: nat) {
    && Shapes(s) && s.frames != []
    && var f := s.frames[0];
    && f.key in s.sptes && f.key in s.dirs && f.kpage < |s.used|
    && (s.dirs[f.key].dirty ==> slot < |s.slots| && !s.slots[slot])
  }

  /** Maps frame `p`, filled with `page`, at `k`, whose entry becomes `e`. */
  function MapStep(s: State, k: Key, p: nat, page: Page, e: Spte, dirty: bool): State
    requires p < |s.used| && p < |s.ram|
  {
    s.(used := s.used[p := true], ram := s.ram[p := page], frames := s.frames + [Frame(k, p)],
       dirs := s.dirs[k := Pte(p, true, e.writable, dirty)], sptes := s.sptes[k := e])
  }

  /** Brings page `k` in from swap or from its file. */
  function FaultStep(s: State, k: Key, p: nat): State
    requires CanFault(s, k, p)
  {
    var e := s.sptes[k];
    if e.swapped
    then MapStep(s.(slots := s.slots[e.slot := false]), k, p, LoadPage(s.swap, e.slot), e.(swapped := false), true)
    else MapStep(s, k, p, Image(e), e.(loaded := true), false)
  }

  predicate CanFault(s: State, k: Key, p: nat) {
    && |s.ram| == |s.used| && p < |s.used| && !s.used[p]
    && k in s.sptes && !Present(s, k)
    && var e := s.sptes[k];
       if e.swapped then e.slot < |s.slots| && SECTORS_PER_PAGE * e.slot + SECTORS_PER_PAGE <= |s.swap|
       else e.readBytes + e.zeroBytes == PGSIZE && Backed(e)
  }

  /** The entry of a stack page. */
  const STACK_ENTRY := Spte(None, 0, 0, 0, true, true, false, 0)

  /** A new, zeroed stack page. */
  function GrowStep(s: State, k: Key, p: nat): State
    requires CanGrow(s, k, p)
  {
    MapStep(s, k, p, ZeroPage(), STACK_ENTRY, false)
  }

  predicate CanGrow(s: State, k: Key, p: nat) {
    |s.ram| == |s.used| && p < |s.used| && !s.used[p] && k !in s.sptes
  }

  /** The processor stores a byte and sets the dirty bit. */
  function WriteStep(s: State, k: Key, ofs: nat, b: byte): State
    requires CanAccess(s, k, ofs)
  {
    var p := s.dirs[k].kpage;
    s.(ram := s.ram[p := s.ram[p][ofs := b]], dirs := s.dirs[k := s.dirs[k].(dirty := true)])
  }

  predicate CanAccess(s: State, k: Key, ofs: nat) {
    Present(s, k) && s.dirs[k].kpage < |s.ram| && ofs < PGSIZE
  }

  /** A page that is to be loaded from a file when first touched. */
  function InsertStep(s: State, k: Key, e: Spte): State {
    s.(sptes := s.sptes[k := e])
  }

  predicate CanInsert(s: State, k: Key, e: Spte) {
    k !in s.sptes && !e.loaded && !e.swapped && (e.readBytes > 0 ==> e.file.Some?)
  }

  function Without(frames: seq<Frame>, p: nat): seq<Frame> {
    if frames == [] then [] else if frames[0].kpage == p then frames[1..] else [frames[0]] + Without(frames[1..], p)
  }

  /** Unmaps page `k`, if it is mapped, and gives its frame back. */
  function UnmapStep(s: State, k: Key): State
    requires CanFree(s, k)
  {
    if Present(s, k)
    then var p := s.dirs[k].kpage;
         s.(dirs := s.dirs[k := s.dirs[k].(present := false)],
            used := s.used[p := false], ram := s.ram[p := PoisonPage()], frames := Without(s.frames, p))
    else s
  }

  /** Gives up page `k` and whatever frame or swap slot it has. */
  function FreeStep(s: State, k: Key): State
    requires CanFree(s, k)
  {
    var e := s.sptes[k];
    UnmapStep(s, k).(slots := if e.swapped then s.slots[e.slot := false] else s.slots, sptes := s.sptes - {k})
  }

  predicate CanFree(s: State, k: Key) {
    && k in s.sptes
    && (Present(s, k) ==> s.dirs[k].kpage < |s.used| && s.dirs[k].kpage < |s.ram|)
    && (s.sptes[k].swapped ==> s.sptes[k].slot < |s.slots|)
  }

  // ----- Every step keeps the invariant and changes what processes see only as it should -----

  /** The page at the head of the frame table is the page of an entry, and can be evicted if it is clean. */
  lemma HeadFrame(s: State)
    requires Inv(s) && s.frames != []
    ensures var f := s.frames[0];
            && f.key in s.sptes && Present(s, f.key) && s.dirs[f.key].kpage == f.kpage < |s.used|
            && s.sptes[f.key].loaded && !s.sptes[f.key].swapped
  {
    assert Present(s, s.frames[0].key);
    assert EntryInv(s, s.frames[0].key);
  }

  /** `t` is `s` with the page of frame table entry `i` unmapped and its frame given back. */
  ghost predicate Unmaps(s: State, t: State, i: nat) {
    && i < |s.frames| && s.frames[i].key in s.dirs && s.frames[i].kpage < |s.used|
    && t.frames == s.frames[..i] + s.frames[i + 1..]
    && t.used == s.used[s.frames[i].kpage := false]
    && t.dirs == s.dirs[s.frames[i].key := s.dirs[s.frames[i].key].(present := false)]
  }

  lemma UnmapFrames(s: State, t: State, i: nat)
    requires FramesInv(s) && Unmaps(s, t, i)
    ensures FramesInv(t)
  {
    var f := s.frames[i];
    assert forall j :: 0 <= j < |t.frames| ==> t.frames[j] == s.frames[if j < i then j else j + 1];
    forall j | 0 <= j < |t.frames|
      ensures Present(t, t.frames[j].key) && t.dirs[t.frames[j].key].kpage == t.frames[j].kpage
    {
      var j0 := if j < i then j else j + 1;
      assert s.frames[j0].kpage != f.kpage;
      assert Present(s, s.frames[j0].key) && s.dirs[s.frames[j0].key].kpage == s.frames[j0].kpage;
    }
    forall q | 0 <= q < |t.used| && t.used[q] ensures HasFrame(t.frames, q) {
      assert HasFrame(s.frames, q);
      HasFrameWithout(s.frames, i, q);
    }
  }

  lemma HasFrameWithout(frames: seq<Frame>, i: nat, q: nat)
    requires i < |frames| && HasFrame(frames, q) && frames[i].kpage != q
    ensures HasFrame(frames[..i] + frames[i + 1..], q)
  {
    var j :| 0 <= j < |frames| && frames[j].kpage == q;
    assert (frames[..i] + frames[i + 1..])[if j < i then j else j - 1] == frames[j];
  }

  lemma UnmapMapped(s: State, t: State, i: nat, l: Key)
    requires FramesInv(s) && MappedInv(s) && Unmaps(s, t, i) && Present(t, l)
    ensures l in s.sptes && l != s.frames[i].key && Frame(l, t.dirs[l].kpage) in t.frames
  {
    hide FramesInv;
    assert Present(s, l) && l != s.frames[i].key;
    var j :| 0 <= j < |s.frames| && s.frames[j] == Frame(l, s.dirs[l].kpage);
    assert t.frames[if j < i then j else j - 1] == s.frames[j];
  }

  lemma EvictFrames(s: State, slot: nat)
    requires Inv(s) && CanEvict(s, slot)
    ensures FramesInv(EvictStep(s, slot)) && MappedInv(EvictStep(s, slot))
  {
    var t := EvictStep(s, slot);
    assert Unmaps(s, t, 0);
    hide FramesInv, EntriesInv, SlotsInv, EvictStep, Unmaps;
    UnmapFrames(s, t, 0);
    forall l | Present(t, l) ensures l in t.sptes && Frame(l, t.dirs[l].kpage) in t.frames {
      UnmapMapped(s, t, 0, l);
      EvictKeys(s, slot);
    }
  }

  lemma EvictKeys(s: State, slot: nat)
    requires CanEvict(s, slot)
    ensures EvictStep(s, slot).sptes.Keys == s.sptes.Keys
  {
  }

  lemma EvictEntries(s: State, slot: nat)
    requires Inv(s) && CanEvict(s, slot)
    ensures EntriesInv(EvictStep(s, slot))
  {
    var t, f := EvictStep(s, slot), s.frames[0];
    HeadFrame(s);
    forall k | k in t.sptes ensures EntryInv(t, k) {
      assert EntryInv(s, k);
      if k != f.key && Present(s, k) {
        FramesDistinct(s, k, f.key);
      }
    }
  }

  lemma EvictSlots(s: State, slot: nat)
    requires Inv(s) && CanEvict(s, slot)
    ensures SlotsInv(EvictStep(s, slot))
  {
    var t, f := EvictStep(s, slot), s.frames[0];
    HeadFrame(s);
    forall j | 0 <= j < |t.slots| && t.slots[j] ensures HasOwner(t.sptes, j) {
      if s.dirs[f.key].dirty && j == slot {
        assert t.sptes[f.key].slot == j;
      } else {
        assert HasOwner(s.sptes, j);
        var k :| k in s.sptes && s.sptes[k].swapped && s.sptes[k].slot == j;
        assert t.sptes[k] == s.sptes[k];
      }
    }
  }

  /** Eviction is invisible. */
  lemma EvictKeeps(s: State, slot: nat)
    requires Inv(s) && CanEvict(s, slot)
    ensures Inv(EvictStep(s, slot)) && Flat(EvictStep(s, slot)) == Flat(s)
  {
    EvictFrames(s, slot);
    EvictEntries(s, slot);
    EvictSlots(s, slot);
    hide FramesInv, MappedInv, EntriesInv, SlotsInv, PageOf;
    EvictKeys(s, slot);
    forall k | k in s.sptes ensures PageOf(EvictStep(s, slot), k) == PageOf(s, k) {
      EvictPage(s, slot, k);
    }
    SameFlat(s, EvictStep(s, slot));
  }

  lemma EvictPage(s: State, slot: nat, k: Key)
    requires Inv(s) && CanEvict(s, slot) && k in s.sptes
    ensures PageOf(EvictStep(s, slot), k) == PageOf(s, k)
  {
    var f := s.frames[0];
    HeadFrame(s);
    assert EntryInv(s, k);
    assert s.sptes[k].swapped ==> s.sptes[k].slot < |s.slots| && s.slots[s.sptes[k].slot];
    hide FramesInv, MappedInv, EntriesInv, SlotsInv, LoadPage, StorePage, Image, ZeroPage;
    if k == f.key {
      if s.dirs[k].dirty {
        StoreThenLoad(s.swap, slot, s.ram[f.kpage], slot);
      }
    } else if Present(s, k) {
      FramesDistinct(s, k, f.key);
    } else if s.sptes[k].swapped && s.dirs[f.key].dirty {
      StoreThenLoad(s.swap, slot, s.ram[f.kpage], s.sptes[k].slot);
    }
  }

  /** A full pool of at least one page always has a page to evict, and evicting it makes room. */
  lemma EvictionMakesRoom(s: State, slot: nat)
    requires Inv(s) && |s.used| > 0 && (forall p :: 0 <= p < |s.used| ==> s.used[p])
    ensures s.frames != []
    ensures CanEvict(s, slot) ==> !EvictStep(s, slot).used[s.frames[0].kpage]
  {
    assert s.used[0];
    assert HasFrame(s.frames, 0);
  }

  /** Mapping a page that was not mapped, in a frame that was not used. */
  lemma MapKeeps(s: State, k: Key, p: nat, page: Page, e: Spte, dirty: bool)
    requires Shapes(s) && FramesInv(s) && MappedInv(s) && p < |s.used| && !s.used[p] && !Present(s, k)
    requires forall l :: l in s.sptes && l != k ==> EntryInv(s, l)
    requires e.loaded && !e.swapped && Backed(e) && (dirty ==> e.writable) && (!dirty ==> page == Image(e))
    ensures var t := MapStep(s, k, p, page, e, dirty);
            && Shapes(t) && FramesInv(t) && MappedInv(t) && EntriesInv(t)
            && t.sptes.Keys == s.sptes.Keys + {k} && PageOf(t, k) == page
            && forall l :: l in s.sptes && l != k ==> PageOf(t, l) == PageOf(s, l)
  {
    var t := MapStep(s, k, p, page, e, dirty);
    MapFrames(s, k, p, page, e, dirty);
    forall l | l in s.sptes && l != k ensures EntryInv(t, l) && PageOf(t, l) == PageOf(s, l) {
      if Present(s, l) {
        UsedFrame(s, l);
      }
    }
    assert EntryInv(t, k);
  }

  lemma UsedFrame(s: State, k: Key)
    requires FramesInv(s) && MappedInv(s) && Present(s, k)
    ensures s.dirs[k].kpage < |s.used| && s.used[s.dirs[k].kpage]
  {
    var i :| 0 <= i < |s.frames| && s.frames[i] == Frame(k, s.dirs[k].kpage);
  }

  lemma MapFrames(s: State, k: Key, p: nat, page: Page, e: Spte, dirty: bool)
    requires Shapes(s) && FramesInv(s) && MappedInv(s) && p < |s.used| && !s.used[p] && !Present(s, k)
    ensures FramesInv(MapStep(s, k, p, page, e, dirty)) && MappedInv(MapStep(s, k, p, page, e, dirty))
  {
    MapMapped(s, k, p, page, e, dirty);
    hide MappedInv;
    var t := MapStep(s, k, p, page, e, dirty);
    forall i | 0 <= i < |t.frames|
      ensures Present(t, t.frames[i].key) && t.dirs[t.frames[i].key].kpage == t.frames[i].kpage
    {
      if i < |s.frames| {
        assert t.frames[i] == s.frames[i];
      }
    }
    forall q | 0 <= q < |t.used| && t.used[q] ensures HasFrame(t.frames, q) {
      if q == p {
        assert t.frames[|s.frames|].kpage == p;
      } else {
        assert HasFrame(s.frames, q);
        var i :| 0 <= i < |s.frames| && s.frames[i].kpage == q;
        assert t.frames[i] == s.frames[i];
      }
    }
  }

  lemma MapMapped(s: State, k: Key, p: nat, page: Page, e: Spte, dirty: bool)
    requires Shapes(s) && MappedInv(s) && p < |s.used|
    ensures MappedInv(MapStep(s, k, p, page, e, dirty))
  {
    var t := MapStep(s, k, p, page, e, dirty);
    forall l | Present(t, l) ensures l in t.sptes && Frame(l, t.dirs[l].kpage) in t.frames {
      if l == k {
        assert t.frames[|s.frames|] == Frame(k, p);
      } else {
        assert Present(s, l);
        var i :| 0 <= i < |s.frames| && s.frames[i] == Frame(l, s.dirs[l].kpage);
        assert t.frames[i] == s.frames[i];
      }
    }
  }

  /** Resolving a fault is invisible: the frame holds what the page held, wherever that was. */
  lemma FaultKeeps(s: State, k: Key, p: nat)
    requires Inv(s) && CanFault(s, k, p)
    ensures Inv(FaultStep(s, k, p)) && Flat(FaultStep(s, k, p)) == Flat(s) && Present(FaultStep(s, k, p), k)
  {
    var t := FaultStep(s, k, p);
    FaultSlots(s, k, p);
    FaultMaps(s, k, p);
    hide FramesInv, MappedInv, EntriesInv, SlotsInv;
    SameFlat(s, t);
  }

  lemma SameFlat(s: State, t: State)
    requires t.sptes.Keys == s.sptes.Keys && forall k :: k in s.sptes ==> PageOf(t, k) == PageOf(s, k)
    ensures Flat(t) == Flat(s)
  {
    hide PageOf;
  }

  lemma FaultMaps(s: State, k: Key, p: nat)
    requires Inv(s) && CanFault(s, k, p)
    ensures var t := FaultStep(s, k, p);
            && Shapes(t) && FramesInv(t) && MappedInv(t) && EntriesInv(t)
            && t.sptes.Keys == s.sptes.Keys && Present(t, k)
            && forall l :: l in s.sptes ==> PageOf(t, l) == PageOf(s, l)
  {
    var e := s.sptes[k];
    assert EntryInv(s, k) && Backed(e);
    var s0 := if e.swapped then s.(slots := s.slots[e.slot := false]) else s;
    SlotsIrrelevant(s, s0);
    hide FramesInv, MappedInv, EntriesInv, SlotsInv, EntryInv, Image, LoadPage;
    if e.swapped {
      MapKeeps(s0, k, p, LoadPage(s.swap, e.slot), e.(swapped := false), true);
    } else {
      ImageKept(e);
      MapKeeps(s0, k, p, Image(e), e.(loaded := true), false);
    }
  }

  lemma ImageKept(e: Spte)
    ensures Image(e.(loaded := true)) == Image(e)
  {
  }

  /** Nothing but the swap bits' own invariant depends on them. */
  lemma SlotsIrrelevant(s: State, s0: State)
    requires Inv(s) && s0 == s.(slots := s0.slots) && |s0.slots| == |s.slots|
    ensures Shapes(s0) && FramesInv(s0) && MappedInv(s0) && EntriesInv(s0)
    ensures forall l :: l in s.sptes ==> EntryInv(s0, l) && PageOf(s0, l) == PageOf(s, l)
  {
    hide SlotsInv;
    assert forall l :: Present(s0, l) == Present(s, l);
    assert forall l :: l in s.sptes ==> EntryInv(s, l);
  }

  lemma FaultSlots(s: State, k: Key, p: nat)
    requires Inv(s) && CanFault(s, k, p)
    ensures SlotsInv(FaultStep(s, k, p))
  {
    hide FramesInv, MappedInv, EntriesInv;
    var t := FaultStep(s, k, p);
    forall j | 0 <= j < |t.slots| && t.slots[j] ensures HasOwner(t.sptes, j) {
      assert HasOwner(s.sptes, j);
      var l :| l in s.sptes && s.sptes[l].swapped && s.sptes[l].slot == j;
      assert l != k && t.sptes[l] == s.sptes[l];
    }
  }

  /** A new entry that is not swapped takes no slot. */
  lemma NewEntrySlots(s: State, t: State, k: Key)
    requires SlotsInv(s) && t.slots == s.slots && k !in s.sptes
    requires k in t.sptes && !t.sptes[k].swapped && t.sptes == s.sptes[k := t.sptes[k]]
    ensures SlotsInv(t)
  {
    forall j | 0 <= j < |t.slots| && t.slots[j] ensures HasOwner(t.sptes, j) {
      assert HasOwner(s.sptes, j);
      var l :| l in s.sptes && s.sptes[l].swapped && s.sptes[l].slot == j;
      assert t.sptes[l] == s.sptes[l];
    }
  }

  /** Growing the stack adds one zeroed page. */
  lemma GrowKeeps(s: State, k: Key, p: nat)
    requires Inv(s) && CanGrow(s, k, p)
    ensures Inv(GrowStep(s, k, p)) && Flat(GrowStep(s, k, p)) == Flat(s)[k := ZeroPage()]
  {
    var t := GrowStep(s, k, p);
    assert !Present(s, k);
    NewEntrySlots(s, t, k);
    MapKeeps(s, k, p, ZeroPage(), STACK_ENTRY, false);
    hide FramesInv, MappedInv, SlotsInv, EntriesInv;
    AddedFlat(s, t, k, ZeroPage());
  }

  lemma AddedFlat(s: State, t: State, k: Key, page: Page)
    requires t.sptes.Keys == s.sptes.Keys + {k} && k !in s.sptes
    requires PageOf(t, k) == page && forall l :: l in s.sptes && l != k ==> PageOf(t, l) == PageOf(s, l)
    ensures Flat(t) == Flat(s)[k := page]
  {
    hide PageOf;
    assert Flat(t).Keys == Flat(s)[k := page].Keys;
  }

  /** A store changes one byte of one page of one process. */
  lemma WriteKeeps(s: State, k: Key, ofs: nat, b: byte)
    requires Inv(s) && CanAccess(s, k, ofs) && s.dirs[k].writable
    ensures Inv(WriteStep(s, k, ofs, b))
    ensures k in Flat(s) && Flat(WriteStep(s, k, ofs, b)) == Flat(s)[k := Flat(s)[k][ofs := b]]
  {
    var t := WriteStep(s, k, ofs, b);
    WriteFrames(s, k, ofs, b);
    hide FramesInv, MappedInv, SlotsInv;
    assert t.sptes.Keys == s.sptes.Keys;
    forall l | l in s.sptes ensures EntryInv(t, l) && PageOf(t, l) == Flat(s)[k := Flat(s)[k][ofs := b]][l] {
      assert EntryInv(s, l);
      if l != k && Present(s, l) {
        FramesDistinct(s, l, k);
      }
    }
  }

  lemma WriteFrames(s: State, k: Key, ofs: nat, b: byte)
    requires Inv(s) && CanAccess(s, k, ofs)
    ensures var t := WriteStep(s, k, ofs, b);
            FramesInv(t) && MappedInv(t) && SlotsInv(t) && k in s.sptes
  {
    hide EntriesInv;
    var t := WriteStep(s, k, ofs, b);
    assert forall l :: Present(t, l) == Present(s, l);
  }

  lemma InsertKeeps(s: State, k: Key, e: Spte)
    requires Inv(s) && CanInsert(s, k, e)
    ensures Inv(InsertStep(s, k, e)) && Flat(InsertStep(s, k, e)) == Flat(s)[k := Image(e)]
  {
    var t := InsertStep(s, k, e);
    assert !Present(s, k);
    NewEntrySlots(s, t, k);
    InsertFrames(s, k, e);
    hide FramesInv, MappedInv, SlotsInv, Image;
    assert Flat(t).Keys == Flat(s)[k := Image(e)].Keys;
    forall l | l in t.sptes ensures EntryInv(t, l) && PageOf(t, l) == Flat(s)[k := Image(e)][l] {
      assert l != k ==> EntryInv(s, l);
    }
  }

  lemma InsertFrames(s: State, k: Key, e: Spte)
    requires FramesInv(s) && MappedInv(s)
    ensures FramesInv(InsertStep(s, k, e)) && MappedInv(InsertStep(s, k, e))
  {
    assert forall l :: Present(InsertStep(s, k, e), l) == Present(s, l);
  }

  // ----- Giving pages up -----

  lemma {:induction false} WithoutAt(frames: seq<Frame>, i: nat)
    requires i < |frames| && forall j :: 0 <= j < i ==> frames[j].kpage != frames[i].kpage
    ensures Without(frames, frames[i].kpage) == frames[..i] + frames[i + 1..]
  {
    if i > 0 {
      var r := frames[1..];
      assert r[i - 1] == frames[i];
      WithoutAt(r, i - 1);
      assert [frames[0]] + r[..i - 1] == frames[..i] && r[i..] == frames[i + 1..];
      assert [frames[0]] + (r[..i - 1] + r[i..]) == [frames[0]] + r[..i - 1] + r[i..];
    }
  }

  lemma FreeUnmaps(s: State, k: Key, i: nat)
    requires Inv(s) && CanFree(s, k) && Present(s, k) && i < |s.frames| && s.frames[i] == Frame(k, s.dirs[k].kpage)
    ensures Unmaps(s, FreeStep(s, k), i) && FreeStep(s, k).sptes == s.sptes - {k}
  {
    hide EntriesInv, SlotsInv, MappedInv;
    WithoutAt(s.frames, i);
  }

  lemma FreeFrames(s: State, k: Key)
    requires Inv(s) && CanFree(s, k) && Present(s, k)
    ensures FramesInv(FreeStep(s, k)) && MappedInv(FreeStep(s, k))
  {
    hide EntriesInv, SlotsInv, FramesInv, FreeStep, Unmaps;
    var t := FreeStep(s, k);
    var i :| 0 <= i < |s.frames| && s.frames[i] == Frame(k, s.dirs[k].kpage);
    FreeUnmaps(s, k, i);
    UnmapFrames(s, t, i);
    forall l | Present(t, l) ensures l in t.sptes && Frame(l, t.dirs[l].kpage) in t.frames {
      UnmapMapped(s, t, i, l);
    }
  }

  lemma FreeUnmapped(s: State, k: Key)
    requires Inv(s) && CanFree(s, k) && !Present(s, k)
    ensures FramesInv(FreeStep(s, k)) && MappedInv(FreeStep(s, k))
  {
    hide SlotsInv, EntriesInv;
    assert forall l :: Present(FreeStep(s, k), l) == Present(s, l);
  }

  lemma FreeSlots(s: State, k: Key)
    requires Inv(s) && CanFree(s, k)
    ensures SlotsInv(FreeStep(s, k))
  {
    hide FramesInv, MappedInv, EntriesInv;
    var t := FreeStep(s, k);
    forall j | 0 <= j < |t.slots| && t.slots[j] ensures HasOwner(t.sptes, j) {
      assert HasOwner(s.sptes, j);
      var l :| l in s.sptes && s.sptes[l].swapped && s.sptes[l].slot == j;
      assert l != k && l in t.sptes && t.sptes[l] == s.sptes[l];
    }
  }

  /** Giving up a page affects no other page, and returns its frame and its swap slot. */
  lemma FreeKeeps(s: State, k: Key)
    requires Inv(s) && CanFree(s, k)
    ensures Inv(FreeStep(s, k)) && Flat(FreeStep(s, k)) == Flat(s) - {k}
  {
    hide FramesInv, MappedInv, SlotsInv, EntryInv, PageOf;
    var t := FreeStep(s, k);
    assert t.sptes == s.sptes - {k} && Shapes(t);
    hide FreeStep;
    FreeSlots(s, k);
    if Present(s, k) {
      FreeFrames(s, k);
    } else {
      FreeUnmapped(s, k);
    }
    forall l | l in t.sptes ensures EntryInv(t, l) && PageOf(t, l) == PageOf(s, l) {
      FreeOther(s, k, l);
    }
    assert Flat(t).Keys == (Flat(s) - {k}).Keys;
  }

  lemma FreeOther(s: State, k: Key, l: Key)
    requires Inv(s) && CanFree(s, k) && l in s.sptes && l != k
    ensures EntryInv(FreeStep(s, k), l) && PageOf(FreeStep(s, k), l) == PageOf(s, l)
  {
    assert EntryInv(s, l);
    if Present(s, l) && Present(s, k) {
      FramesDistinct(s, l, k);
    }
  }

  // ----- Nothing is lost -----

  /** Before any process runs. */
  lemma BootInv(s: State)
    requires Shapes(s) && s.frames == [] && s.dirs == map[] && s.sptes == map[]
    requires forall p :: 0 <= p < |s.used| ==> !s.used[p]
    requires forall j :: 0 <= j < |s.slots| ==> !s.slots[j]
    ensures Inv(s) && Flat(s) == map[]
  {
  }

  ghost function UsedPages(s: State): set<nat> {
    set p | 0 <= p < |s.used| && s.used[p]
  }

  ghost function MappedPages(s: State): set<Key> {
    set k | k in s.dirs && s.dirs[k].present
  }

  ghost function UsedSlots(s: State): set<nat> {
    set j | 0 <= j < |s.slots| && s.slots[j]
  }

  ghost function SwappedPages(s: State): set<Key> {
    set k | k in s.sptes && s.sptes[k].swapped
  }

  /** Frames, used pages and mapped pages are equally many, and so are set swap bits and swapped pages. */
  lemma Conserved(s: State)
    requires Inv(s)
    ensures |s.frames| == |UsedPages(s)| == |MappedPages(s)|
    ensures |UsedSlots(s)| == |SwappedPages(s)|
  {
    var kpages := seq(|s.frames|, i requires 0 <= i < |s.frames| => s.frames[i].kpage);
    var keys := seq(|s.frames|, i requires 0 <= i < |s.frames| => s.frames[i].key);
    FrameSets(s, kpages, keys);
    DistinctCard(kpages, UsedPages(s));
    DistinctCard(keys, MappedPages(s));
    hide FramesInv, MappedInv, EntriesInv;
    SameCard(SwappedPages(s), UsedSlots(s), s.sptes);
  }

  lemma FrameSets(s: State, kpages: seq<nat>, keys: seq<Key>)
    requires Inv(s) && |kpages| == |keys| == |s.frames|
    requires forall i :: 0 <= i < |s.frames| ==> kpages[i] == s.frames[i].kpage && keys[i] == s.frames[i].key
    ensures forall i, j :: 0 <= i < j < |kpages| ==> kpages[i] != kpages[j]
    ensures forall i, j :: 0 <= i < j < |keys| ==> keys[i] != keys[j]
    ensures forall p :: p in UsedPages(s) <==> p in kpages
    ensures forall k :: k in MappedPages(s) <==> k in keys
  {
    hide SlotsInv, EntriesInv;
    forall p ensures p in UsedPages(s) <==> p in kpages {
      if p in UsedPages(s) {
        assert HasFrame(s.frames, p);
        var i :| 0 <= i < |s.frames| && s.frames[i].kpage == p;
        assert kpages[i] == p;
      }
    }
    forall k ensures k in MappedPages(s) <==> k in keys {
      if k in MappedPages(s) {
        assert Present(s, k);
        var i :| 0 <= i < |s.frames| && s.frames[i] == Frame(k, s.dirs[k].kpage);
        assert keys[i] == k;
      }
    }
  }

  lemma {:induction false} DistinctCard<T>(q: seq<T>, m: set<T>)
    requires forall i, j :: 0 <= i < j < |q| ==> q[i] != q[j]
    requires forall x :: x in m <==> x in q
    ensures |m| == |q|
  {
    if q == [] {
      assert m == {};
    } else {
      var n := |q| - 1;
      assert q == q[..n] + [q[n]];
      DistinctCard(q[..n], m - {q[n]});
    }
  }

  lemma {:induction false} SameCard(a: set<Key>, b: set<nat>, sptes: map<Key, Spte>)
    requires forall k :: k in a ==> k in sptes && sptes[k].slot in b
    requires forall k, l :: k in a && l in a && k != l ==> sptes[k].slot != sptes[l].slot
    requires forall j :: j in b ==> exists k :: k in a && sptes[k].slot == j
    ensures |a| == |b|
    decreases a
  {
    if a == {} {
      assert b == {};
    } else {
      var k :| k in a;
      var j := sptes[k].slot;
      forall i | i in b - {j} ensures exists l :: l in a - {k} && sptes[l].slot == i {
        var l :| l in a && sptes[l].slot == i;
        assert l in a - {k};
      }
      SameCard(a - {k}, b - {j}, sptes);
    }
  }

  // ----- Every run -----

  datatype Action =
    | Read(k: Key, ofs: nat, b: byte)
    | Write(k: Key, ofs: nat, b: byte)
    | Evict(slot: nat)
    | Fault(k: Key, p: nat)
    | Grow(k: Key, p: nat)
    | Insert(k: Key, e: Spte)
    | Free(k: Key)

  ghost predicate Next(s: State, a: Action, t: State) {
    match a
    case Read(k, ofs, b) => CanAccess(s, k, ofs) && b == s.ram[s.dirs[k].kpage][ofs] && t == s
    case Write(k, ofs, b) => CanAccess(s, k, ofs) && s.dirs[k].writable && t == WriteStep(s, k, ofs, b)
    case Evict(slot) => CanEvict(s, slot) && t == EvictStep(s, slot)
    case Fault(k, p) => CanFault(s, k, p) && t == FaultStep(s, k, p)
    case Grow(k, p) => CanGrow(s, k, p) && t == GrowStep(s, k, p)
    case Insert(k, e) => CanInsert(s, k, e) && t == InsertStep(s, k, e)
    case Free(k) => CanFree(s, k) && t == FreeStep(s, k)
  }

  /** What an action does to flat memory: paging does nothing to it. */
  function Apply(m: map<Key, Page>, a: Action): map<Key, Page> {
    match a
    case Read(_, _, _) => m
    case Write(k, ofs, b) => if k in m && ofs < PGSIZE then m[k := m[k][ofs := b]] else m
    case Evict(_) => m
    case Fault(_, _) => m
    case Grow(k, _) => m[k := ZeroPage()]
    case Insert(k, e) => m[k := Image(e)]
    case Free(k) => m - {k}
  }

  lemma NextRefines(s: State, a: Action, t: State)
    requires Inv(s) && Next(s, a, t)
    ensures Inv(t) && Flat(t) == Apply(Flat(s), a)
    ensures a.Read? ==> a.k in Flat(s) && a.ofs < PGSIZE && Flat(s)[a.k][a.ofs] == a.b
  {
    hide Inv, FramesInv, MappedInv, EntriesInv, SlotsInv, PageOf, Image, EvictStep, FaultStep, GrowStep, InsertStep,
      FreeStep, WriteStep;
    match a
    case Read(k, ofs, b) => ReadSees(s, k, ofs);
    case Write(k, ofs, b) => WriteKeeps(s, k, ofs, b);
    case Evict(slot) => EvictKeeps(s, slot);
    case Fault(k, p) => FaultKeeps(s, k, p);
    case Grow(k, p) => GrowKeeps(s, k, p);
    case Insert(k, e) => InsertKeeps(s, k, e);
    case Free(k) => FreeKeeps(s, k);
  }

  lemma ReadSees(s: State, k: Key, ofs: nat)
    requires Inv(s) && CanAccess(s, k, ofs)
    ensures k in Flat(s) && Flat(s)[k][ofs] == s.ram[s.dirs[k].kpage][ofs]
  {
  }

  ghost predicate IsRun(states: seq<State>, actions: seq<Action>) {
    && |states| == |actions| + 1
    && forall i :: 0 <= i < |actions| ==> Next(states[i], actions[i], states[i + 1])
  }

  function ApplyAll(m: map<Key, Page>, actions: seq<Action>): map<Key, Page> {
    if actions == [] then m
    else var n := |actions| - 1; Apply(ApplyAll(m, actions[..n]), actions[n])
  }

  /** Demand paging refines flat memory: whatever is evicted and faulted in when, every reachable state is
      sound and shows what the stores made of the initial images. */
  lemma {:induction false} RunRefines(states: seq<State>, actions: seq<Action>)
    requires IsRun(states, actions) && Inv(states[0])
    ensures Inv(states[|actions|]) && Flat(states[|actions|]) == ApplyAll(Flat(states[0]), actions)
  {
    hide Inv, Next, Apply, Flat;
    if actions != [] {
      var n := |actions| - 1;
      RunPrefix(states, actions, n);
      RunRefines(states[..n + 1], actions[..n]);
      NextRefines(states[n], actions[n], states[n + 1]);
    }
  }

  lemma RunPrefix(states: seq<State>, actions: seq<Action>, n: nat)
    requires IsRun(states, actions) && n <= |actions|
    ensures IsRun(states[..n + 1], actions[..n])
  {
    hide Next;
    var ss, aa := states[..n + 1], actions[..n];
    forall i | 0 <= i < |aa| ensures Next(ss[i], aa[i], ss[i + 1]) {
      assert ss[i] == states[i] && aa[i] == actions[i] && ss[i + 1] == states[i + 1];
    }
  }

  /** The byte last stored at (`k`, `ofs`), or the initial one if none was. */
  function LastStored(m: map<Key, Page>, actions: seq<Action>, k: Key, ofs: nat): Option<byte>
    requires ofs < PGSIZE
  {
    if actions == [] then (if k in m then Some(m[k][ofs]) else None)
    else
      var n := |actions| - 1;
      match actions[n]
      case Write(k', ofs', b) =>
        var before := LastStored(m, actions[..n], k, ofs);
        if k' == k && ofs' == ofs && before.Some? then Some(b) else before
      case Grow(k', _) => if k' == k then Some(0) else LastStored(m, actions[..n], k, ofs)
      case Insert(k', e) => if k' == k then Some(Image(e)[ofs]) else LastStored(m, actions[..n], k, ofs)
      case Free(k') => if k' == k then None else LastStored(m, actions[..n], k, ofs)
      case _ => LastStored(m, actions[..n], k, ofs)
  }

  lemma {:induction false} LastStoredIs(m: map<Key, Page>, actions: seq<Action>, k: Key, ofs: nat)
    requires ofs < PGSIZE
    ensures var r := ApplyAll(m, actions);
            LastStored(m, actions, k, ofs) == if k in r then Some(r[k][ofs]) else None
  {
    hide Image;
    if actions != [] {
      LastStoredIs(m, actions[..|actions| - 1], k, ofs);
    }
  }

  /** Every load of every run yields the byte last stored there, or the initial byte. */
  lemma ReadsLastStored(states: seq<State>, actions: seq<Action>, i: nat)
    requires IsRun(states, actions) && Inv(states[0]) && i < |actions| && actions[i].Read?
    ensures var a := actions[i];
            a.ofs < PGSIZE && LastStored(Flat(states[0]), actions[..i], a.k, a.ofs) == Some(a.b)
  {
    hide Inv, Flat, ApplyAll, LastStored;
    RunPrefix(states, actions, i);
    RunRefines(states[..i + 1], actions[..i]);
    assert Next(states[i], actions[i], states[i + 1]);
    NextRefines(states[i], actions[i], states[i + 1]);
    LastStoredIs(Flat(states[0]), actions[..i], actions[i].k, actions[i].ofs);
  }

  // ----- The order of eviction -----

  /** The place of page `k` in the frame table, or the length of the table. */
  function FrameIndex(frames: seq<Frame>, k: Key): nat {
    if frames == [] || frames[0].key == k then 0 else 1 + FrameIndex(frames[1..], k)
  }

  /** When page `k` was mapped last: the number of the action that did it, or a negative number, in the order of the
      frame table `frames0`, if it was mapped before the first action. */
  function MappedAt(frames0: seq<Frame>, actions: seq<Action>, k: Key): int {
    if actions == [] then FrameIndex(frames0, k) - |frames0|
    else
      var n := |actions| - 1;
      if (actions[n].Fault? || actions[n].Grow?) && actions[n].k == k then n else MappedAt(frames0, actions[..n], k)
  }

  /** The frame table lists its pages in the order in which they were mapped. */
  ghost predicate InMappedOrder(frames: seq<Frame>, frames0: seq<Frame>, actions: seq<Action>) {
    && (forall i :: 0 <= i < |frames| ==> MappedAt(frames0, actions, frames[i].key) < |actions|)
    && (forall i, j :: 0 <= i < j < |frames| ==>
         MappedAt(frames0, actions, frames[i].key) < MappedAt(frames0, actions, frames[j].key))
  }

  lemma {:induction false} FrameIndexAt(frames: seq<Frame>, i: nat)
    requires i < |frames| && forall j :: 0 <= j < i ==> frames[j].key != frames[i].key
    ensures FrameIndex(frames, frames[i].key) == i
  {
    if i > 0 {
      assert frames[1..][i - 1] == frames[i];
      FrameIndexAt(frames[1..], i - 1);
    }
  }

  lemma KeysDistinct(s: State, i: nat, j: nat)
    requires Inv(s) && i < j < |s.frames|
    ensures s.frames[i].key != s.frames[j].key
  {
  }

  lemma StartsInOrder(s: State)
    requires Inv(s)
    ensures InMappedOrder(s.frames, s.frames, [])
  {
    hide Inv;
    forall i | 0 <= i < |s.frames| ensures MappedAt(s.frames, [], s.frames[i].key) == i - |s.frames| {
      forall j | 0 <= j < i ensures s.frames[j].key != s.frames[i].key {
        KeysDistinct(s, j, i);
      }
      FrameIndexAt(s.frames, i);
    }
  }

  /** A step appends the page it maps, or leaves the table as it is but for at most one entry. */
  ghost predicate FramesNext(frames: seq<Frame>, a: Action, frames': seq<Frame>) {
    if a.Fault? || a.Grow?
    then (forall i :: 0 <= i < |frames| ==> frames[i].key != a.k) && frames' == frames + [Frame(a.k, a.p)]
    else frames' == frames || exists i :: 0 <= i < |frames| && frames' == frames[..i] + frames[i + 1..]
  }

  lemma StepFrames(s: State, a: Action, t: State)
    requires Inv(s) && Next(s, a, t)
    ensures FramesNext(s.frames, a, t.frames)
  {
    if a.Evict? {
      assert t.frames == s.frames[..0] + s.frames[1..];
    } else if a.Free? && Present(s, a.k) {
      var i :| 0 <= i < |s.frames| && s.frames[i] == Frame(a.k, s.dirs[a.k].kpage);
      WithoutAt(s.frames, i);
    }
  }

  lemma MappedNext(frames0: seq<Frame>, actions: seq<Action>, a: Action, k: Key)
    ensures MappedAt(frames0, actions + [a], k) ==
            if (a.Fault? || a.Grow?) && a.k == k then |actions| else MappedAt(frames0, actions, k)
  {
    assert (actions + [a])[..|actions|] == actions;
  }

  lemma OrderNext(frames: seq<Frame>, a: Action, frames': seq<Frame>, frames0: seq<Frame>, actions: seq<Action>)
    requires InMappedOrder(frames, frames0, actions) && FramesNext(frames, a, frames')
    ensures InMappedOrder(frames', frames0, actions + [a])
  {
    hide MappedAt;
    forall k ensures MappedAt(frames0, actions + [a], k) ==
                     if (a.Fault? || a.Grow?) && a.k == k then |actions| else MappedAt(frames0, actions, k)
    {
      MappedNext(frames0, actions, a, k);
    }
    if !(a.Fault? || a.Grow?) && frames' != frames {
      var i :| 0 <= i < |frames| && frames' == frames[..i] + frames[i + 1..];
      assert forall j :: 0 <= j < |frames'| ==> frames'[j] == frames[if j < i then j else j + 1];
    }
  }

  /** In every state of every run the frame table is in the order in which its pages were mapped last. */
  lemma {:induction false} TableInOrder(states: seq<State>, actions: seq<Action>)
    requires IsRun(states, actions) && Inv(states[0])
    ensures InMappedOrder(states[|actions|].frames, states[0].frames, actions)
  {
    hide Inv, Next, InMappedOrder, FramesNext;
    if actions == [] {
      StartsInOrder(states[0]);
    } else {
      var n := |actions| - 1;
      RunPrefix(states, actions, n);
      TableInOrder(states[..n + 1], actions[..n]);
      RunRefines(states[..n + 1], actions[..n]);
      StepFrames(states[n], actions[n], states[n + 1]);
      OrderNext(states[n].frames, actions[n], states[n + 1].frames, states[0].frames, actions[..n]);
      assert actions[..n] + [actions[n]] == actions;
    }
  }

  /** First in, first out: the page that an eviction takes away, in any run, was mapped no later than any other page
      that is mapped then. */
  lemma EvictsOldest(states: seq<State>, actions: seq<Action>, i: nat, k: Key, l: Key)
    requires IsRun(states, actions) && Inv(states[0]) && i < |actions| && actions[i].Evict?
    requires Present(states[i], k) && !Present(states[i + 1], k) && Present(states[i], l)
    ensures k != l ==> MappedAt(states[0].frames, actions[..i], k) < MappedAt(states[0].frames, actions[..i], l)
  {
    RunPrefix(states, actions, i);
    TableInOrder(states[..i + 1], actions[..i]);
    RunRefines(states[..i + 1], actions[..i]);
    assert Next(states[i], actions[i], states[i + 1]);
    EvictsHead(states[i], actions[i].slot, k, l);
  }

  lemma EvictsHead(s: State, slot: nat, k: Key, l: Key)
    requires Inv(s) && CanEvict(s, slot) && Present(s, k) && !Present(EvictStep(s, slot), k) && Present(s, l)
    ensures s.frames[0].key == k && exists j :: 0 <= j < |s.frames| && s.frames[j].key == l
  {
    var j :| 0 <= j < |s.frames| && s.frames[j] == Frame(l, s.dirs[l].kpage);
  }

  // ----- Read-only pages -----

  /** No action before the page is given up changes whether an entry is writable. */
  lemma {:induction false} WritableKept(states: seq<State>, actions: seq<Action>, k: Key)
    requires IsRun(states, actions) && Inv(states[0]) && k in states[0].sptes
    requires forall i :: 0 <= i < |actions| ==> actions[i] != Free(k)
    ensures var t := states[|actions|]; k in t.sptes && t.sptes[k].writable == states[0].sptes[k].writable
  {
    if actions != [] {
      var n := |actions| - 1;
      RunPrefix(states, actions, n);
      WritableKept(states[..n + 1], actions[..n], k);
      assert Next(states[n], actions[n], states[n + 1]);
      EntryNext(states[n], actions[n], states[n + 1], k);
    }
  }

  lemma EntryNext(s: State, a: Action, t: State, k: Key)
    requires Next(s, a, t) && k in s.sptes && a != Free(k)
    ensures k in t.sptes && t.sptes[k].writable == s.sptes[k].writable
  {
  }

  /** In no run is there a store to a page whose entry is not writable, until that is given up. */
  lemma NoStoreToReadOnly(states: seq<State>, actions: seq<Action>, i: nat, k: Key)
    requires IsRun(states, actions) && Inv(states[0]) && k in states[0].sptes && !states[0].sptes[k].writable
    requires i < |actions| && forall j :: 0 <= j < i ==> actions[j] != Free(k)
    ensures !(actions[i].Write? && actions[i].k == k)
  {
    RunPrefix(states, actions, i);
    WritableKept(states[..i + 1], actions[..i], k);
    RunRefines(states[..i + 1], actions[..i]);
    assert Next(states[i], actions[i], states[i + 1]);
    assert EntryInv(states[i], k);
  }
}
