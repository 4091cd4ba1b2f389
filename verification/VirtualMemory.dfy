/**
  The kernel's side of demand paging: the page fault handler, the first-in first-out
  frame table and the swap table, working on the state whose steps `Paging` describes.
 */
module VirtualMemories {
  import opened Wrappers
  import opened Disks
  import opened Bitmaps
  import opened Paging

  const PHYS_BASE := 0xc000_0000
  const STACK_LIMIT := 0x80_0000

  /** `Resolved`: the access can be retried.  `Killed`: the process exits.  `Halted`: an assertion stops the
      kernel.  `ShortRead`: the file ended early; the handler returns without having mapped the page, and for a
      page read in full it has let go of the file lock. */
  datatype Outcome = Resolved | Killed | Halted | ShortRead(unlocks: bool)

  /** An access near or above the stack pointer (PUSHA pushes 32 bytes at once), in the top 8 MB.
      Pointer subtraction wraps around at 32 bits. */
  predicate StackAccess(addr: nat, esp: nat) {
    addr >= PHYS_BASE - STACK_LIMIT && (esp - 32) % WORD_LIMIT <= addr
  }

  /** For a user address that is: not below the top 8 MB, and not more than 32 bytes below the stack pointer.  With a
      stack pointer below 32 no access is one to the stack. */
  lemma StackAccessIs(addr: nat, esp: nat)
    requires addr < 0xc000_0000 && esp < 0x1_0000_0000
    ensures StackAccess(addr, esp) <==> 0xbf80_0000 <= addr && 32 <= esp <= addr + 32
  {
  }

  function PageDown(addr: nat): nat { addr - addr % PGSIZE }

  /** The address at which the kernel finds page `p` of the user pool, for a pool at the start of its space. */
  function KernelAddress(p: nat): nat { PHYS_BASE + PGSIZE * p }

  ghost predicate Bounded(frames: seq<Frame>, n: nat) {
    forall i :: 0 <= i < |frames| ==> frames[i].kpage < n
  }

  lemma SameFrames(frames: seq<Frame>, addr: nat, p: nat)
    requires KernelAddress(p) == addr
    ensures forall q :: HasFrame(frames, q) && addr == KernelAddress(q) ==> q == p
  {
    forall q | HasFrame(frames, q) && addr == KernelAddress(q) ensures q == p {
      KernelAddresses(p, q);
    }
  }

  lemma UserAddress(frames: seq<Frame>, addr: nat)
    requires addr < PHYS_BASE
    ensures forall q :: HasFrame(frames, q) ==> addr != KernelAddress(q)
  {
  }

  lemma KernelAddresses(p: nat, q: nat)
    ensures KernelAddress(p) >= PHYS_BASE && (KernelAddress(p) == KernelAddress(q) <==> p == q)
  {
    assert PGSIZE == 4096;
  }

  lemma FirstFree(m: seq<bool>, r: Option<nat>)
    requires FirstFit(m, 0, 1, false, r)
    ensures r.Some? ==> r.value < |m| && !m[r.value] && Fill(m, r.value, 1, true) == m[r.value := true]
    ensures r.None? <==> forall i :: 0 <= i < |m| ==> m[i]
    ensures r.Some? ==> AllSet(m[..r.value])
  {
    if r.Some? {
      assert !m[r.value];
      forall i | 0 <= i < r.value ensures m[i] {
        assert !IsGroup(m, i, 1, false);
      }
    } else {
      forall i | 0 <= i < |m| ensures m[i] {
        assert !IsGroup(m, i, 1, false);
      }
    }
  }

  ghost predicate AllSet(m: seq<bool>) {
    forall i :: 0 <= i < |m| ==> m[i]
  }

  /** No frame can be had: the pool is full, the page to be evicted is modified, and swap is full. */
  ghost predicate Exhausted(s: State) {
    AllSet(s.used) && s.frames != [] && s.frames[0].key in s.dirs && s.dirs[s.frames[0].key].dirty && AllSet(s.slots)
  }

  /** The page at the head of the table goes, if need be, to the first free slot. */
  ghost predicate EvictsTo(s: State, slot: nat) {
    CanEvict(s, slot) && (s.dirs[s.frames[0].key].dirty ==> AllSet(s.slots[..slot]))
  }

  /** `s1` is `s` if a page of the pool is free, and `s` after one eviction if not. */
  ghost predicate RoomMade(s: State, s1: State) {
    if AllSet(s.used) then exists slot :: EvictsTo(s, slot) && s1 == EvictStep(s, slot) else s1 == s
  }

  lemma EvictedFrames(s: State, slot: nat)
    requires CanEvict(s, slot)
    ensures EvictStep(s, slot).frames == s.frames[1..]
  {
  }

  lemma RoomMadeKeeps(s: State, s1: State)
    requires Inv(s) && RoomMade(s, s1)
    ensures Inv(s1) && Flat(s1) == Flat(s) && s1.sptes.Keys == s.sptes.Keys
    ensures |s1.used| == |s.used|
    ensures forall k :: !Present(s, k) ==> !Present(s1, k) && (k in s.sptes ==> s1.sptes[k] == s.sptes[k])
    ensures forall k :: k in s.sptes ==> s1.sptes[k].writable == s.sptes[k].writable
  {
    hide FramesInv, MappedInv, EntriesInv, SlotsInv;
    if s1 != s {
      var slot :| EvictsTo(s, slot) && s1 == EvictStep(s, slot);
      EvictKeeps(s, slot);
      EvictKeys(s, slot);
      HeadFrame(s);
    }
  }

  /** Making room leaves a page that is not mapped as it is. */
  lemma RoomMadeKey(s: State, s1: State, k: Key)
    requires Inv(s) && RoomMade(s, s1) && !Present(s, k)
    ensures |s1.ram| == |s1.used| == |s.used| && |s1.slots| == |s.slots| && |s1.swap| == |s.swap|
    ensures !Present(s1, k) && (k in s1.sptes <==> k in s.sptes) && (k in s.sptes ==> s1.sptes[k] == s.sptes[k])
    ensures Bounded(s1.frames, |s1.ram|)
  {
    RoomMadeKeeps(s, s1);
  }

  /** `s1` with frame `p` taken for `k`, but not mapped yet. */
  function Taken(s1: State, k: Key, p: nat, page: Page): State
    requires p < |s1.used| && p < |s1.ram|
  {
    s1.(used := s1.used[p := true], ram := s1.ram[p := page], frames := s1.frames + [Frame(k, p)])
  }

  /** A frame that is in the table but not mapped breaks the invariant. */
  lemma TakenUnsound(s1: State, k: Key, p: nat, page: Page)
    requires Inv(s1) && p < |s1.used| && !s1.used[p] && !Present(s1, k)
    ensures !Inv(Taken(s1, k, p, page))
  {
    var t := Taken(s1, k, p, page);
    assert t.frames[|s1.frames|].key == k;
    assert !Present(t, k);
  }

  class VirtualMemory {
    const userPool: Bitmap
    const swapTable: Bitmap
    var ram: seq<Page>
    var swapDisk: seq<Sector>
    var frames: seq<Frame>
    var dirs: map<Key, Pte>
    var sptes: map<Key, Spte>

    ghost predicate Shaped() {
      userPool.Valid() && swapTable.Valid() && userPool.bits != swapTable.bits && userPool.bitCnt > 0
    }

    ghost function Snap(): State
      requires Shaped()
      reads this, userPool.bits, swapTable.bits
    {
      State(userPool.Contents(), ram, swapTable.Contents(), swapDisk, frames, dirs, sptes)
    }

    ghost predicate Valid()
      reads this, userPool.bits, swapTable.bits
    {
      Shaped() && Inv(Snap())
    }

    constructor (poolPages: nat, memory: seq<Page>, disk: seq<Sector>)
      requires poolPages > 0 && |memory| == poolPages
      ensures Valid() && Flat(Snap()) == map[] && fresh(userPool.bits) && fresh(swapTable.bits)
      ensures userPool.bitCnt == poolPages && swapTable.bitCnt == |disk| * SECTOR_SIZE / PGSIZE
    {
      userPool := new Bitmap(poolPages);
      swapTable := new Bitmap(|disk| * SECTOR_SIZE / PGSIZE);
      ram, swapDisk, frames, dirs, sptes := memory, disk, [], map[], map[];
      new;
      BootInv(Snap());
    }

    // ----- Swap -----

    /** Copies the frame to a free slot, sector by sector; there may be none. */
    method SwapOut(p: nat) returns (r: Option<nat>)
      requires Shaped() && p < |ram| && SECTORS_PER_PAGE * swapTable.bitCnt <= |swapDisk|
      modifies this`swapDisk, swapTable.bits
      ensures r.None? <==> AllSet(old(swapTable.Contents()))
      ensures r.None? ==> Snap() == old(Snap())
      ensures r.Some? ==> r.value < swapTable.bitCnt && !old(swapTable.Contents())[r.value]
                          && AllSet(old(swapTable.Contents())[..r.value])
      ensures r.Some? ==> swapTable.Contents() == old(swapTable.Contents())[r.value := true]
      ensures r.Some? ==> swapDisk == StorePage(old(swapDisk), r.value, ram[p])
    {
      r := swapTable.ScanAndFlip(0, 1, false);
      FirstFree(old(swapTable.Contents()), r);
      if r.Some? {
        var base := r.value * PGSIZE / SECTOR_SIZE;
        assert base == SECTORS_PER_PAGE * r.value;
        for i := 0 to SECTORS_PER_PAGE
          invariant swapTable.Contents() == old(swapTable.Contents())[r.value := true] && |swapDisk| == |old(swapDisk)|
          invariant forall j :: 0 <= j < |swapDisk| ==>
            swapDisk[j] == if base <= j < base + i then StorePage(old(swapDisk), r.value, ram[p])[j]
                           else old(swapDisk)[j]
        {
          swapDisk := swapDisk[base + i := ram[p][SECTOR_SIZE * i..SECTOR_SIZE * i + SECTOR_SIZE]];
        }
        assert swapDisk == StorePage(old(swapDisk), r.value, ram[p]);
      }
    }

    /** Frees the slot and copies it to the frame, sector by sector. */
    method SwapIn(slot: nat, p: nat)
      requires Shaped() && p < |ram| && slot < swapTable.bitCnt && SECTORS_PER_PAGE * swapTable.bitCnt <= |swapDisk|
      modifies this`ram, swapTable.bits
      ensures swapTable.Contents() == old(swapTable.Contents())[slot := false]
      ensures ram == old(ram)[p := LoadPage(swapDisk, slot)]
    {
      swapTable.Set(slot, false);
      var base := slot * PGSIZE / SECTOR_SIZE;
      assert base == SECTORS_PER_PAGE * slot;
      for i := 0 to SECTORS_PER_PAGE
        invariant swapTable.Contents() == old(swapTable.Contents())[slot := false]
        invariant |ram| == |old(ram)| && forall q :: 0 <= q < |ram| && q != p ==> ram[q] == old(ram)[q]
        invariant forall j :: 0 <= j < SECTOR_SIZE * i ==> ram[p][j] == LoadPage(swapDisk, slot)[j]
      {
        ram := ram[p := Splice(ram[p], SECTOR_SIZE * i, swapDisk[base + i])];
      }
      assert ram[p] == LoadPage(swapDisk, slot);
    }

    // ----- Frames -----

    /** One page of the user pool. */
    method PallocUser(zero: bool) returns (r: Option<nat>)
      requires Shaped() && |ram| == userPool.bitCnt
      modifies this`ram, userPool.bits
      ensures r.None? <==> AllSet(old(userPool.Contents()))
      ensures r.None? ==> Snap() == old(Snap())
      ensures r.Some? ==> r.value < userPool.bitCnt && !old(userPool.Contents())[r.value]
                          && AllSet(old(userPool.Contents())[..r.value])
      ensures r.Some? ==> userPool.Contents() == old(userPool.Contents())[r.value := true]
      ensures r.Some? ==> ram == old(ram)[r.value := if zero then ZeroPage() else old(ram)[r.value]]
    {
      r := userPool.ScanAndFlip(0, 1, false);
      FirstFree(old(userPool.Contents()), r);
      if r.Some? && zero {
        ram := ram[r.value := ZeroPage()];
      }
    }

    /** Gives a page back to the user pool, which overwrites it. */
    method PallocFree(p: nat)
      requires Shaped() && |ram| == userPool.bitCnt && p < |ram|
      modifies this`ram, userPool.bits
      ensures userPool.Contents() == old(userPool.Contents())[p := false]
      ensures ram == old(ram)[p := PoisonPage()]
    {
      ram := ram[p := PoisonPage()];
      userPool.SetMultiple(p, 1, false);
      assert Fill(old(userPool.Contents()), p, 1, false) == old(userPool.Contents())[p := false];
    }

    /** Evicts the page whose frame is at the head of the table. */
    method EvictHead() returns (ok: bool, ghost slot: nat)
      requires Valid() && frames != []
      modifies this, userPool.bits, swapTable.bits
      ensures ok <==> !(old(dirs)[old(frames)[0].key].dirty && AllSet(old(swapTable.Contents())))
      ensures ok ==> EvictsTo(old(Snap()), slot) && Snap() == EvictStep(old(Snap()), slot)
    {
      hide FramesInv, MappedInv, EntriesInv, SlotsInv, StorePage;
      ghost var s := Snap();
      HeadFrame(s);
      var f := frames[0];
      slot := 0;
      if dirs[f.key].dirty {
        sptes := sptes[f.key := sptes[f.key].(swapped := true)];
        var r := SwapOut(f.kpage);
        if r.None? {
          return false, 0;
        }
        slot := r.value;
        sptes := sptes[f.key := sptes[f.key].(slot := r.value)];
      } else {
        sptes := sptes[f.key := sptes[f.key].(loaded := false)];
      }
      dirs := dirs[f.key := dirs[f.key].(present := false)];
      PallocFree(f.kpage);
      frames := frames[1..];
      ok := true;
      assert Snap().sptes == EvictStep(s, slot).sptes;
    }

    /** A frame for page `k`, taken from the pool or from the page that has had its frame longest. */
    method FrameAlloc(k: Key, zero: bool) returns (r: Option<nat>, ghost s1: State)
      requires Valid()
      modifies this, userPool.bits, swapTable.bits
      ensures r.None? <==> Exhausted(old(Snap()))
      ensures r.Some? ==> RoomMade(old(Snap()), s1) && |s1.ram| == |s1.used|
      ensures r.Some? ==> r.value < |s1.used| && !s1.used[r.value] && AllSet(s1.used[..r.value])
      ensures r.Some? ==>
                if AllSet(old(userPool.Contents()))
                then old(frames) != [] && frames == old(frames)[1..] + [Frame(k, r.value)]
                else frames == old(frames) + [Frame(k, r.value)]
      ensures r.Some? ==>
                Snap() == Taken(s1, k, r.value, if zero then ZeroPage() else s1.ram[r.value])
    {
      hide FramesInv, MappedInv, EntriesInv, SlotsInv, EvictStep;
      ghost var s := Snap();
      s1 := s;
      r := PallocUser(zero);
      if r.None? {
        EvictionMakesRoom(s, 0);
        HeadFrame(s);
        var ok, slot := EvictHead();
        if !ok {
          return None, s;
        }
        s1 := Snap();
        EvictedFrames(s, slot);
        EvictKeeps(s, slot);
        EvictionMakesRoom(s, slot);
        r := PallocUser(zero);
      }
      if r.Some? {
        frames := frames + [Frame(k, r.value)];
      }
    }

    // ----- Faults -----

    /** Maps a new zeroed page at the stack. */
    method GrowStack(k: Key) returns (out: Outcome, ghost s1: State, ghost p: nat)
      requires Valid() && k !in sptes
      modifies this, userPool.bits, swapTable.bits
      ensures out == if Exhausted(old(Snap())) then Halted else Resolved
      ensures out.Resolved? ==> RoomMade(old(Snap()), s1) && CanGrow(s1, k, p) && Snap() == GrowStep(s1, k, p)
      ensures out.Resolved? ==> k in dirs && dirs[k].present && dirs[k].writable && k in sptes && sptes[k].writable
    {
      AbsentKey(Snap(), k);
      hide Inv, RoomMade, Exhausted;
      p := 0;
      var r;
      r, s1 := FrameAlloc(k, true);
      if r.None? {
        return Halted, s1, p;
      }
      p := r.value;
      RoomMadeKey(old(Snap()), s1, k);
      dirs := dirs[k := Pte(r.value, true, true, false)];
      sptes := sptes[k := STACK_ENTRY];
      out := Resolved;
    }

    /** Brings a page back from swap. */
    method SwapBack(k: Key) returns (out: Outcome, ghost s1: State, ghost p: nat)
      requires Valid() && k in sptes && sptes[k].swapped
      modifies this, userPool.bits, swapTable.bits
      ensures out == if Exhausted(old(Snap())) then Halted else Resolved
      ensures out.Resolved? ==> RoomMade(old(Snap()), s1) && CanFault(s1, k, p) && Snap() == FaultStep(s1, k, p)
    {
      hide Inv, RoomMade, LoadPage, FaultStep, Exhausted;
      SwappedEntry(Snap(), k);
      p := 0;
      var r;
      r, s1 := FrameAlloc(k, true);
      if r.None? {
        return Halted, s1, p;
      }
      p := r.value;
      RoomMadeKey(old(Snap()), s1, k);
      SwapIn(sptes[k].slot, r.value);
      dirs := dirs[k := Pte(r.value, true, true, false)];
      dirs := dirs[k := dirs[k].(dirty := true)];
      sptes := sptes[k := sptes[k].(swapped := false)];
      SwappedBackIs(s1, Snap(), k, p);
      out := Resolved;
    }

    /** Fills a page from its file, or with zeros, for the first time or after it was dropped clean. */
    method LoadLazily(k: Key, holdsFileLock: bool) returns (out: Outcome, ghost s1: State, ghost p: nat)
      requires Valid() && k in sptes && !sptes[k].loaded && k.upage < PHYS_BASE
      modifies this, userPool.bits, swapTable.bits
      ensures out == FaultOutcome(old(Snap()), k, holdsFileLock)
      ensures out.Resolved? ==> RoomMade(old(Snap()), s1) && CanFault(s1, k, p) && Snap() == FaultStep(s1, k, p)
      ensures out.ShortRead? ==> RoomMade(old(Snap()), s1) && p < |s1.used| == |s1.ram| && !s1.used[p]
                                 && exists page: Page :: Snap() == Taken(s1, k, p, page)
    {
      UnloadedEntry(Snap(), k);
      hide Inv, RoomMade, Image, FaultStep, Exhausted;
      p, s1 := 0, Snap();
      var e := sptes[k];
      if e.readBytes + e.zeroBytes != PGSIZE {
        return Halted, s1, p;
      }
      var r;
      r, s1 := FrameAlloc(k, e.zeroBytes == PGSIZE);
      if r.None? {
        return Halted, s1, p;
      }
      p := r.value;
      RoomMadeKey(old(Snap()), s1, k);
      out := FillAndMap(k, r.value, holdsFileLock, s1);
    }

    /** Fills frame `p`, just taken for page `k`, and maps the page.  If the file is too short, the frame is not
        given back: it is looked up by the address of the page.  A page read in full then lets go of the file lock,
        which stops the kernel unless the thread holds it.  A page that starts beyond the end of the file stops the
        kernel at once. */
    method FillAndMap(k: Key, p: nat, holdsFileLock: bool, ghost s1: State) returns (out: Outcome)
      requires Shaped() && p < |s1.used| == |s1.ram| && !s1.used[p] && k in s1.sptes && !Present(s1, k) && p < |ram|
      requires var e := s1.sptes[k];
               !e.swapped && e.readBytes + e.zeroBytes == PGSIZE && (e.readBytes > 0 ==> e.file.Some?)
      requires Snap() == Taken(s1, k, p, if s1.sptes[k].zeroBytes == PGSIZE then ZeroPage() else s1.ram[p])
      requires k.upage < PHYS_BASE && |ram| == userPool.bitCnt && Bounded(frames, |ram|)
      modifies this`ram, this`frames, this`dirs, this`sptes, userPool.bits
      ensures out == if Backed(s1.sptes[k]) then Resolved
                     else if Beyond(s1.sptes[k]) then Halted
                     else if s1.sptes[k].readBytes != PGSIZE then ShortRead(false)
                     else if holdsFileLock then ShortRead(true) else Halted
      ensures out.Resolved? ==> CanFault(s1, k, p) && Snap() == FaultStep(s1, k, p)
      ensures out.ShortRead? ==> exists page: Page :: Snap() == Taken(s1, k, p, page)
    {
      hide Image, FaultStep, Backed, Beyond;
      var e := sptes[k];
      var filled := FillPage(e, p);
      if filled.Stuck? {
        return Halted;
      }
      if filled.Partial? {
        ghost var t := Snap();
        UserAddress(frames, k.upage);
        FrameFree(k.upage);
        assert t == Taken(s1, k, p, t.ram[p]);
        if e.readBytes == PGSIZE {
          return if holdsFileLock then ShortRead(true) else Halted;
        }
        return ShortRead(false);
      }
      dirs := dirs[k := Pte(p, true, e.writable, false)];
      sptes := sptes[k := sptes[k].(loaded := true)];
      LoadedIs(s1, Snap(), k, p);
      out := Resolved;
    }

    /** Reads the page's bytes from its file and zeros the rest. */
    method FillPage(e: Spte, p: nat) returns (r: Filling)
      requires Shaped() && p < |ram| && e.readBytes + e.zeroBytes == PGSIZE && (e.readBytes > 0 ==> e.file.Some?)
      requires e.zeroBytes == PGSIZE ==> ram[p] == ZeroPage()
      modifies this`ram
      ensures r == if Backed(e) then Filled else if Beyond(e) then Stuck else Partial
      ensures |ram| == |old(ram)| && ram == old(ram)[p := ram[p]]
      ensures r.Filled? ==> ram[p] == Image(e)
    {
      ghost var page0 := ram[p];
      if e.readBytes > 0 {
        var bytes := FileReadAt(e.file.value, e.readBytes, e.ofs);
        if bytes.None? {
          return Stuck;
        }
        ram := ram[p := Splice(ram[p], 0, bytes.value)];
        if |bytes.value| != e.readBytes {
          return Partial;
        }
        ram := ram[p := Splice(ram[p], e.readBytes, seq(e.zeroBytes, _ => 0))];
      }
      FilledIs(e, page0, ram[p]);
      r := Filled;
    }

    /** The page fault handler. */
    method PageFault(pid: nat, addr: nat, esp: nat, notPresent: bool, holdsFileLock: bool)
      returns (out: Outcome, ghost s1: State, ghost p: nat)
      requires Valid()
      requires notPresent && addr < PHYS_BASE ==> !Present(Snap(), Key(pid, PageDown(addr)))
      modifies this, userPool.bits, swapTable.bits
      ensures var k := Key(pid, PageDown(addr));
              out.Killed? <==> !notPresent || addr >= PHYS_BASE || (k !in old(sptes) && !StackAccess(addr, esp))
      ensures notPresent && addr < 0xc000_0000 && esp < 0x1_0000_0000 && Key(pid, addr - addr % 4096) !in old(sptes) ==>
              (out.Killed? <==> addr < 0xbf80_0000 || esp < 32 || addr + 32 < esp)
      ensures out.Killed? ==> Snap() == old(Snap())
      ensures var k := Key(pid, PageDown(addr));
              !out.Killed? ==> out == FaultOutcome(old(Snap()), k, holdsFileLock)
      ensures var k := Key(pid, PageDown(addr));
              out.Resolved? ==> (
                && Valid() && Present(Snap(), k) && RoomMade(old(Snap()), s1)
                && (dirs[k].writable <==> k !in old(sptes) || old(sptes)[k].writable)
                && Next(s1, if k in old(sptes) then Fault(k, p) else Grow(k, p), Snap())
                && Flat(Snap()) == if k in old(sptes) then Flat(old(Snap())) else Flat(old(Snap()))[k := ZeroPage()])
      ensures out.ShortRead? ==> !Valid()
    {
      hide Inv, FramesInv, MappedInv, EntriesInv, SlotsInv, RoomMade, FaultStep, GrowStep, CanFault;
      s1, p := Snap(), 0;
      if !notPresent || addr >= PHYS_BASE {
        return Killed, s1, p;
      }
      var k := Key(pid, PageDown(addr));
      ghost var s := Snap();
      if esp < 0x1_0000_0000 {
        StackAccessIs(addr, esp);
      }
      if k !in sptes {
        if !StackAccess(addr, esp) {
          return Killed, s1, p;
        }
        out, s1, p := GrowStack(k);
        if out.Resolved? {
          GrownKeeps(s, s1, k, p);
        }
      } else {
        AbsentEntry(s, k);
        if sptes[k].swapped && sptes[k].loaded {
          out, s1, p := SwapBack(k);
        } else {
          out, s1, p := LoadLazily(k, holdsFileLock);
        }
        if out.Resolved? {
          FaultedKeeps(s, s1, k, p);
        } else if out.ShortRead? {
          ghost var page: Page :| Snap() == Taken(s1, k, p, page);
          RoomMadeKeeps(s, s1);
          TakenUnsound(s1, k, p, page);
        }
      }
    }

    /** A load by the processor, once the page is mapped. */
    method Load(k: Key, ofs: nat) returns (b: byte)
      requires Valid() && Present(Snap(), k) && ofs < PGSIZE
      ensures k in Flat(Snap()) && b == Flat(Snap())[k][ofs] && Next(Snap(), Read(k, ofs, b), Snap())
    {
      UsedFrame(Snap(), k);
      ReadSees(Snap(), k, ofs);
      b := ram[dirs[k].kpage][ofs];
    }

    /** A store by the processor to a page mapped writable; it sets the dirty bit. */
    method Store(k: Key, ofs: nat, b: byte)
      requires Valid() && Present(Snap(), k) && dirs[k].writable && ofs < PGSIZE
      modifies this`ram, this`dirs
      ensures Valid() && Next(old(Snap()), Write(k, ofs, b), Snap())
      ensures k in old(Flat(Snap())) && Flat(Snap()) == old(Flat(Snap()))[k := old(Flat(Snap()))[k][ofs := b]]
    {
      ghost var s := Snap();
      UsedFrame(s, k);
      WriteKeeps(s, k, ofs, b);
      hide Inv, FramesInv, MappedInv, EntriesInv, SlotsInv, Flat;
      var p := dirs[k].kpage;
      ram := ram[p := ram[p][ofs := b]];
      dirs := dirs[k := dirs[k].(dirty := true)];
      assert Snap() == WriteStep(s, k, ofs, b);
    }

    // ----- Giving pages up -----

    /** Gives back the frame whose page is at `addr`; an address that no frame has is let through. */
    method FrameFree(addr: nat)
      requires Shaped() && |ram| == userPool.bitCnt && Bounded(frames, |ram|)
      modifies this`ram, this`frames, userPool.bits
      ensures forall p: nat :: HasFrame(old(frames), p) && addr == KernelAddress(p) ==>
                && p < |ram| && userPool.Contents() == old(userPool.Contents())[p := false]
                && ram == old(ram)[p := PoisonPage()] && frames == Without(old(frames), p)
      ensures (forall p: nat :: HasFrame(old(frames), p) ==> addr != KernelAddress(p)) ==> Snap() == old(Snap())
    {
      hide KernelAddress;
      for i := 0 to |frames|
        invariant ram == old(ram) && frames == old(frames) && userPool.Contents() == old(userPool.Contents())
        invariant forall j :: 0 <= j < i ==> KernelAddress(frames[j].kpage) != addr
      {
        var p := frames[i].kpage;
        if KernelAddress(p) == addr {
          SameFrames(frames, addr, p);
          assert forall j :: 0 <= j < i ==> frames[j].kpage != p;
          WithoutAt(frames, i);
          PallocFree(p);
          frames := frames[..i] + frames[i + 1..];
          return;
        }
      }
    }

    /** Unmaps page `k` if it is mapped, and gives its frame back. */
    method Unmap(k: Key)
      requires Shaped() && CanFree(Snap(), k) && |ram| == userPool.bitCnt && Bounded(frames, |ram|)
      requires Present(Snap(), k) ==> HasFrame(frames, dirs[k].kpage)
      modifies this`ram, this`frames, this`dirs, userPool.bits
      ensures Snap() == UnmapStep(old(Snap()), k)
    {
      if k in dirs && dirs[k].present {
        var p := dirs[k].kpage;
        dirs := dirs[k := dirs[k].(present := false)];
        FrameFree(KernelAddress(p));
      }
    }

    /** Returns what page `k` uses and removes its entry.  The swap bit must be on when it is cleared. */
    method ReleasePage(k: Key)
      requires Shaped() && CanFree(Snap(), k) && |ram| == userPool.bitCnt && Bounded(frames, |ram|)
      requires Present(Snap(), k) ==> HasFrame(frames, dirs[k].kpage)
      modifies this, userPool.bits, swapTable.bits
      ensures Shaped() && Snap() == FreeStep(old(Snap()), k)
    {
      var e := sptes[k];
      Unmap(k);
      if e.swapped {
        swapTable.Set(e.slot, false);
      }
      sptes := sptes - {k};
    }

    /** Gives up one page of an exiting process. */
    method PageTableFree(k: Key)
      requires Valid() && k in sptes
      modifies this, userPool.bits, swapTable.bits
      ensures Valid() && Next(old(Snap()), Free(k), Snap())
      ensures Flat(Snap()) == old(Flat(Snap())) - {k} && sptes.Keys == old(sptes).Keys - {k}
    {
      ghost var s := Snap();
      EntryBounds(s, k);
      FreeKeeps(s, k);
      FreeIs(s, k);
      hide Inv, Flat, CanFree, FreeStep, Next;
      ReleasePage(k);
    }

    /** Destroys the supplemental page table of process `pid`, entry by entry. */
    method PageTableRemove(pid: nat)
      requires Valid()
      modifies this, userPool.bits, swapTable.bits
      ensures Valid()
      ensures Flat(Snap()) == map k | k in old(Flat(Snap())) && k.pid != pid :: old(Flat(Snap()))[k]
    {
      hide Inv, FramesInv, MappedInv, EntriesInv, SlotsInv, PageOf, Next;
      ghost var m := Flat(Snap());
      var todo := set k | k in sptes && k.pid == pid;
      ghost var rest := sptes.Keys - todo;
      while todo != {}
        invariant Valid() && sptes.Keys == rest + todo && rest !! todo
        invariant Flat(Snap()) == map k | k in m && (k in rest || k in todo) :: m[k]
        decreases todo
      {
        var k :| k in todo;
        PageTableFree(k);
        todo := todo - {k};
        assert sptes.Keys == rest + todo;
      }
    }
  }

  /** What becomes of a fault that does not kill the process. */
  ghost function FaultOutcome(s: State, k: Key, holdsFileLock: bool): Outcome {
    if k in s.sptes && !s.sptes[k].loaded && s.sptes[k].readBytes + s.sptes[k].zeroBytes != PGSIZE then Halted
    else if Exhausted(s) then Halted
    else if k !in s.sptes || s.sptes[k].loaded || Backed(s.sptes[k]) then Resolved
    else if Beyond(s.sptes[k]) then Halted
    else if s.sptes[k].readBytes != PGSIZE then ShortRead(false)
    else if holdsFileLock then ShortRead(true)
    else Halted
  }

  /** The page starts beyond the end of the file it is to be read from. */
  predicate Beyond(e: Spte) {
    e.readBytes > 0 && e.file.Some? && e.ofs > |e.file.value|
  }

  /** How filling a page ends: with the whole page, with too few bytes, or with the kernel stopped. */
  datatype Filling = Filled | Partial | Stuck

  /** `file_read_at` of `size` bytes, not 0: the bytes the file has in the range; none if that starts beyond the end
      of the file, which stops the kernel. */
  function FileReadAt(file: seq<byte>, size: nat, ofs: nat): (r: Option<seq<byte>>)
    requires size > 0
    ensures r.None? <==> ofs > |file|
    ensures r.Some? ==> |r.value| <= size && (|r.value| == size <==> ofs + size <= |file|)
    ensures r.Some? && |r.value| == size ==> r.value == file[ofs..ofs + size]
  {
    if ofs > |file| then None else Some(file[ofs..if ofs + size <= |file| then ofs + size else |file|])
  }

  lemma SwappedEntry(s: State, k: Key)
    requires Inv(s) && k in s.sptes && s.sptes[k].swapped
    ensures s.sptes[k].writable && s.sptes[k].loaded && !Present(s, k)
    ensures s.sptes[k].slot < |s.slots| && SECTORS_PER_PAGE * |s.slots| <= |s.swap|
  {
    assert EntryInv(s, k);
  }

  /** The frame and the slot of an entry exist, and a swapped entry's bit is on. */
  lemma EntryBounds(s: State, k: Key)
    requires Inv(s) && k in s.sptes
    ensures CanFree(s, k) && (s.sptes[k].swapped ==> s.sptes[k].slot < |s.slots|)
    ensures Present(s, k) ==> HasFrame(s.frames, s.dirs[k].kpage)
    ensures s.sptes[k].swapped ==> s.slots[s.sptes[k].slot]
    ensures |s.ram| == |s.used| && Bounded(s.frames, |s.ram|)
  {
    if Present(s, k) {
      UsedFrame(s, k);
    }
  }

  /** Not every page of a process can be brought back: after an eviction the next access to the page stops the
      kernel, whatever memory there is, exactly when the page was clean and its entry does not describe a whole
      page.  Entries of stack pages never do. */
  lemma EvictedFault(s: State, slot: nat, holdsFileLock: bool)
    requires Inv(s) && CanEvict(s, slot)
    ensures var t, k := EvictStep(s, slot), s.frames[0].key;
            FaultOutcome(t, k, holdsFileLock) ==
              if Exhausted(t) || (!s.dirs[k].dirty && s.sptes[k].readBytes + s.sptes[k].zeroBytes != PGSIZE) then Halted
              else Resolved
  {
    HeadFrame(s);
    assert EntryInv(s, s.frames[0].key);
  }

  /** So a stack page is lost that is evicted before anything is stored in it, and a run leads there. */
  lemma CleanStackPageLost(s: State, slot: nat)
    requires Inv(s) && CanEvict(s, slot)
    requires var k := s.frames[0].key; !s.dirs[k].dirty && s.sptes[k] == STACK_ENTRY
    ensures var t, k := EvictStep(s, slot), s.frames[0].key;
            k in Flat(t) && Flat(t)[k] == ZeroPage() && FaultOutcome(t, k, true) == FaultOutcome(t, k, false) == Halted
  {
    HeadFrame(s);
    assert EntryInv(s, s.frames[0].key);
    EvictedFault(s, slot, true);
    EvictedFault(s, slot, false);
  }

  /** A machine with one page and no swap, before any process runs. */
  ghost function SmallMachine(): State {
    State([false], [ZeroPage()], [], [], [], map[], map[])
  }

  /** The stack of a process grows by a page, and the page is evicted. */
  ghost function LosingRun(k: Key): (seq<State>, seq<Action>) {
    var s := SmallMachine();
    var t := GrowStep(s, k, 0);
    ([s, t, EvictStep(t, 0)], [Grow(k, 0), Evict(0)])
  }

  lemma StackPageLostInRun(k: Key)
    ensures var (states, actions) := LosingRun(k);
            && IsRun(states, actions) && Inv(states[0]) && !Exhausted(states[2])
            && k in Flat(states[2]) && FaultOutcome(states[2], k, false) == Halted
  {
    var s := SmallMachine();
    BootInv(s);
    var t := GrowStep(s, k, 0);
    GrowKeeps(s, k, 0);
    CleanStackPageLost(t, 0);
  }

  lemma AbsentKey(s: State, k: Key)
    requires Inv(s) && k !in s.sptes
    ensures !Present(s, k)
  {
  }

  lemma UnloadedEntry(s: State, k: Key)
    requires Inv(s) && k in s.sptes && !s.sptes[k].loaded
    ensures !s.sptes[k].swapped && !Present(s, k) && (s.sptes[k].readBytes > 0 ==> s.sptes[k].file.Some?)
  {
    assert EntryInv(s, k);
  }

  lemma AbsentEntry(s: State, k: Key)
    requires Inv(s) && k in s.sptes && !Present(s, k)
    ensures s.sptes[k].swapped ==> s.sptes[k].loaded
    ensures s.sptes[k].loaded ==> s.sptes[k].swapped
  {
    assert EntryInv(s, k);
  }

  lemma LoadedIs(s1: State, t: State, k: Key, p: nat)
    requires CanFault(s1, k, p) && !s1.sptes[k].swapped
    requires t == Taken(s1, k, p, Image(s1.sptes[k])).(
                    dirs := s1.dirs[k := Pte(p, true, s1.sptes[k].writable, false)],
                    sptes := s1.sptes[k := s1.sptes[k].(loaded := true)])
    ensures t == FaultStep(s1, k, p)
  {
  }

  lemma FreeIs(s: State, k: Key)
    requires CanFree(s, k)
    ensures Next(s, Free(k), FreeStep(s, k)) && FreeStep(s, k).sptes.Keys == s.sptes.Keys - {k}
  {
  }

  lemma SwappedBackIs(s1: State, t: State, k: Key, p: nat)
    requires CanFault(s1, k, p) && s1.sptes[k].swapped && s1.sptes[k].writable
    requires t == Taken(s1, k, p, LoadPage(s1.swap, s1.sptes[k].slot)).(
                    slots := s1.slots[s1.sptes[k].slot := false],
                    dirs := s1.dirs[k := Pte(p, true, true, false)][k := Pte(p, true, true, true)],
                    sptes := s1.sptes[k := s1.sptes[k].(swapped := false)])
    ensures t == FaultStep(s1, k, p)
  {
    assert s1.dirs[k := Pte(p, true, true, false)][k := Pte(p, true, true, true)] ==
           s1.dirs[k := Pte(p, true, true, true)];
  }

  lemma FilledIs(e: Spte, page0: Page, page: Page)
    requires e.readBytes + e.zeroBytes == PGSIZE && Backed(e)
    requires if e.readBytes > 0
             then page == Splice(Splice(page0, 0, e.file.value[e.ofs..e.ofs + e.readBytes]), e.readBytes,
                                 seq(e.zeroBytes, _ => 0))
             else page == page0 == ZeroPage()
    ensures page == Image(e)
  {
    if e.readBytes > 0 {
      assert forall i :: 0 <= i < PGSIZE ==> page[i] == Image(e)[i];
    }
  }

  lemma GrownKeeps(s: State, s1: State, k: Key, p: nat)
    requires Inv(s) && RoomMade(s, s1) && CanGrow(s1, k, p)
    ensures var t := GrowStep(s1, k, p);
            Inv(t) && Present(t, k) && Flat(t) == Flat(s)[k := ZeroPage()] && t.dirs[k].writable
  {
    RoomMadeKeeps(s, s1);
    GrowKeeps(s1, k, p);
  }

  lemma FaultedKeeps(s: State, s1: State, k: Key, p: nat)
    requires Inv(s) && RoomMade(s, s1) && CanFault(s1, k, p)
    ensures var t := FaultStep(s1, k, p);
            && Inv(t) && Present(t, k) && Flat(t) == Flat(s)
            && k in s.sptes && t.dirs[k].writable == s.sptes[k].writable
  {
    RoomMadeKeeps(s, s1);
    FaultKeeps(s1, k, p);
  }
}
