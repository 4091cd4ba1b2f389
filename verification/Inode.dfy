/**
  Files as growable byte arrays (`filesys/inode.c`), on top of the sector cache and
  the free map.  All disk access goes through the cache; the proofs are about what
  the cache shows.
 */
module Inodes {
  import opened Wrappers
  import opened Disks
  import opened SectorCaches
  import opened FreeMaps
  import opened InodeIndex

  const FREE_MAP_SECTOR := 0
  const ROOT_DIR_SECTOR := 1

  const MAX_BYTES: nat := MAX_SECTORS * SECTOR_SIZE

  // ----- Files on a disk -----

  ghost function Length(v: seq<Sector>, ino: nat): nat
    requires ino < |v|
  {
    WordAt(v[ino], LENGTH_OFS)
  }

  /** The file system's index for `ino` is a tree with one sector of its own for every slot its length needs. */
  ghost predicate FileValid(v: seq<Sector>, owner: Owners, ino: nat) {
    && ino < |v|
    && Length(v, ino) <= MAX_BYTES
    && var n := BytesToSectors(Length(v, ino));
       Tree(v, owner, ino, v[ino], Slots(n, n))
  }

  ghost predicate FilesValid(v: seq<Sector>, owner: Owners, inodes: set<nat>) {
    forall ino :: ino in inodes ==> FileValid(v, owner, ino)
  }

  ghost predicate OwnersUsed(owner: Owners, used: seq<bool>) {
    forall s :: s in owner ==> s < |used| && used[s]
  }

  /** The bytes of file `ino`. */
  ghost function Content(v: seq<Sector>, ino: nat): (c: seq<byte>)
    requires ino < |v|
    ensures |c| == Length(v, ino)
  {
    seq(Length(v, ino), p requires 0 <= p < Length(v, ino) => ByteAt(v, ino, v[ino], p))
  }

  ghost function ByteAt(v: seq<Sector>, ino: nat, h: Sector, p: nat): byte {
    Block(v, ino, h, Data(p / SECTOR_SIZE))[p % SECTOR_SIZE]
  }

  lemma ByteInUse(length: nat, p: nat)
    requires p < length <= MAX_BYTES
    ensures var n := BytesToSectors(length);
            n <= MAX_SECTORS && p / SECTOR_SIZE < n && Data(p / SECTOR_SIZE) in Slots(n, n)
  {
  }

  /** A byte keeps its value when its sector is found in the same place and keeps its contents. */
  lemma ByteKept(v: seq<Sector>, v': seq<Sector>, owner: Owners, ino: nat, h: Sector, h': Sector, used: iset<Slot>,
                 p: nat)
    requires Tree(v, owner, ino, h, used) && Data(p / SECTOR_SIZE) in used
    requires |v'| == |v| && SameLocs(v, v', ino, h, h', used)
    requires var s := Loc(v, ino, h, Data(p / SECTOR_SIZE)); v'[s] == v[s]
    ensures ByteAt(v', ino, h', p) == ByteAt(v, ino, h, p)
  {
  }

  /** Files other than `ino` do not notice a change confined to index blocks of `ino`. */
  lemma OthersKept(v: seq<Sector>, owner: Owners, v': seq<Sector>, owner': Owners, ino: nat, other: nat)
    requires FileValid(v, owner, other) && other != ino
    requires |v'| == |v|
    requires forall s :: s in owner ==> s in owner' && owner'[s] == owner[s]
    requires forall s :: s in owner && s < |v| && owner[s].0 == other ==> v'[s] == v[s]
    ensures FileValid(v', owner', other) && Content(v', other) == Content(v, other) && v'[other] == v[other]
  {
    var n := BytesToSectors(Length(v, other));
    var used := Slots(n, n);
    SlotsClosed(n, n);
    assert Loc(v, other, v[other], Header) == other;
    TreeFrame(v, owner, v', owner', other, v[other], used);
    forall p | 0 <= p < Length(v, other) ensures Content(v', other)[p] == Content(v, other)[p] {
      ByteInUse(Length(v, other), p);
      ByteKept(v, v', owner, other, v[other], v[other], used, p);
    }
  }

  /** Linking a fresh sector into an unused slot extends the tree by that slot. */
  lemma AddSlot(v: seq<Sector>, owner: Owners, h: Sector, v': seq<Sector>, h': Sector,
                ino: nat, used: iset<Slot>, u: Slot, s: nat)
    requires Tree(v, owner, ino, h, used) && |v'| == |v|
    requires SameLocs(v, v', ino, h, h', used) && Loc(v', ino, h', u) == s
    requires s < |v| && s !in owner
    ensures Tree(v', owner[s := (ino, u)], ino, h', used + iset{u})
  {
  }

  /** Only the pointers in use matter in a header. */
  lemma {:induction false} OldHeader(v0: seq<Sector>, v: seq<Sector>, owner: Owners, ino: nat, h0: Sector, h: Sector,
                                     used: iset<Slot>, u: Slot)
    requires Closed(used) && u in used && SameLocs(v0, v, ino, h0, h, used)
    requires forall w :: w in used ==> Loc(v, ino, h, w) < |v|
    ensures Loc(v, ino, h0, u) == Loc(v0, ino, h0, u)
    decreases Rank(u)
  {
    if !u.Header? && !Parent(u).Header? {
      OldHeader(v0, v, owner, ino, h0, h, used, Parent(u));
      assert Loc(v, ino, h, Parent(u)) < |v|;
    }
  }

  /** Header fields in front of the pointers do not move any slot, nor does rewriting the header's own sector. */
  lemma {:induction false} FieldsIrrelevant(v: seq<Sector>, owner: Owners, ino: nat, h: Sector, h': Sector,
                                            used: iset<Slot>, u: Slot)
    requires Closed(used) && Tree(v, owner, ino, h, used) && u in used
    requires forall i :: DIRECT_OFS <= i < SECTOR_SIZE ==> h'[i] == h[i]
    ensures Loc(v[ino := h'], ino, h', u) == Loc(v, ino, h, u)
    decreases Rank(u)
  {
    assert Loc(v, ino, h, Header) == ino;
    if !u.Header? {
      FieldsIrrelevant(v, owner, ino, h, h', used, Parent(u));
      var ofs := CellOfs(u);
      if Parent(u).Header? {
        SameCell(h, h', ofs);
      } else {
        SectorsDistinct(v, owner, ino, h, used, Parent(u), ino, h, used, Header);
      }
    }
  }

  lemma SameCell(h: Sector, h': Sector, ofs: nat)
    requires DIRECT_OFS <= ofs && ofs + 4 <= SECTOR_SIZE && forall i :: DIRECT_OFS <= i < SECTOR_SIZE ==> h'[i] == h[i]
    ensures WordAt(h', ofs) == WordAt(h, ofs)
  {
    assert h'[ofs..ofs + 4] == h[ofs..ofs + 4];
  }

  /** Overwriting a sector nobody owns moves no slot of a tree. */
  lemma FreshBlock(v: seq<Sector>, v': seq<Sector>, owner: Owners, ino: nat, h: Sector, used: iset<Slot>, t: nat)
    requires Closed(used) && t !in owner && |v'| == |v|
    requires forall s :: 0 <= s < |v| && s != t ==> v'[s] == v[s]
    requires forall w :: w in used ==> Loc(v, ino, h, w) in owner && Loc(v, ino, h, w) < |v|
    ensures SameLocs(v, v', ino, h, h, used)
  {
    forall w | w in used ensures Loc(v', ino, h, w) == Loc(v, ino, h, w) {
      LocFrame(v, v', ino, h, used, w);
    }
  }

  /** `ino` is growing on a disk that reads `v`: `h` is its header being edited in memory, `used` the slots linked so
      far. */
  ghost predicate Growing(v: seq<Sector>, owner: Owners, map0: seq<bool>, ino: nat, h: Sector, used: iset<Slot>) {
    && |map0| == |v| <= WORD_LIMIT && OwnersUsed(owner, map0)
    && Tree(v, owner, ino, h, used)
  }

  lemma GrowingSame(v: seq<Sector>, owner: Owners, map0: seq<bool>, ino: nat, h: Sector, used: iset<Slot>,
                    used': iset<Slot>)
    requires Growing(v, owner, map0, ino, h, used) && used' == used
    ensures Growing(v, owner, map0, ino, h, used')
  {
  }

  /** A valid file is ready to grow. */
  lemma FileGrowing(v: seq<Sector>, owner: Owners, map0: seq<bool>, inodes: set<nat>, ino: nat)
    requires FilesValid(v, owner, inodes) && ino in inodes
    requires |map0| == |v| <= WORD_LIMIT && OwnersUsed(owner, map0)
    ensures ino < |v| && Length(v, ino) <= MAX_BYTES
    ensures var n := BytesToSectors(Length(v, ino)); Growing(v, owner, map0, ino, v[ino], Slots(n, n))
  {
  }

  /** One step of growing `ino`: slots in use stay put, header fields and everyone else's sectors are untouched. */
  ghost predicate GrowStep(v: seq<Sector>, owner: Owners, h: Sector, v': seq<Sector>, owner': Owners, h': Sector,
                           ino: nat, used: iset<Slot>)
  {
    && Frame(v, owner, v', owner', ino)
    && SameLocs(v, v', ino, h, h', used)
    && h'[..DIRECT_OFS] == h[..DIRECT_OFS]
  }

  lemma GrowStepRefl(v: seq<Sector>, owner: Owners, h: Sector, ino: nat, used: iset<Slot>)
    ensures GrowStep(v, owner, h, v, owner, h, ino, used)
  {
  }

  lemma GrowStepTrans(v0: seq<Sector>, o0: Owners, h0: Sector, v1: seq<Sector>, o1: Owners, h1: Sector,
                      v2: seq<Sector>, o2: Owners, h2: Sector, ino: nat, used0: iset<Slot>, used1: iset<Slot>)
    requires GrowStep(v0, o0, h0, v1, o1, h1, ino, used0) && GrowStep(v1, o1, h1, v2, o2, h2, ino, used1)
    requires used0 <= used1
    ensures GrowStep(v0, o0, h0, v2, o2, h2, ino, used0)
  {
  }

  /** Storing a pointer in the header: to a fresh sector it extends the tree; otherwise it does no harm. */
  lemma LinkInHeader(v: seq<Sector>, owner: Owners, map0: seq<bool>, ino: nat, h: Sector, used: iset<Slot>, u: Slot,
                     s: nat, v': seq<Sector>, backed: bool)
    requires Closed(used) && Growing(v, owner, map0, ino, h, used)
    requires Bounded(u) && !u.Header? && Parent(u).Header? && u !in used
    requires s < WORD_LIMIT && (backed ==> s < |v| && s !in owner && map0[s])
    requires |v'| == |v| && forall t :: 0 <= t < |v| && (backed && IsIndex(u) ==> t != s) ==> v'[t] == v[t]
    ensures var h' := Splice(h, CellOfs(u), WordBytes(s));
            var owner' := if backed then owner[s := (ino, u)] else owner;
            && Growing(v', owner', map0, ino, h', if backed then used + iset{u} else used)
            && GrowStep(v, owner, h, v', owner', h', ino, used) && Loc(v', ino, h', u) == s
  {
    var h' := Splice(h, CellOfs(u), WordBytes(s));
    SetHeaderCell(v, owner, ino, h, used, u, s);
    if backed {
      FreshBlock(v, v', owner, ino, h', used, s);
      AddSlot(v, owner, h, v', h', ino, used, u, s);
    } else {
      assert v' == v;
    }
  }

  /** Storing a pointer in an index block, likewise. */
  lemma LinkInBlock(v: seq<Sector>, owner: Owners, map0: seq<bool>, ino: nat, h: Sector, used: iset<Slot>, u: Slot,
                    s: nat, backed: bool)
    requires Closed(used) && Growing(v, owner, map0, ino, h, used)
    requires Bounded(u) && !u.Header? && !Parent(u).Header? && Parent(u) in used && u !in used
    requires s < WORD_LIMIT && (backed ==> s < |v| && s !in owner && map0[s])
    ensures Loc(v, ino, h, Parent(u)) < |v|
    ensures var t := Loc(v, ino, h, Parent(u));
            var v' := v[t := Splice(v[t], CellOfs(u), WordBytes(s))];
            var owner' := if backed then owner[s := (ino, u)] else owner;
            && Growing(v', owner', map0, ino, h, if backed then used + iset{u} else used)
            && GrowStep(v, owner, h, v', owner', h, ino, used) && Loc(v', ino, h, u) == s
  {
    var t := Loc(v, ino, h, Parent(u));
    var v' := v[t := Splice(v[t], CellOfs(u), WordBytes(s))];
    SetBlockCell(v, owner, ino, h, used, u, s);
    if backed {
      AddSlot(v, owner, h, v', h, ino, used, u, s);
    }
    assert owner[t] == (ino, Parent(u)) && IsIndex(Parent(u));
  }

  /** Overwriting a sector nobody owns keeps a growing file as it was. */
  lemma FreshStep(v: seq<Sector>, owner: Owners, map0: seq<bool>, ino: nat, h: Sector, used: iset<Slot>, t: nat,
                  v': seq<Sector>)
    requires Closed(used) && Growing(v, owner, map0, ino, h, used) && t !in owner
    requires |v'| == |v| && forall s :: 0 <= s < |v| && s != t ==> v'[s] == v[s]
    ensures Growing(v', owner, map0, ino, h, used) && SameLocs(v, v', ino, h, h, used)
  {
    FreshBlock(v, v', owner, ino, h, used, t);
  }

  /** Overwriting such a sector and then linking it as an index block is one step. */
  lemma FreshThenLinked(v: seq<Sector>, owner: Owners, v1: seq<Sector>, v2: seq<Sector>, owner': Owners,
                        ino: nat, h: Sector, used: iset<Slot>, u: Slot, t: nat)
    requires SameLocs(v, v1, ino, h, h, used) && GrowStep(v1, owner, h, v2, owner', h, ino, used)
    requires |v1| == |v| && forall s :: 0 <= s < |v| && s != t ==> v1[s] == v[s]
    requires t in owner' && owner'[t] == (ino, u) && IsIndex(u)
    ensures GrowStep(v, owner, h, v2, owner', h, ino, used)
  {
  }

  /** Taking a free sector leaves a growing file as it was and yields a sector nobody owns. */
  lemma TakeSector(v: seq<Sector>, owner: Owners, map0: seq<bool>, ino: nat, h: Sector, used: iset<Slot>, s: nat)
    requires Growing(v, owner, map0, ino, h, used) && s < |map0| && !map0[s]
    ensures Growing(v, owner, map0[s := true], ino, h, used) && s !in owner
  {
  }

  /** What the step that adds data sector `curr` promises; `m` sectors were backed before and `m'` are after. */
  ghost predicate Appended(v: seq<Sector>, owner: Owners, map0: seq<bool>, h: Sector,
                           v': seq<Sector>, owner': Owners, map1: seq<bool>, h': Sector,
                           ino: nat, curr: nat, m: nat, m': nat, ok: bool)
  {
    && GrowStep(v, owner, h, v', owner', h', ino, Slots(curr, m))
    && (ok ==> Growing(v', owner', map1, ino, h', Slots(curr + 1, m')))
    && OwnersUsed(owner', map1)
    && var cost := TotalSectors(curr + 1) - TotalSectors(curr);
       if m == curr && CountFree(map0) >= cost
       then ok && m' == curr + 1 && CountFree(map1) == CountFree(map0) - cost
            && InOrder(map0, map1) && IsNth(map0, Loc(v', ino, h', Data(curr)), cost - 1)
       else m' == m && (ok <==> CountFree(map0) >= cost - 1) && CountFree(map1) == 0
  }

  /** The outcome of asking the free map for one sector. */
  ghost predicate TookOne(map0: seq<bool>, map1: seq<bool>, a: Option<nat>) {
    match a
    case None => CountFree(map0) == 0 && map1 == map0
    case Some(s) => s < |map0| && !map0[s] && map1 == map0[s := true]
                    && CountFree(map0) > 0 && CountFree(map1) == CountFree(map0) - 1
                    && InOrder(map0, map1) && IsNth(map0, s, 0)
  }

  /** Adding a direct data sector keeps every promise of a step. */
  lemma AppendedDirect(v: seq<Sector>, owner: Owners, map0: seq<bool>, h: Sector,
                       owner': Owners, map1: seq<bool>, h': Sector,
                       ino: nat, curr: nat, m: nat, m': nat, a: Option<nat>, alloc: nat)
    requires m <= curr < DIRECT_CNT && Growing(v, owner, map0, ino, h, Slots(curr, m))
    requires m < curr ==> CountFree(map0) == 0
    requires TookOne(map0, map1, a) && alloc < WORD_LIMIT && (a.Some? ==> alloc == a.value)
    requires h' == Splice(h, CellOfs(Data(curr)), WordBytes(alloc))
    requires owner' == if a.Some? then owner[alloc := (ino, Data(curr))] else owner
    requires m' == if a.Some? then curr + 1 else m
    ensures Appended(v, owner, map0, h, v, owner', map1, h', ino, curr, m, m', true)
  {
    var used := Slots(curr, m);
    SlotsClosed(curr, m);
    if a.Some? {
      TakeSector(v, owner, map0, ino, h, used, alloc);
    }
    LinkInHeader(v, owner, map1, ino, h, used, Data(curr), alloc, v, a.Some?);
    SlotsGrow(curr, m);
    SlotsGrow(curr + 1, m);
    TotalGrow(curr);
  }

  /** The state after the index blocks for data sector `curr` exist; `map1` is the free map by then. */
  ghost predicate Indexed(v: seq<Sector>, owner: Owners, map0: seq<bool>, h: Sector,
                          v1: seq<Sector>, o1: Owners, map1: seq<bool>, h1: Sector, ino: nat, curr: nat, m: nat)
  {
    && GrowStep(v, owner, h, v1, o1, h1, ino, Slots(curr, m))
    && Growing(v1, o1, map1, ino, h1, Slots(curr + 1, m))
    && CountFree(map1) == CountFree(map0) - (TotalSectors(curr + 1) - TotalSectors(curr) - 1)
    && InOrder(map0, map1)
  }

  /** Adding a data sector below an index block keeps every promise of a step. */
  lemma AppendedBelow(v: seq<Sector>, owner: Owners, map0: seq<bool>, h: Sector,
                      v1: seq<Sector>, o1: Owners, map1: seq<bool>, h1: Sector,
                      v2: seq<Sector>, o2: Owners, map2: seq<bool>,
                      ino: nat, curr: nat, m: nat, m': nat, a: Option<nat>)
    requires m <= curr < MAX_SECTORS && Indexed(v, owner, map0, h, v1, o1, map1, h1, ino, curr, m)
    requires m < curr ==> CountFree(map0) == 0
    requires TookOne(map1, map2, a)
    requires GrowStep(v1, o1, h1, v2, o2, h1, ino, Slots(curr + 1, m))
    requires a.Some? ==> Growing(v2, o2, map2, ino, h1, Slots(curr + 1, m) + iset{Data(curr)})
    requires a.Some? ==> a.value == Loc(v2, ino, h1, Data(curr))
    requires a.None? ==> Growing(v2, o2, map2, ino, h1, Slots(curr + 1, m))
    requires m' == if a.Some? then curr + 1 else m
    ensures Appended(v, owner, map0, h, v2, o2, map2, h1, ino, curr, m, m', true)
  {
    hide InOrder, IsNth, TotalSectors, GrowStep, Tree, Slots, Loc;
    StepChain(v, owner, h, v1, o1, h1, v2, o2, ino, curr, m);
    if a.Some? {
      TotalMono(curr, curr + 1);
      SlotsGrow(curr + 1, m);
      GrowingSame(v2, o2, map2, ino, h1, Slots(curr + 1, m) + iset{Data(curr)}, Slots(curr + 1, curr + 1));
      InOrderTrans(map0, map1, map2);
      NthBefore(map0, map1, a.value, 0);
    }
  }

  lemma StepChain(v: seq<Sector>, owner: Owners, h: Sector, v1: seq<Sector>, o1: Owners, h1: Sector,
                  v2: seq<Sector>, o2: Owners, ino: nat, curr: nat, m: nat)
    requires GrowStep(v, owner, h, v1, o1, h1, ino, Slots(curr, m))
    requires GrowStep(v1, o1, h1, v2, o2, h1, ino, Slots(curr + 1, m))
    ensures GrowStep(v, owner, h, v2, o2, h1, ino, Slots(curr, m))
  {
    SlotsGrow(curr, m);
    GrowStepTrans(v, owner, h, v1, o1, h1, v2, o2, h1, ino, Slots(curr, m), Slots(curr + 1, m));
  }

  /** The doubly indirect range: with block `j` linked, or found already linked, the index is ready for sector
      `curr`. */
  lemma IndexedDoubly(v: seq<Sector>, owner: Owners, map0: seq<bool>, h: Sector,
                      v1: seq<Sector>, o1: Owners, h1: Sector, v2: seq<Sector>, o2: Owners, map2: seq<bool>,
                      ino: nat, curr: nat, m: nat, used: iset<Slot>, free1: nat)
    requires m <= curr && DIRECT_CNT + INDIRECT_CNT <= curr < MAX_SECTORS
    requires used == if curr == DIRECT_CNT + INDIRECT_CNT then Slots(curr, m) + iset{Doubly} else Slots(curr, m)
    requires GrowStep(v, owner, h, v1, o1, h1, ino, Slots(curr, m)) && GrowStep(v1, o1, h1, v2, o2, h1, ino, used)
    requires var i := curr - DIRECT_CNT - INDIRECT_CNT;
             if i % INDIRECT_CNT == 0
             then Growing(v2, o2, map2, ino, h1, used + iset{DoublyIndirect(i / INDIRECT_CNT)})
                  && CountFree(map2) == free1 - 1
             else Growing(v2, o2, map2, ino, h1, used) && CountFree(map2) == free1
    requires free1 == CountFree(map0) - if curr == DIRECT_CNT + INDIRECT_CNT then 1 else 0
    requires InOrder(map0, map2)
    ensures Indexed(v, owner, map0, h, v2, o2, map2, h1, ino, curr, m)
  {
    TotalGrow(curr);
    DoublySlots(curr, m, used);
    GrowStepTrans(v, owner, h, v1, o1, h1, v2, o2, h1, ino, Slots(curr, m), used);
    var i := curr - DIRECT_CNT - INDIRECT_CNT;
    var used2 := if i % INDIRECT_CNT == 0 then used + iset{DoublyIndirect(i / INDIRECT_CNT)} else used;
    GrowingSame(v2, o2, map2, ino, h1, used2, Slots(curr + 1, m));
  }

  // ----- The effect of growing a file -----

  /** Files other than `ino` are as they were. */
  ghost predicate OthersSame(v: seq<Sector>, v': seq<Sector>, owner': Owners, inodes: set<nat>, ino: nat) {
    |v'| == |v| && forall other :: other in inodes && other != ino ==>
      other < |v| && FileValid(v', owner', other) && Content(v', other) == Content(v, other) && v'[other] == v[other]
  }

  /** Two headers agree but for the length and the pointers: on the magic number, the kind of file and the parent. */
  ghost predicate SameFields(h: Sector, h': Sector) {
    forall i :: 0 <= i < DIRECT_OFS && !(LENGTH_OFS <= i < LENGTH_OFS + 4) ==> h'[i] == h[i]
  }

  lemma OthersUntouched(v: seq<Sector>, owner: Owners, v': seq<Sector>, owner': Owners, inodes: set<nat>, ino: nat,
                        h: Sector)
    requires FilesValid(v, owner, inodes) && ino in owner && owner[ino] == (ino, Header) && ino < |v|
    requires Frame(v, owner, v', owner', ino)
    ensures OthersSame(v, v', owner', inodes, ino)
    ensures OthersSame(v, v'[ino := h], owner', inodes, ino)
  {
    forall other | other in inodes && other != ino
      ensures FileValid(v', owner', other) && Content(v', other) == Content(v, other) && v'[other] == v[other]
      ensures FileValid(v'[ino := h], owner', other) && Content(v'[ino := h], other) == Content(v, other)
    {
      OthersKept(v, owner, v', owner', ino, other);
      OthersKept(v, owner, v'[ino := h], owner', ino, other);
    }
  }

  /** A failed growth leaves the file as it was: the header on disk still leads to the old sectors. */
  lemma GrowthAbandoned(v: seq<Sector>, owner: Owners, v': seq<Sector>, owner': Owners, ino: nat, h': Sector)
    requires FileValid(v, owner, ino)
    requires var n := BytesToSectors(Length(v, ino)); GrowStep(v, owner, v[ino], v', owner', h', ino, Slots(n, n))
    ensures FileValid(v', owner', ino) && Content(v', ino) == Content(v, ino)
  {
    var n, h := BytesToSectors(Length(v, ino)), v[ino];
    var used := Slots(n, n);
    SlotsClosed(n, n);
    assert Loc(v, ino, h, Header) == ino;
    forall u | u in used ensures Loc(v', ino, h, u) == Loc(v, ino, h, u) {
      OldHeader(v, v', owner, ino, h, h', used, u);
    }
    forall p | 0 <= p < Length(v, ino) ensures Content(v', ino)[p] == Content(v, ino)[p] {
      ByteInUse(Length(v, ino), p);
      ByteKept(v, v', owner, ino, h, h, used, p);
    }
  }

  /** Writing the new length into the header completes the growth: old bytes keep their values. */
  lemma GrowthCompleted(v: seq<Sector>, owner: Owners, v': seq<Sector>, owner': Owners, ino: nat, h': Sector, n': nat,
                        length': nat)
    requires FileValid(v, owner, ino) && Length(v, ino) <= length' <= MAX_BYTES && n' == BytesToSectors(length')
    requires var n := BytesToSectors(Length(v, ino)); GrowStep(v, owner, v[ino], v', owner', h', ino, Slots(n, n))
    requires Tree(v', owner', ino, h', Slots(n', n'))
    ensures var v'' := v'[ino := Splice(h', LENGTH_OFS, WordBytes(length'))];
            && FileValid(v'', owner', ino) && Length(v'', ino) == length'
            && Content(v'', ino)[..Length(v, ino)] == Content(v, ino)
  {
    var h, n := v[ino], BytesToSectors(Length(v, ino));
    var h'' := Splice(h', LENGTH_OFS, WordBytes(length'));
    var v'' := v'[ino := h''];
    StoreWord(h', LENGTH_OFS, length', LENGTH_OFS);
    SlotsClosed(n', n');
    forall u | u in Slots(n', n') ensures Loc(v'', ino, h'', u) == Loc(v', ino, h', u) {
      FieldsIrrelevant(v', owner', ino, h', h'', Slots(n', n'), u);
    }
    SlotsMono(n, n, n', n');
    forall p | 0 <= p < Length(v, ino) ensures Content(v'', ino)[p] == Content(v, ino)[p] {
      CompletedByte(v, owner, v', ino, h', h'', p);
    }
  }

  lemma CompletedByte(v: seq<Sector>, owner: Owners, v': seq<Sector>, ino: nat, h': Sector, h'': Sector, p: nat)
    requires FileValid(v, owner, ino) && p < Length(v, ino) && |v'| == |v|
    requires forall s :: s in owner && s < |v| && owner[s].1.Data? ==> v'[s] == v[s]
    requires var u := Data(p / SECTOR_SIZE);
             Loc(v'[ino := h''], ino, h'', u) == Loc(v', ino, h', u) == Loc(v, ino, v[ino], u)
    ensures ByteAt(v'[ino := h''], ino, h'', p) == ByteAt(v, ino, v[ino], p)
  {
    var n := BytesToSectors(Length(v, ino));
    ByteInUse(Length(v, ino), p);
    assert Header in Slots(n, n) && Loc(v, ino, v[ino], Header) == ino;
    SectorsDistinct(v, owner, ino, v[ino], Slots(n, n), Data(p / SECTOR_SIZE), ino, v[ino], Slots(n, n), Header);
  }

  /** Byte `i` of the free sector number `r`. */
  ghost function FreeByte(v: seq<Sector>, map0: seq<bool>, r: int, i: nat): byte
    requires i < SECTOR_SIZE
  {
    if 0 <= r < CountFree(map0) && NthFree(map0, r) < |v| then v[NthFree(map0, r)][i] else 0
  }

  /** What growth makes of byte `p` behind the end of file `ino`, on a disk that reads `v`: it clears no sector, so that
      the byte is what is there already in the last sector of the file, or in the free sector that is taken for it. */
  ghost function GrownByte(v: seq<Sector>, map0: seq<bool>, ino: nat, p: nat): byte
    requires ino < |v|
  {
    var n, k := BytesToSectors(Length(v, ino)), p / SECTOR_SIZE;
    if k < n then ByteAt(v, ino, v[ino], p)
    else FreeByte(v, map0, TotalSectors(k + 1) - TotalSectors(n) - 1, p % SECTOR_SIZE)
  }

  lemma GrownBytes(v: seq<Sector>, owner: Owners, map0: seq<bool>, v': seq<Sector>, owner': Owners, ino: nat,
                   h': Sector, n': nat, length': nat)
    requires FileValid(v, owner, ino) && Length(v, ino) <= length' <= MAX_BYTES && n' == BytesToSectors(length')
    requires var n := BytesToSectors(Length(v, ino));
             && GrowStep(v, owner, v[ino], v', owner', h', ino, Slots(n, n))
             && Tree(v', owner', ino, h', Slots(n', n')) && Placed(map0, v', ino, h', n, n') && |map0| == |v|
    ensures var v'' := v'[ino := Splice(h', LENGTH_OFS, WordBytes(length'))];
            && Length(v'', ino) == length'
            && forall p :: Length(v, ino) <= p < length' ==> Content(v'', ino)[p] == GrownByte(v, map0, ino, p)
  {
    var h'' := Splice(h', LENGTH_OFS, WordBytes(length'));
    StoreWord(h', LENGTH_OFS, length', LENGTH_OFS);
    forall p | Length(v, ino) <= p < length' ensures ByteAt(v'[ino := h''], ino, h'', p) == GrownByte(v, map0, ino, p) {
      ByteInUse(length', p);
      GrownByteIs(v, owner, map0, v', owner', ino, h', h'', n', p);
    }
  }

  lemma GrownByteIs(v: seq<Sector>, owner: Owners, map0: seq<bool>, v': seq<Sector>, owner': Owners, ino: nat,
                    h': Sector, h'': Sector, n': nat, p: nat)
    requires ino < |v| == |map0| && n' <= MAX_SECTORS && p / SECTOR_SIZE < n'
    requires var n := BytesToSectors(Length(v, ino));
             && GrowStep(v, owner, v[ino], v', owner', h', ino, Slots(n, n))
             && Tree(v', owner', ino, h', Slots(n', n')) && Placed(map0, v', ino, h', n, n')
    requires forall i :: DIRECT_OFS <= i < SECTOR_SIZE ==> h''[i] == h'[i]
    ensures ByteAt(v'[ino := h''], ino, h'', p) == GrownByte(v, map0, ino, p)
  {
    hide TotalSectors, BytesToSectors, IsNth, CountFree, Tree, Frame, Loc, Block;
    var n, k := BytesToSectors(Length(v, ino)), p / SECTOR_SIZE;
    var s := Loc(v', ino, h', Data(k));
    GrownSector(v, owner, v', owner', ino, h', h'', n', k);
    if k < n {
      BlockIs(v, ino, v[ino], Data(k));
      assert Data(k) in Slots(n, n);
    } else {
      NthSector(map0, s, TotalSectors(k + 1) - TotalSectors(n) - 1);
    }
  }

  lemma BlockIs(v: seq<Sector>, ino: nat, h: Sector, u: Slot)
    ensures u.Data? && Loc(v, ino, h, u) < |v| ==> Block(v, ino, h, u) == v[Loc(v, ino, h, u)]
  {
  }

  /** The sectors of a file that has grown hold what they held. */
  lemma GrownSector(v: seq<Sector>, owner: Owners, v': seq<Sector>, owner': Owners, ino: nat,
                    h': Sector, h'': Sector, n': nat, k: nat)
    requires ino < |v| && k < n' <= MAX_SECTORS
    requires Frame(v, owner, v', owner', ino) && Tree(v', owner', ino, h', Slots(n', n'))
    requires forall i :: DIRECT_OFS <= i < SECTOR_SIZE ==> h''[i] == h'[i]
    ensures var s := Loc(v', ino, h', Data(k)); s < |v| && Block(v'[ino := h''], ino, h'', Data(k)) == v[s]
  {
    hide Loc;
    var s := Loc(v', ino, h', Data(k));
    SlotsClosed(n', n');
    assert Data(k) in Slots(n', n') && Header in Slots(n', n');
    FieldsIrrelevant(v', owner', ino, h', h'', Slots(n', n'), Data(k));
    assert s < |v| && owner'[s] == (ino, Data(k)) && v'[s] == v[s];
    HeaderAt(v', ino, h');
    SectorsDistinct(v', owner', ino, h', Slots(n', n'), Data(k), ino, h', Slots(n', n'), Header);
  }

  lemma HeaderAt(v: seq<Sector>, ino: nat, h: Sector)
    ensures Loc(v, ino, h, Header) == ino
  {
  }

  lemma NthSector(map0: seq<bool>, s: nat, r: int)
    requires IsNth(map0, s, r)
    ensures 0 <= r < CountFree(map0) && s == NthFree(map0, r)
  {
  }

  /** Bookkeeping of the growth loop: `m` of the first `curr` data sectors are backed; `free0` sectors were free at
      the start.  All are backed, or the sectors have run out. */
  ghost predicate Budget(free0: nat, map1: seq<bool>, n0: nat, n1: nat, curr: nat, m: nat) {
    && n0 <= m <= curr <= n1
    && (m == curr ==> CountFree(map1) == free0 - (TotalSectors(curr) - TotalSectors(n0)))
    && (m < curr ==> CountFree(map1) == 0 && RunsOutAt(free0, n0, curr, m))
  }

  /** The data sectors from `n0` to `m` were taken in order, each after its index blocks. */
  ghost predicate Placed(map0: seq<bool>, v: seq<Sector>, ino: nat, h: Sector, n0: nat, m: nat) {
    forall k :: n0 <= k < m ==>
      IsNth(map0, Loc(v, ino, h, Data(k)), TotalSectors(k + 1) - TotalSectors(n0) - 1)
  }

  /** What the loop that grows a file from `n0` to `n1` data sectors keeps true. */
  ghost predicate Expanding(v0: seq<Sector>, o0: Owners, map0: seq<bool>, v: seq<Sector>, owner: Owners,
                            map1: seq<bool>, h: Sector, ino: nat, n0: nat, n1: nat, curr: nat, m: nat)
    requires ino < |v0|
  {
    && GrowStep(v0, o0, v0[ino], v, owner, h, ino, Slots(n0, n0))
    && Growing(v, owner, map1, ino, h, Slots(curr, m))
    && Budget(CountFree(map0), map1, n0, n1, curr, m)
    && Placed(map0, v, ino, h, n0, m) && (m == curr ==> InOrder(map0, map1))
  }

  lemma ExpandedOnce(v0: seq<Sector>, o0: Owners, map0: seq<bool>,
                     v: seq<Sector>, owner: Owners, map1: seq<bool>, h: Sector,
                     v': seq<Sector>, owner': Owners, map2: seq<bool>, h': Sector,
                     ino: nat, n0: nat, n1: nat, curr: nat, m: nat, m': nat, ok: bool)
    requires ino < |v0| && curr < n1 <= MAX_SECTORS
    requires Expanding(v0, o0, map0, v, owner, map1, h, ino, n0, n1, curr, m)
    requires Appended(v, owner, map1, h, v', owner', map2, h', ino, curr, m, m', ok)
    ensures GrowStep(v0, o0, v0[ino], v', owner', h', ino, Slots(n0, n0))
    ensures ok ==> Expanding(v0, o0, map0, v', owner', map2, h', ino, n0, n1, curr + 1, m')
    ensures !ok ==> CountFree(map0) < TotalSectors(n1) - TotalSectors(n0) && !RunsOut(CountFree(map0), n0, n1)
    ensures !ok ==> CountFree(map2) == 0
  {
    hide InOrder, IsNth, TotalSectors;
    SlotsMono(n0, n0, curr, m);
    TotalMono(curr, curr + 1);
    GrowStepTrans(v0, o0, v0[ino], v, owner, h, v', owner', h', ino, Slots(n0, n0), Slots(curr, m));
    PlacedOnce(map0, map1, v, h, v', h', ino, n0, curr, m, m');
    if ok && m' == curr + 1 {
      InOrderTrans(map0, map1, map2);
    } else if !ok {
      IndexMissing(CountFree(map0), n0, n1, curr, m);
    }
  }

  lemma PlacedOnce(map0: seq<bool>, map1: seq<bool>, v: seq<Sector>, h: Sector, v': seq<Sector>, h': Sector,
                   ino: nat, n0: nat, curr: nat, m: nat, m': nat)
    requires n0 <= m <= curr && SameLocs(v, v', ino, h, h', Slots(curr, m)) && Placed(map0, v, ino, h, n0, m)
    requires m' == m ||
             (m == curr && m' == curr + 1 && InOrder(map0, map1)
              && CountFree(map1) == CountFree(map0) - (TotalSectors(curr) - TotalSectors(n0))
              && IsNth(map1, Loc(v', ino, h', Data(curr)), TotalSectors(curr + 1) - TotalSectors(curr) - 1))
    ensures Placed(map0, v', ino, h', n0, m')
  {
    hide InOrder, IsNth, TotalSectors, Loc;
    forall k | n0 <= k < m' ensures IsNth(map0, Loc(v', ino, h', Data(k)), TotalSectors(k + 1) - TotalSectors(n0) - 1) {
      if k < m {
        assert Data(k) in Slots(curr, m);
      } else {
        NthBefore(map0, map1, Loc(v', ino, h', Data(curr)), TotalSectors(curr + 1) - TotalSectors(curr) - 1);
      }
    }
  }

  /** Enough sectors are free for a file of `length` bytes to grow by `extend`, index blocks included. */
  ghost predicate EnoughFree(map0: seq<bool>, length: nat, extend: nat) {
    CountFree(map0) >= TotalSectors(BytesToSectors(length + extend)) - TotalSectors(BytesToSectors(length))
  }

  /** Sectors run out for data before they are needed for an index block again: growth then goes on regardless. */
  ghost predicate HollowGrowth(map0: seq<bool>, length: nat, extend: nat) {
    RunsOut(CountFree(map0), BytesToSectors(length), BytesToSectors(length + extend))
  }

  /** The free sectors that growth by `extend` bytes takes: those it needs, or all there are.  What a growth that
      fails has taken is not given back. */
  ghost function Taken(map0: seq<bool>, length: nat, extend: nat): nat {
    if EnoughFree(map0, length, extend)
    then
      TotalMono(BytesToSectors(length), BytesToSectors(length + extend));
      TotalSectors(BytesToSectors(length + extend)) - TotalSectors(BytesToSectors(length))
    else CountFree(map0)
  }

  /** The effect of growing file `ino` by `extend` bytes when `backed` data sectors end up with a sector of their
      own. */
  ghost predicate Expanded(v: seq<Sector>, map0: seq<bool>, v': seq<Sector>, owner': Owners, inodes: set<nat>,
                           ino: nat, extend: nat, ok: bool, backed: nat)
    requires ino < |v|
  {
    && OthersSame(v, v', owner', inodes, ino) && SameFields(v[ino], v'[ino])
    && (!ok ==> FileValid(v', owner', ino) && Content(v', ino) == Content(v, ino))
    && (ok ==> Length(v', ino) == Length(v, ino) + extend)
    && (ok <==> EnoughFree(map0, Length(v, ino), extend) || HollowGrowth(map0, Length(v, ino), extend))
    && (ok && backed == BytesToSectors(Length(v, ino) + extend) <==> EnoughFree(map0, Length(v, ino), extend))
    && (EnoughFree(map0, Length(v, ino), extend) ==>
         && FileValid(v', owner', ino) && Content(v', ino)[..Length(v, ino)] == Content(v, ino)
         && GrownContent(v, map0, v', ino))
  }

  /** The bytes that file `ino` has more in `v'` than in `v` are those that growth makes of them. */
  ghost predicate GrownContent(v: seq<Sector>, map0: seq<bool>, v': seq<Sector>, ino: nat)
    requires ino < |v| && ino < |v'|
  {
    forall p :: Length(v, ino) <= p < Length(v', ino) ==> Content(v', ino)[p] == GrownByte(v, map0, ino, p)
  }

  lemma HeaderOwned(v: seq<Sector>, owner: Owners, ino: nat)
    requires FileValid(v, owner, ino)
    ensures ino in owner && owner[ino] == (ino, Header)
  {
    var n := BytesToSectors(Length(v, ino));
    assert Header in Slots(n, n) && Loc(v, ino, v[ino], Header) == ino;
  }

  lemma FieldsKept(v: seq<Sector>, owner: Owners, v1: seq<Sector>, o1: Owners, ino: nat, h1: Sector,
                   used: iset<Slot>, length': nat)
    requires FileValid(v, owner, ino) && GrowStep(v, owner, v[ino], v1, o1, h1, ino, used) && length' < WORD_LIMIT
    ensures SameFields(v[ino], v1[ino]) && SameFields(v[ino], Splice(h1, LENGTH_OFS, WordBytes(length')))
  {
    hide FileValid, WordBytes;
    FileBounds(v, owner, ino);
    HeaderOwned(v, owner, ino);
    assert v1[ino] == v[ino];
    assert forall i :: 0 <= i < DIRECT_OFS ==> h1[i] == h1[..DIRECT_OFS][i] && v[ino][i] == v[ino][..DIRECT_OFS][i];
  }

  lemma BudgetSpent(free0: nat, map2: seq<bool>, n0: nat, n1: nat, backed: nat)
    requires Budget(free0, map2, n0, n1, n1, backed)
    ensures backed == n1 <==> free0 >= TotalSectors(n1) - TotalSectors(n0)
    ensures backed < n1 ==> RunsOut(free0, n0, n1)
    ensures backed < n1 ==> CountFree(map2) == 0
    ensures backed == n1 ==> CountFree(map2) == free0 - (TotalSectors(n1) - TotalSectors(n0))
  {
    hide TotalSectors;
    if backed < n1 {
      TotalMono(backed + 1, n1);
    }
  }

  lemma SpentBy(map0: seq<bool>, map2: seq<bool>, length: nat, extend: nat, ok: bool, backed: nat)
    requires InOrder(map0, map2)
    requires var n0, n1 := BytesToSectors(length), BytesToSectors(length + extend);
             if ok then Budget(CountFree(map0), map2, n0, n1, n1, backed)
             else CountFree(map2) == 0 && !EnoughFree(map0, length, extend)
    ensures TookFirst(map0, map2, Taken(map0, length, extend))
  {
    hide InOrder, TookFirst, BytesToSectors, TotalSectors;
    InOrderTook(map0, map2);
    if ok {
      BudgetSpent(CountFree(map0), map2, BytesToSectors(length), BytesToSectors(length + extend), backed);
    }
  }

  lemma ExpandedBy(v: seq<Sector>, owner: Owners, map0: seq<bool>, v1: seq<Sector>, h1: Sector,
                   v2: seq<Sector>, o2: Owners, map2: seq<bool>, inodes: set<nat>,
                   ino: nat, extend: nat, ok: bool, backed: nat)
    requires FilesValid(v, owner, inodes) && ino in inodes && Length(v, ino) + extend <= MAX_BYTES
    requires var n0, n1 := BytesToSectors(Length(v, ino)), BytesToSectors(Length(v, ino) + extend);
             && GrowStep(v, owner, v[ino], v1, o2, h1, ino, Slots(n0, n0))
             && (!ok ==> CountFree(map0) < TotalSectors(n1) - TotalSectors(n0) && !RunsOut(CountFree(map0), n0, n1))
             && (ok ==> Tree(v1, o2, ino, h1, Slots(n1, backed)) && Budget(CountFree(map0), map2, n0, n1, n1, backed)
                        && Placed(map0, v1, ino, h1, n0, backed))
    requires |map0| == |v|
    requires v2 == if ok then v1[ino := Splice(h1, LENGTH_OFS, WordBytes(Length(v, ino) + extend))] else v1
    ensures Expanded(v, map0, v2, o2, inodes, ino, extend, ok, backed)
  {
    hide SameFields;
    hide OthersSame, TotalSectors, BytesToSectors, CountFree, Tree, Content, Placed, GrownByte, RunsOutAt;
    var n0 := BytesToSectors(Length(v, ino));
    var n1, length' := BytesToSectors(Length(v, ino) + extend), Length(v, ino) + extend;
    FieldsKept(v, owner, v1, o2, ino, h1, Slots(n0, n0), length');
    HeaderOwned(v, owner, ino);
    OthersUntouched(v, owner, v1, o2, inodes, ino, v2[ino]);
    if !ok {
      GrowthAbandoned(v, owner, v1, o2, ino, h1);
    } else {
      StoreWord(h1, LENGTH_OFS, length', LENGTH_OFS);
      BudgetSpent(CountFree(map0), map2, n0, n1, backed);
      if backed == n1 {
        GrowthCompleted(v, owner, v1, o2, ino, h1, n1, length');
        GrownBytes(v, owner, map0, v1, o2, ino, h1, n1, length');
      }
    }
  }

  // ----- Reading and writing -----

  /** The bytes a read of `size` bytes at `offset` returns: it stops at the end of the file. */
  function ReadRange(c: seq<byte>, offset: nat, size: int): seq<byte> {
    if size <= 0 || offset >= |c| then [] else c[offset..if offset + size < |c| then offset + size else |c|]
  }

  lemma ReadOn(c: seq<byte>, offset: nat, pos: nat, chunk: nat)
    requires offset <= pos && pos + chunk <= |c|
    ensures ReadRange(c, offset, pos - offset) + c[pos..pos + chunk] == ReadRange(c, offset, pos + chunk - offset)
  {
  }

  lemma FileBounds(v: seq<Sector>, owner: Owners, ino: nat)
    requires FileValid(v, owner, ino)
    ensures ino < |v| && Length(v, ino) <= MAX_BYTES
  {
  }

  /** The index blocks on the way to data sector `k` are sectors of the disk, and so is the sector itself. */
  lemma PathInBounds(v: seq<Sector>, owner: Owners, ino: nat, k: nat)
    requires FileValid(v, owner, ino) && k < BytesToSectors(Length(v, ino))
    ensures k < MAX_SECTORS && Loc(v, ino, v[ino], Data(k)) < |v|
    ensures DIRECT_CNT <= k < DIRECT_CNT + INDIRECT_CNT ==> WordAt(v[ino], INDIRECT_OFS) < |v|
    ensures DIRECT_CNT + INDIRECT_CNT <= k ==>
              var d := WordAt(v[ino], DOUBLY_OFS);
              d < |v| && WordAt(v[d], 4 * ((k - DIRECT_CNT - INDIRECT_CNT) / INDIRECT_CNT)) < |v|
  {
    var n, h := BytesToSectors(Length(v, ino)), v[ino];
    SlotsClosed(n, n);
    assert Data(k) in Slots(n, n);
    assert Parent(Data(k)) in Slots(n, n);
    assert Parent(Parent(Data(k))) in Slots(n, n);
    IndexLocs(v, ino, h, 0);
    DataLoc(v, ino, h, k);
  }

  /** Bytes of a file that lie in one sector are consecutive bytes of that sector. */
  lemma ChunkBytes(v: seq<Sector>, owner: Owners, ino: nat, offset: nat, size: nat)
    requires FileValid(v, owner, ino)
    requires 0 < size && offset % SECTOR_SIZE + size <= SECTOR_SIZE && offset + size <= Length(v, ino)
    ensures var s := Loc(v, ino, v[ino], Data(offset / SECTOR_SIZE));
            s < |v| && Content(v, ino)[offset..offset + size]
                    == v[s][offset % SECTOR_SIZE..offset % SECTOR_SIZE + size]
  {
    PathInBounds(v, owner, ino, offset / SECTOR_SIZE);
    var s := Loc(v, ino, v[ino], Data(offset / SECTOR_SIZE));
    var c, ofs := Content(v, ino), offset % SECTOR_SIZE;
    var a, b := c[offset..offset + size], v[s][ofs..ofs + size];
    forall i | 0 <= i < size ensures a[i] == b[i] {
      SameSector(offset, i);
      assert a[i] == c[offset + i] == ByteAt(v, ino, v[ino], offset + i);
    }
  }

  lemma SameSector(offset: nat, i: nat)
    requires offset % SECTOR_SIZE + i < SECTOR_SIZE
    ensures (offset + i) / SECTOR_SIZE == offset / SECTOR_SIZE
    ensures (offset + i) % SECTOR_SIZE == offset % SECTOR_SIZE + i
  {
  }

  /** Overwriting part of a data sector overwrites those bytes of its file and no other byte of any file. */
  lemma WriteChunk(v: seq<Sector>, owner: Owners, inodes: set<nat>, ino: nat, offset: nat, bytes: seq<byte>)
    requires FilesValid(v, owner, inodes) && ino in inodes
    requires 0 < |bytes| && offset % SECTOR_SIZE + |bytes| <= SECTOR_SIZE && offset + |bytes| <= Length(v, ino)
    ensures var s := Loc(v, ino, v[ino], Data(offset / SECTOR_SIZE));
            && s < |v|
            && var v' := v[s := Splice(v[s], offset % SECTOR_SIZE, bytes)];
            && OthersSame(v, v', owner, inodes, ino)
            && FileValid(v', owner, ino) && v'[ino] == v[ino]
            && Content(v', ino) == Splice(Content(v, ino), offset, bytes)
  {
    var s := Loc(v, ino, v[ino], Data(offset / SECTOR_SIZE));
    OwnChunk(v, owner, ino, offset, bytes);
    var v' := v[s := Splice(v[s], offset % SECTOR_SIZE, bytes)];
    forall other | other in inodes && other != ino
      ensures FileValid(v', owner, other) && Content(v', other) == Content(v, other) && v'[other] == v[other]
    {
      OthersKept(v, owner, v', owner, ino, other);
    }
  }

  /** The part of that which concerns the file itself. */
  lemma OwnChunk(v: seq<Sector>, owner: Owners, ino: nat, offset: nat, bytes: seq<byte>)
    requires FileValid(v, owner, ino)
    requires 0 < |bytes| && offset % SECTOR_SIZE + |bytes| <= SECTOR_SIZE && offset + |bytes| <= Length(v, ino)
    ensures var s := Loc(v, ino, v[ino], Data(offset / SECTOR_SIZE));
            && s < |v| && s in owner && owner[s] == (ino, Data(offset / SECTOR_SIZE))
            && var v' := v[s := Splice(v[s], offset % SECTOR_SIZE, bytes)];
            && FileValid(v', owner, ino) && v'[ino] == v[ino]
            && Content(v', ino) == Splice(Content(v, ino), offset, bytes)
  {
    var k, n := offset / SECTOR_SIZE, BytesToSectors(Length(v, ino));
    PathInBounds(v, owner, ino, k);
    assert Data(k) in Slots(n, n);
    var s := Loc(v, ino, v[ino], Data(k));
    var v' := v[s := Splice(v[s], offset % SECTOR_SIZE, bytes)];
    DataSectorWritten(v, owner, v', ino, k);
    hide Tree, BytesToSectors, Loc;
    forall p | 0 <= p < Length(v, ino) ensures ByteAt(v', ino, v[ino], p) == Splice(Content(v, ino), offset, bytes)[p] {
      ChunkByte(v, owner, v', ino, offset, bytes, p);
    }
    assert Content(v', ino) == Splice(Content(v, ino), offset, bytes);
  }

  lemma ChunkByte(v: seq<Sector>, owner: Owners, v': seq<Sector>, ino: nat, offset: nat, bytes: seq<byte>, p: nat)
    requires FileValid(v, owner, ino) && p < Length(v, ino)
             && Data(offset / SECTOR_SIZE) in Slots(BytesToSectors(Length(v, ino)), BytesToSectors(Length(v, ino)))
    requires 0 < |bytes| && offset % SECTOR_SIZE + |bytes| <= SECTOR_SIZE && offset + |bytes| <= Length(v, ino)
    requires var s := Loc(v, ino, v[ino], Data(offset / SECTOR_SIZE));
             s < |v| && v' == v[s := Splice(v[s], offset % SECTOR_SIZE, bytes)]
    requires var n := BytesToSectors(Length(v, ino)); SameLocs(v, v', ino, v[ino], v[ino], Slots(n, n))
    ensures ByteAt(v', ino, v[ino], p) == Splice(Content(v, ino), offset, bytes)[p]
  {
    hide Tree, BytesToSectors, Loc;
    var n, k := BytesToSectors(Length(v, ino)), offset / SECTOR_SIZE;
    ByteInUse(Length(v, ino), p);
    WrittenByte(offset, |bytes|, p);
    assert Loc(v', ino, v[ino], Data(p / SECTOR_SIZE)) == Loc(v, ino, v[ino], Data(p / SECTOR_SIZE));
    if p / SECTOR_SIZE != k {
      SectorsDistinct(v, owner, ino, v[ino], Slots(n, n), Data(p / SECTOR_SIZE), ino, v[ino], Slots(n, n), Data(k));
    }
  }

  /** A change to the contents of a data sector moves no sector of its file. */
  lemma DataSectorWritten(v: seq<Sector>, owner: Owners, v': seq<Sector>, ino: nat, k: nat)
    requires FileValid(v, owner, ino) && k < BytesToSectors(Length(v, ino)) && |v'| == |v|
    requires forall s :: 0 <= s < |v| && s != Loc(v, ino, v[ino], Data(k)) ==> v'[s] == v[s]
    ensures FileValid(v', owner, ino) && v'[ino] == v[ino]
    ensures var n := BytesToSectors(Length(v, ino)); SameLocs(v, v', ino, v[ino], v[ino], Slots(n, n))
  {
    var n := BytesToSectors(Length(v, ino));
    var used := Slots(n, n);
    assert Data(k) in used && Header in used && Loc(v, ino, v[ino], Header) == ino;
    SlotsClosed(n, n);
    TreeFrame(v, owner, v', owner, ino, v[ino], used);
  }

  lemma WrittenByte(offset: nat, size: nat, p: nat)
    requires offset % SECTOR_SIZE + size <= SECTOR_SIZE
    ensures offset <= p < offset + size <==>
              p / SECTOR_SIZE == offset / SECTOR_SIZE
              && offset % SECTOR_SIZE <= p % SECTOR_SIZE < offset % SECTOR_SIZE + size
    ensures p / SECTOR_SIZE == offset / SECTOR_SIZE ==> p - offset == p % SECTOR_SIZE - offset % SECTOR_SIZE
  {
  }

  /** What a write of `data` at `offset` makes of a file: the bytes in the range are the data, old bytes
      outside it are kept, and the file is as long as it needs to be.  Bytes between the old end and
      `offset` are whatever the new sectors hold. */
  ghost predicate Written(c: seq<byte>, c': seq<byte>, offset: nat, data: seq<byte>) {
    && |c'| == |c| + Extension(|c|, offset + |data|)
    && c'[offset..offset + |data|] == data
    && forall p :: 0 <= p < |c| && !(offset <= p < offset + |data|) ==> c'[p] == c[p]
  }

  function Extension(length: nat, end: nat): nat {
    if length < end then end - length else 0
  }

  lemma OthersTrans(v: seq<Sector>, v1: seq<Sector>, o1: Owners, v2: seq<Sector>, o2: Owners, inodes: set<nat>,
                    ino: nat)
    requires OthersSame(v, v1, o1, inodes, ino) && OthersSame(v1, v2, o2, inodes, ino)
    ensures OthersSame(v, v2, o2, inodes, ino)
  {
  }

  lemma OthersRefl(v: seq<Sector>, owner: Owners, inodes: set<nat>, ino: nat)
    requires FilesValid(v, owner, inodes)
    ensures OthersSame(v, v, owner, inodes, ino)
  {
  }

  lemma AllValid(v: seq<Sector>, v': seq<Sector>, owner: Owners, inodes: set<nat>, ino: nat)
    requires OthersSame(v, v', owner, inodes, ino) && FileValid(v', owner, ino)
    ensures FilesValid(v', owner, inodes)
  {
  }

  /** Splicing in the next chunk of the data. */
  lemma SpliceOn(c: seq<byte>, offset: nat, data: seq<byte>, done: nat, chunk: nat)
    requires done + chunk <= |data| && offset + done + chunk <= |c|
    ensures Splice(Splice(c, offset, data[..done]), offset + done, data[done..done + chunk])
         == Splice(c, offset, data[..done + chunk])
  {
  }

  /** A file that first grew, keeping its old bytes, and then had `data` spliced in, has been written. */
  lemma WrittenBySplice(c: seq<byte>, c1: seq<byte>, offset: nat, data: seq<byte>)
    requires |c1| == |c| + Extension(|c|, offset + |data|) && c1[..|c|] == c
    ensures Written(c, Splice(c1, offset, data), offset, data)
  {
    var c' := Splice(c1, offset, data);
    assert forall p :: 0 <= p < |c| ==> c1[p] == c1[..|c|][p];
    assert c'[offset..offset + |data|] == data;
  }

  /** Reading back what was written, and reading old bytes the write did not cover. */
  lemma ReadBack(c: seq<byte>, c': seq<byte>, offset: nat, data: seq<byte>, at: nat, size: nat)
    requires Written(c, c', offset, data)
    ensures ReadRange(c', offset, |data|) == data
    ensures at + size <= |c| && (at + size <= offset || offset + |data| <= at) ==>
              ReadRange(c', at, size) == ReadRange(c, at, size)
  {
    if at + size <= |c| && (at + size <= offset || offset + |data| <= at) && size > 0 {
      assert forall p :: at <= p < at + size ==> c'[p] == c[p];
      assert c'[at..at + size] == c[at..at + size];
    }
  }

  /** A fresh header makes an empty file of a sector nobody owns and disturbs no other file. */
  lemma FreshFile(v: seq<Sector>, owner: Owners, inodes: set<nat>, ino: nat, h: Sector)
    requires FilesValid(v, owner, inodes) && ino < |v| && ino !in owner
    requires WordAt(h, LENGTH_OFS) == 0
    ensures var v', owner' := v[ino := h], owner[ino := (ino, Header)];
            && ino !in inodes
            && OthersSame(v, v', owner', inodes, ino)
            && FileValid(v', owner', ino) && Content(v', ino) == []
  {
    var v', owner' := v[ino := h], owner[ino := (ino, Header)];
    if ino in inodes {
      HeaderOwned(v, owner, ino);
    }
    forall other | other in inodes && other != ino
      ensures FileValid(v', owner', other) && Content(v', other) == Content(v, other) && v'[other] == v[other]
    {
      OthersKept(v, owner, v', owner', ino, other);
    }
    forall u | u in Slots(0, 0) ensures u == Header {
    }
    assert Loc(v', ino, h, Header) == ino;
  }

  /** Only data sectors of file `ino` have been added to the queue `q`. */
  ghost predicate QueuedAhead(v: seq<Sector>, ino: nat, q: seq<nat>, q': seq<nat>)
    requires ino < |v|
  {
    q <= q' && forall i :: |q| <= i < |q'| ==> IsDataSector(v, ino, q'[i])
  }

  ghost predicate IsDataSector(v: seq<Sector>, ino: nat, s: nat)
    requires ino < |v|
  {
    exists p: nat :: p < Length(v, ino) && s == Loc(v, ino, v[ino], Data(p / SECTOR_SIZE))
  }

  lemma NoneQueued(v: seq<Sector>, ino: nat, q: seq<nat>)
    requires ino < |v|
    ensures QueuedAhead(v, ino, q, q)
  {
  }

  lemma QueuedMore(v: seq<Sector>, ino: nat, q: seq<nat>, q': seq<nat>, q'': seq<nat>)
    requires ino < |v| && QueuedAhead(v, ino, q, q') && QueuedAhead(v, ino, q', q'')
    ensures QueuedAhead(v, ino, q, q'')
  {
    hide IsDataSector;
  }

  // ----- The file system -----

  class FileSystem {
    const cache: SectorCache
    const freeMap: FreeMap
    /** Sectors waiting to be read ahead of time. */
    var readAhead: seq<nat>
    /** The sectors that hold inodes. */
    ghost var inodes: set<nat>
    ghost var owner: Owners

    /** A disk about to be formatted: no files yet, two sectors reserved for the free map and the root directory. */
    constructor (contents: seq<Sector>)
      requires FREE_MAP_SECTOR < |contents| && ROOT_DIR_SECTOR < |contents| <= WORD_LIMIT
      ensures Valid() && inodes == {} && owner == map[] && cache.View() == contents
      ensures fresh(cache) && fresh(freeMap.used.bits)
      ensures freeMap.Contents() == seq(|contents|, _ => false)[FREE_MAP_SECTOR := true][ROOT_DIR_SECTOR := true]
    {
      cache := new SectorCache(contents);
      freeMap := new FreeMap(|contents|, FREE_MAP_SECTOR, ROOT_DIR_SECTOR);
      readAhead := [];
      inodes, owner := {}, map[];
    }

    /** The cache and the free map describe one disk. */
    ghost predicate Stored()
      reads this, cache, freeMap.used.bits
    {
      && cache.Valid() && freeMap.Valid()
      && freeMap.used.bitCnt == |cache.disk| <= WORD_LIMIT
    }

    ghost predicate Valid()
      reads this, cache, freeMap.used.bits
    {
      && Stored()
      && OwnersUsed(owner, freeMap.Contents())
      && FilesValid(cache.View(), owner, inodes)
    }

    /** Allocates a sector for an index block and fills it with arbitrary bytes. */
    method FreshIndexBlock(ino: nat, ghost h: Sector, junk: Sector, ghost used: iset<Slot>) returns (a: Option<nat>)
      requires Stored() && Closed(used) && Growing(cache.View(), owner, freeMap.Contents(), ino, h, used)
      modifies cache, freeMap.used.bits
      ensures Stored() && TookOne(old(freeMap.Contents()), freeMap.Contents(), a)
      ensures Growing(old(cache.View()), owner, freeMap.Contents(), ino, h, used)
      ensures Growing(cache.View(), owner, freeMap.Contents(), ino, h, used)
      ensures SameLocs(old(cache.View()), cache.View(), ino, h, h, used) && |cache.disk| == |old(cache.disk)|
      ensures forall s :: 0 <= s < |cache.disk| && a != Some(s) ==> cache.View()[s] == old(cache.View())[s]
      ensures a.None? ==> cache.View() == old(cache.View())
      ensures a.Some? ==> a.value < |cache.disk| && a.value !in owner && freeMap.Contents()[a.value]
    {
      a := freeMap.AllocateOne();
      if a.Some? {
        ghost var v := cache.View();
        TakeSector(v, owner, old(freeMap.Contents()), ino, h, used, a.value);
        cache.Write(a.value, 0, junk);
        FreshStep(v, owner, freeMap.Contents(), ino, h, used, a.value, cache.View());
      }
    }

    /** Allocates an index block whose pointer lives in the header. */
    method NewHeaderBlock(ino: nat, h: Sector, junk: Sector, ghost used: iset<Slot>, u: Slot)
      returns (ok: bool, h': Sector)
      requires Stored() && Closed(used) && Growing(cache.View(), owner, freeMap.Contents(), ino, h, used)
      requires (u.Indirect? || u.Doubly?) && u !in used
      modifies this`owner, cache, freeMap.used.bits
      ensures Stored() && OwnersUsed(owner, freeMap.Contents())
      ensures GrowStep(old(cache.View()), old(owner), h, cache.View(), owner, h', ino, used)
      ensures ok <==> CountFree(old(freeMap.Contents())) > 0
      ensures ok ==> Growing(cache.View(), owner, freeMap.Contents(), ino, h', used + iset{u})
      ensures ok ==> CountFree(freeMap.Contents()) == CountFree(old(freeMap.Contents())) - 1
      ensures ok ==> InOrder(old(freeMap.Contents()), freeMap.Contents())
      ensures !ok ==> CountFree(freeMap.Contents()) == 0
    {
      var a := FreshIndexBlock(ino, h, junk, used);
      if a.None? {
        return false, h;
      }
      var t := a.value;
      h' := Splice(h, CellOfs(u), WordBytes(t));
      LinkInHeader(old(cache.View()), owner, freeMap.Contents(), ino, h, used, u, t, cache.View(), true);
      owner := owner[t := (ino, u)];
      ok := true;
    }

    /** Stores pointer `s` at offset `ofs` of the index block in sector `t`, which is the cell of slot `u`. */
    method StorePointer(ino: nat, ghost h: Sector, ghost used: iset<Slot>, ghost u: Slot,
                        t: nat, ofs: nat, s: nat, ghost backed: bool)
      requires Stored() && Closed(used) && Growing(cache.View(), owner, freeMap.Contents(), ino, h, used)
      requires Bounded(u) && !u.Header? && !Parent(u).Header? && Parent(u) in used && u !in used
      requires t == Loc(cache.View(), ino, h, Parent(u)) && ofs == CellOfs(u)
      requires s < WORD_LIMIT && (backed ==> s < |cache.disk| && s !in owner && freeMap.Contents()[s])
      modifies this`owner, cache
      ensures Stored() && (backed ==> owner == old(owner)[s := (ino, u)])
      ensures backed ==> Growing(cache.View(), owner, freeMap.Contents(), ino, h, used + iset{u})
      ensures backed ==> s == Loc(cache.View(), ino, h, u)
      ensures !backed ==> Growing(cache.View(), owner, freeMap.Contents(), ino, h, used)
      ensures GrowStep(old(cache.View()), old(owner), h, cache.View(), owner, h, ino, used)
    {
      ghost var v := cache.View();
      LinkInBlock(v, owner, freeMap.Contents(), ino, h, used, u, s, backed);
      hide Growing, GrowStep, Loc, Bounded, Closed, cache.Valid, Tree, SameLocs, Frame, InOrder, IsNth;
      cache.Write(t, ofs, WordBytes(s));
      assert cache.View() == v[t := Splice(v[t], CellOfs(u), WordBytes(s))];
      if backed {
        owner := owner[s := (ino, u)];
      }
    }

    /** Adds data sector `curr` to the direct pointers. */
    method AppendDirect(ino: nat, h: Sector, curr: nat, stale: nat, m: nat)
      returns (h': Sector, alloc: nat, m': nat)
      requires m <= curr < DIRECT_CNT && stale < WORD_LIMIT
      requires Stored() && Growing(cache.View(), owner, freeMap.Contents(), ino, h, Slots(curr, m))
      requires m < curr ==> CountFree(freeMap.Contents()) == 0
      modifies this`owner, freeMap.used.bits
      ensures Stored() && alloc < WORD_LIMIT
      ensures Appended(old(cache.View()), old(owner), old(freeMap.Contents()), h,
                       cache.View(), owner, freeMap.Contents(), h', ino, curr, m, m', true)
    {
      var a := freeMap.AllocateOne();
      alloc := if a.Some? then a.value else stale;
      h' := Splice(h, DIRECT_OFS + 4 * curr, WordBytes(alloc));
      m' := if a.Some? then curr + 1 else m;
      if a.Some? {
        owner := owner[alloc := (ino, Data(curr))];
      }
      AppendedDirect(cache.View(), old(owner), old(freeMap.Contents()), h, owner, freeMap.Contents(), h',
                     ino, curr, m, m', a, alloc);
    }

    /** Makes sure the indirect block exists. */
    method IndexIndirect(ino: nat, h: Sector, curr: nat, junk: Sector, ghost m: nat)
      returns (ok: bool, h': Sector)
      requires m <= curr && DIRECT_CNT <= curr < DIRECT_CNT + INDIRECT_CNT
      requires Stored() && Growing(cache.View(), owner, freeMap.Contents(), ino, h, Slots(curr, m))
      modifies this`owner, cache, freeMap.used.bits
      ensures Stored() && OwnersUsed(owner, freeMap.Contents())
      ensures GrowStep(old(cache.View()), old(owner), h, cache.View(), owner, h', ino, Slots(curr, m))
      ensures ok <==> CountFree(old(freeMap.Contents())) >= TotalSectors(curr + 1) - TotalSectors(curr) - 1
      ensures !ok ==> CountFree(freeMap.Contents()) == 0
      ensures ok ==> Indexed(old(cache.View()), old(owner), old(freeMap.Contents()), h,
                             cache.View(), owner, freeMap.Contents(), h', ino, curr, m)
    {
      SlotsGrow(curr, m);
      SlotsClosed(curr, m);
      TotalGrow(curr);
      ok, h' := true, h;
      if curr == DIRECT_CNT {
        ok, h' := NewHeaderBlock(ino, h, junk, Slots(curr, m), Indirect);
      }
    }

    /** Allocates the indirect block number `j` below the doubly indirect block. */
    method NewDoublyBlock(ino: nat, h: Sector, j: nat, junk: Sector, ghost used: iset<Slot>)
      returns (ok: bool)
      requires Stored() && Closed(used) && Growing(cache.View(), owner, freeMap.Contents(), ino, h, used)
      requires j < INDIRECT_CNT && Doubly in used && DoublyIndirect(j) !in used
      modifies this`owner, cache, freeMap.used.bits
      ensures Stored() && OwnersUsed(owner, freeMap.Contents())
      ensures GrowStep(old(cache.View()), old(owner), h, cache.View(), owner, h, ino, used)
      ensures ok <==> CountFree(old(freeMap.Contents())) > 0
      ensures ok ==> Growing(cache.View(), owner, freeMap.Contents(), ino, h, used + iset{DoublyIndirect(j)})
      ensures ok ==> CountFree(freeMap.Contents()) == CountFree(old(freeMap.Contents())) - 1
      ensures ok ==> InOrder(old(freeMap.Contents()), freeMap.Contents())
      ensures !ok ==> CountFree(freeMap.Contents()) == 0
    {
      hide cache.Valid, GrowStep, Tree, InOrder, IsNth, SameLocs;
      GrowStepRefl(cache.View(), owner, h, ino, used);
      var a := FreshIndexBlock(ino, h, junk, used);
      if a.None? {
        return false;
      }
      ghost var v1 := cache.View();
      IndexLocs(v1, ino, h, j);
      StorePointer(ino, h, used, DoublyIndirect(j), WordAt(h, DOUBLY_OFS), j * 4, a.value, true);
      FreshThenLinked(old(cache.View()), old(owner), v1, cache.View(), owner, ino, h, used, DoublyIndirect(j), a.value);
      ok := true;
    }

    /** Makes sure the doubly indirect block exists. */
    method IndexDoublyRoot(ino: nat, h: Sector, curr: nat, junk: Sector, ghost m: nat)
      returns (ok: bool, h': Sector, ghost used: iset<Slot>)
      requires m <= curr && DIRECT_CNT + INDIRECT_CNT <= curr < MAX_SECTORS
      requires Stored() && Growing(cache.View(), owner, freeMap.Contents(), ino, h, Slots(curr, m))
      modifies this`owner, cache, freeMap.used.bits
      ensures Stored() && OwnersUsed(owner, freeMap.Contents())
      ensures GrowStep(old(cache.View()), old(owner), h, cache.View(), owner, h', ino, Slots(curr, m))
      ensures used == if curr == DIRECT_CNT + INDIRECT_CNT then Slots(curr, m) + iset{Doubly} else Slots(curr, m)
      ensures ok ==> Closed(used) && Growing(cache.View(), owner, freeMap.Contents(), ino, h', used)
      ensures ok <==> curr > DIRECT_CNT + INDIRECT_CNT || CountFree(old(freeMap.Contents())) > 0
      ensures var cost := if curr == DIRECT_CNT + INDIRECT_CNT then 1 else 0;
              ok ==> CountFree(freeMap.Contents()) == CountFree(old(freeMap.Contents())) - cost
      ensures ok ==> InOrder(old(freeMap.Contents()), freeMap.Contents())
      ensures !ok ==> CountFree(freeMap.Contents()) == 0
    {
      SlotsClosed(curr, m);
      ok, h', used := true, h, Slots(curr, m);
      if curr == DIRECT_CNT + INDIRECT_CNT {
        ok, h' := NewHeaderBlock(ino, h, junk, used, Doubly);
        ClosedAdd(used, Doubly);
        used := used + iset{Doubly};
      }
    }

    /** Makes sure the doubly indirect block and the indirect block below it exist. */
    method IndexDoubly(ino: nat, h: Sector, curr: nat, junk: Sector, ghost m: nat)
      returns (ok: bool, h': Sector)
      requires m <= curr && DIRECT_CNT + INDIRECT_CNT <= curr < MAX_SECTORS
      requires Stored() && Growing(cache.View(), owner, freeMap.Contents(), ino, h, Slots(curr, m))
      modifies this`owner, cache, freeMap.used.bits
      ensures Stored() && OwnersUsed(owner, freeMap.Contents())
      ensures GrowStep(old(cache.View()), old(owner), h, cache.View(), owner, h', ino, Slots(curr, m))
      ensures ok <==> CountFree(old(freeMap.Contents())) >= TotalSectors(curr + 1) - TotalSectors(curr) - 1
      ensures !ok ==> CountFree(freeMap.Contents()) == 0
      ensures ok ==> Indexed(old(cache.View()), old(owner), old(freeMap.Contents()), h,
                             cache.View(), owner, freeMap.Contents(), h', ino, curr, m)
    {
      hide cache.Valid, GrowStep, Growing, Indexed, InOrder;
      var doubleCnt := curr - DIRECT_CNT - INDIRECT_CNT;
      ghost var used;
      ok, h', used := IndexDoublyRoot(ino, h, curr, junk, m);
      TotalGrow(curr);
      DoublySlots(curr, m, used);
      if ok {
        ghost var v1, o1, map1 := cache.View(), owner, freeMap.Contents();
        ghost var free1 := CountFree(map1);
        SameInOrder(map1);
        GrowStepRefl(v1, o1, h', ino, used);
        if doubleCnt % INDIRECT_CNT == 0 {
          ok := NewDoublyBlock(ino, h', doubleCnt / INDIRECT_CNT, junk, used);
        }
        GrowStepTrans(old(cache.View()), old(owner), h, v1, o1, h', cache.View(), owner, h', ino, Slots(curr, m), used);
        if ok {
          InOrderTrans(old(freeMap.Contents()), map1, freeMap.Contents());
          IndexedDoubly(old(cache.View()), old(owner), old(freeMap.Contents()), h, v1, o1, h',
                        cache.View(), owner, freeMap.Contents(), ino, curr, m, used, free1);
        }
      }
    }

    /** Allocates data sector `curr` and stores its number in the index block it belongs in. */
    method PlaceData(ino: nat, h: Sector, curr: nat, stale: nat, ghost m: nat)
      returns (alloc: nat, a: Option<nat>)
      requires DIRECT_CNT <= curr < MAX_SECTORS && m <= curr && stale < WORD_LIMIT
      requires Stored() && Growing(cache.View(), owner, freeMap.Contents(), ino, h, Slots(curr + 1, m))
      modifies this`owner, cache, freeMap.used.bits
      ensures Stored() && alloc < WORD_LIMIT
      ensures TookOne(old(freeMap.Contents()), freeMap.Contents(), a)
      ensures GrowStep(old(cache.View()), old(owner), h, cache.View(), owner, h, ino, Slots(curr + 1, m))
      ensures a.Some? ==>
              Growing(cache.View(), owner, freeMap.Contents(), ino, h, Slots(curr + 1, m) + iset{Data(curr)})
      ensures a.Some? ==> a.value == Loc(cache.View(), ino, h, Data(curr))
      ensures a.None? ==> Growing(cache.View(), owner, freeMap.Contents(), ino, h, Slots(curr + 1, m))
    {
      hide cache.Valid, GrowStep, Tree;
      hide InOrder, IsNth;
      alloc := stale;
      a := freeMap.AllocateOne();
      if a.Some? {
        alloc := a.value;
        TakeSector(cache.View(), owner, old(freeMap.Contents()), ino, h, Slots(curr + 1, m), alloc);
      }
      SlotsClosed(curr + 1, m);
      var t, ofs := FindCell(ino, h, curr, m);
      StorePointer(ino, h, Slots(curr + 1, m), Data(curr), t, ofs, alloc, a.Some?);
    }

    /** The index block and offset at which the number of data sector `curr` is stored. */
    method FindCell(ino: nat, h: Sector, curr: nat, ghost m: nat) returns (t: nat, ofs: nat)
      requires DIRECT_CNT <= curr < MAX_SECTORS && m <= curr + 1
      requires Stored() && Tree(cache.View(), owner, ino, h, Slots(curr + 1, m))
      modifies cache
      ensures Stored() && cache.View() == old(cache.View())
      ensures t == Loc(cache.View(), ino, h, Parent(Data(curr))) && ofs == CellOfs(Data(curr))
    {
      if curr < DIRECT_CNT + INDIRECT_CNT {
        IndexLocs(cache.View(), ino, h, 0);
        t, ofs := WordAt(h, INDIRECT_OFS), (curr - DIRECT_CNT) * 4;
      } else {
        var doubleCnt := curr - DIRECT_CNT - INDIRECT_CNT;
        assert Doubly in Slots(curr + 1, m);
        IndexLocs(cache.View(), ino, h, doubleCnt / INDIRECT_CNT);
        var bytes := cache.Read(WordAt(h, DOUBLY_OFS), doubleCnt / INDIRECT_CNT * 4, 4);
        t, ofs := BytesWord(bytes), doubleCnt % INDIRECT_CNT * 4;
      }
    }

    /** Adds data sector `curr` below an index block, creating index blocks first if need be. */
    method AppendBelow(ino: nat, h: Sector, curr: nat, stale: nat, junk: Sector, m: nat)
      returns (ok: bool, h': Sector, alloc: nat, m': nat)
      requires m <= curr && DIRECT_CNT <= curr < MAX_SECTORS && stale < WORD_LIMIT
      requires Stored() && Growing(cache.View(), owner, freeMap.Contents(), ino, h, Slots(curr, m))
      requires m < curr ==> CountFree(freeMap.Contents()) == 0
      modifies this`owner, cache, freeMap.used.bits
      ensures Stored() && alloc < WORD_LIMIT
      ensures Appended(old(cache.View()), old(owner), old(freeMap.Contents()), h,
                       cache.View(), owner, freeMap.Contents(), h', ino, curr, m, m', ok)
    {
      alloc, m' := stale, m;
      if curr < DIRECT_CNT + INDIRECT_CNT {
        ok, h' := IndexIndirect(ino, h, curr, junk, m);
      } else {
        ok, h' := IndexDoubly(ino, h, curr, junk, m);
      }
      if ok {
        ghost var v1, o1, map1 := cache.View(), owner, freeMap.Contents();
        var a;
        alloc, a := PlaceData(ino, h', curr, stale, m);
        m' := if a.Some? then curr + 1 else m;
        AppendedBelow(old(cache.View()), old(owner), old(freeMap.Contents()), h, v1, o1, map1, h',
                      cache.View(), owner, freeMap.Contents(), ino, curr, m, m', a);
      }
    }

    /** The word at offset `ofs` of sector `sec`. */
    method ReadWord(sec: nat, ofs: nat) returns (w: nat)
      requires Stored() && sec < |cache.disk| && ofs + 4 <= SECTOR_SIZE
      modifies cache
      ensures Stored() && cache.View() == old(cache.View())
      ensures w == WordAt(cache.View()[sec], ofs)
    {
      var bytes := cache.Read(sec, ofs, 4);
      w := BytesWord(bytes);
    }

    /** The header of inode `ino`. */
    method ReadHeader(ino: nat) returns (h: Sector)
      requires Stored() && ino < |cache.disk|
      modifies cache
      ensures Stored() && cache.View() == old(cache.View())
      ensures h == cache.View()[ino]
    {
      h := cache.Read(ino, 0, SECTOR_SIZE);
    }

    method InodeLength(ino: nat) returns (length: nat)
      requires Stored() && ino < |cache.disk|
      modifies cache
      ensures Stored() && cache.View() == old(cache.View())
      ensures length == Length(cache.View(), ino)
    {
      length := ReadWord(ino, LENGTH_OFS);
    }

    /** The sector that holds byte `pos` of file `ino`, if the file is that long. */
    method ByteToSector(ino: nat, pos: nat) returns (r: Option<nat>)
      requires Stored() && FileValid(cache.View(), owner, ino)
      modifies cache
      ensures Stored() && cache.View() == old(cache.View())
      ensures r == if pos < Length(cache.View(), ino)
                   then Some(Loc(cache.View(), ino, cache.View()[ino], Data(pos / SECTOR_SIZE))) else None
    {
      hide cache.Valid, FileValid, WordAt, Loc;
      ghost var v := cache.View();
      FileBounds(v, owner, ino);
      var length := InodeLength(ino);
      if pos >= length {
        return None;
      }
      var k := pos / SECTOR_SIZE;
      PathInBounds(v, owner, ino, k);
      DataLoc(v, ino, v[ino], k);
      var h := ReadHeader(ino);
      var s: nat;
      if k < DIRECT_CNT {
        s := WordAt(h, DIRECT_OFS + 4 * k);
      } else if k < DIRECT_CNT + INDIRECT_CNT {
        s := ReadWord(WordAt(h, INDIRECT_OFS), 4 * (k - DIRECT_CNT));
      } else {
        var i := k - DIRECT_CNT - INDIRECT_CNT;
        var t := ReadWord(WordAt(h, DOUBLY_OFS), 4 * (i / INDIRECT_CNT));
        s := ReadWord(t, 4 * (i % INDIRECT_CNT));
      }
      r := Some(s);
    }

    /** The part of a read or write of `size` bytes at `offset` that lies in one sector and inside the file. */
    function ChunkSize(size: int, offset: nat, length: nat): int {
      var inodeLeft, sectorLeft := length - offset, SECTOR_SIZE - offset % SECTOR_SIZE;
      var minLeft := if inodeLeft < sectorLeft then inodeLeft else sectorLeft;
      if size < minLeft then size else minLeft
    }

    /** After a read: queues the sector 512 bytes further on unless it is cached already. */
    method ReadAhead(ino: nat, offset: nat)
      requires Stored() && FileValid(cache.View(), owner, ino)
      modifies this`readAhead, cache
      ensures Stored() && cache.View() == old(cache.View())
      ensures readAhead == old(readAhead) ||
              (offset + SECTOR_SIZE < Length(cache.View(), ino)
               && readAhead == old(readAhead) +
                               [Loc(cache.View(), ino, cache.View()[ino], Data((offset + SECTOR_SIZE) / SECTOR_SIZE))])
    {
      var ahead := ByteToSector(ino, offset + SECTOR_SIZE);
      if ahead.Some? {
        var found := cache.FindCache(ahead.value);
        if !found {
          readAhead := readAhead + [ahead.value];
        }
      }
    }

    /** One round of a read: the bytes at `pos` that lie in one sector, at most `left` of them. */
    method ReadChunk(ino: nat, left: nat, pos: nat) returns (chunk: int, bytes: seq<byte>)
      requires Stored() && FileValid(cache.View(), owner, ino) && left > 0
      modifies this`readAhead, cache
      ensures Stored() && cache.View() == old(cache.View())
      ensures chunk == ChunkSize(left, pos, Length(cache.View(), ino))
      ensures if chunk > 0 then pos + chunk <= Length(cache.View(), ino)
                                && bytes == Content(cache.View(), ino)[pos..pos + chunk]
              else bytes == []
      ensures QueuedAhead(cache.View(), ino, old(readAhead), readAhead)
    {
      hide cache.Valid, FileValid;
      ghost var v := cache.View();
      FileBounds(v, owner, ino);
      var sector := ByteToSector(ino, pos);
      var length := InodeLength(ino);
      chunk, bytes := ChunkSize(left, pos, length), [];
      if chunk > 0 {
        ChunkBytes(v, owner, ino, pos, chunk);
        bytes := cache.Read(sector.value, pos % SECTOR_SIZE, chunk);
        var found := cache.FindCache(sector.value);
        ReadAhead(ino, pos);
      }
    }

    /** Reads up to `size` bytes at `offset`.  For a read that starts beyond the end of the file the chunk is
        negative and taken for a huge unsigned one, so that the round goes on with sector -1, and an assertion of
        the disk driver stops the kernel.  That outcome is `None`. */
    method ReadAt(ino: nat, size: int, offset: nat) returns (r: Option<seq<byte>>)
      requires Valid() && ino in inodes
      modifies this`readAhead, cache
      ensures Valid() && cache.View() == old(cache.View())
      ensures r.Some? <==> size <= 0 || offset <= Length(cache.View(), ino)
      ensures r.Some? ==> r.value == ReadRange(Content(cache.View(), ino), offset, size)
      ensures QueuedAhead(cache.View(), ino, old(readAhead), readAhead)
    {
      hide cache.Valid, FileValid, QueuedAhead;
      ghost var v := cache.View();
      FileBounds(v, owner, ino);
      var left, pos := size, offset;
      var data: seq<byte> := [];
      NoneQueued(v, ino, readAhead);
      while left > 0
        invariant Stored() && cache.View() == v
        invariant pos + left == offset + size && (left >= 0 || left == size)
        invariant pos == offset || offset <= pos <= Length(v, ino)
        invariant data == ReadRange(Content(v, ino), offset, pos - offset)
        invariant QueuedAhead(v, ino, old(readAhead), readAhead)
        decreases left
      {
        ghost var q := readAhead;
        var chunk, bytes := ReadChunk(ino, left, pos);
        QueuedMore(v, ino, old(readAhead), q, readAhead);
        if chunk == 0 {
          break;
        }
        if chunk < 0 {
          return None;
        }
        ReadOn(Content(v, ino), offset, pos, chunk);
        data := data + bytes;
        left := left - chunk;
        pos := pos + chunk;
      }
      return Some(data);
    }

    /** Adds data sector `curr`, wherever in the index it belongs. */
    method AppendOne(ino: nat, h: Sector, curr: nat, stale: nat, junk: Sector, m: nat)
      returns (ok: bool, h': Sector, alloc: nat, m': nat)
      requires m <= curr < MAX_SECTORS && stale < WORD_LIMIT
      requires Stored() && Growing(cache.View(), owner, freeMap.Contents(), ino, h, Slots(curr, m))
      requires m < curr ==> CountFree(freeMap.Contents()) == 0
      modifies this`owner, cache, freeMap.used.bits
      ensures Stored() && alloc < WORD_LIMIT
      ensures Appended(old(cache.View()), old(owner), old(freeMap.Contents()), h,
                       cache.View(), owner, freeMap.Contents(), h', ino, curr, m, m', ok)
    {
      if curr < DIRECT_CNT {
        ok := true;
        h', alloc, m' := AppendDirect(ino, h, curr, stale, m);
      } else {
        ok, h', alloc, m' := AppendBelow(ino, h, curr, stale, junk, m);
      }
    }

    /** The growth loop: from `n0` data sectors to `n0 + remain`. */
    method AppendAll(ino: nat, h0: Sector, n0: nat, count: nat, junk: Sector) returns (ok: bool, h: Sector, m: nat)
      requires n0 + count <= MAX_SECTORS && ino < |cache.disk| && h0 == cache.View()[ino]
      requires Stored() && Growing(cache.View(), owner, freeMap.Contents(), ino, h0, Slots(n0, n0))
      modifies this`owner, cache, freeMap.used.bits
      ensures Stored() && OwnersUsed(owner, freeMap.Contents())
      ensures GrowStep(old(cache.View()), old(owner), h0, cache.View(), owner, h, ino, Slots(n0, n0))
      ensures !ok ==> CountFree(old(freeMap.Contents())) < TotalSectors(n0 + count) - TotalSectors(n0)
                      && !RunsOut(CountFree(old(freeMap.Contents())), n0, n0 + count)
      ensures ok ==> Tree(cache.View(), owner, ino, h, Slots(n0 + count, m))
      ensures ok ==> Budget(CountFree(old(freeMap.Contents())), freeMap.Contents(), n0, n0 + count, n0 + count, m)
      ensures ok ==> Placed(old(freeMap.Contents()), cache.View(), ino, h, n0, m)
      ensures InOrder(old(freeMap.Contents()), freeMap.Contents()) && (!ok ==> CountFree(freeMap.Contents()) == 0)
    {
      hide cache.Valid, GrowStep, Tree, InOrder, IsNth, RunsOutAt, Appended;
      ghost var v0, o0, map0 := cache.View(), owner, freeMap.Contents();
      SameInOrder(map0);
      h, m := h0, n0;
      GrowStepRefl(v0, o0, h0, ino, Slots(n0, n0));
      var curr, remain := n0, count;
      var alloc: nat :| alloc < WORD_LIMIT;
      while remain > 0
        invariant Stored() && curr + remain == n0 + count && alloc < WORD_LIMIT
        invariant Expanding(v0, o0, map0, cache.View(), owner, freeMap.Contents(), h, ino, n0, n0 + count, curr, m)
      {
        ghost var v, o, map1, h1, m1 := cache.View(), owner, freeMap.Contents(), h, m;
        ok, h, alloc, m := AppendOne(ino, h, curr, alloc, junk, m);
        ExpandedOnce(v0, o0, map0, v, o, map1, h1, cache.View(), owner, freeMap.Contents(), h,
                     ino, n0, n0 + count, curr, m1, m, ok);
        if !ok {
          NoneLeftInOrder(map0, freeMap.Contents());
          return;
        }
        curr := curr + 1;
        remain := remain - 1;
      }
      if m < curr {
        NoneLeftInOrder(map0, freeMap.Contents());
      }
      ok := true;
    }

    /** Grows file `ino` by `extend` bytes.  Fails if an index block cannot be allocated.  The allocation of
        data sectors is not checked: `backed` counts the data sectors that have a sector of their own. */
    method Expand(ino: nat, extend: nat, junk: Sector) returns (ok: bool, backed: nat)
      requires Valid() && ino in inodes && Length(cache.View(), ino) + extend <= MAX_BYTES
      modifies this`owner, cache, freeMap.used.bits
      ensures Stored() && OwnersUsed(owner, freeMap.Contents())
      ensures Expanded(old(cache.View()), old(freeMap.Contents()), cache.View(), owner, inodes, ino, extend, ok, backed)
      ensures TookFirst(old(freeMap.Contents()), freeMap.Contents(),
                        Taken(old(freeMap.Contents()), Length(old(cache.View()), ino), extend))
    {
      hide cache.Valid, GrowStep, Tree, Expanded, FileValid, FilesValid, Budget, InOrder;
      hide TookFirst, Taken, TotalSectors, RunsOut, Placed, Slots, CountFree, WordBytes;
      ghost var v0 := cache.View();
      FileGrowing(v0, owner, freeMap.Contents(), inodes, ino);
      var h := ReadHeader(ino);
      var length := InodeLength(ino);
      var existSectors := BytesToSectors(length);
      var snip := existSectors * SECTOR_SIZE - length;
      var sectors := BytesToSectors(extend - snip);
      GrowthExact(length, extend);
      ok, h, backed := AppendAll(ino, h, existSectors, sectors, junk);
      ghost var v1, h1 := cache.View(), h;
      if ok {
        h := Splice(h, LENGTH_OFS, WordBytes(length + extend));
        SpliceWhole(cache.View()[ino], h);
        cache.Write(ino, 0, h);
      }
      ExpandedBy(v0, old(owner), old(freeMap.Contents()), v1, h1, cache.View(), owner, freeMap.Contents(),
                 inodes, ino, extend, ok, backed);
      SpentBy(old(freeMap.Contents()), freeMap.Contents(), length, extend, ok, backed);
    }

    /** One round of a write: as much of `data` as lies in the sector of `pos` and inside the file. */
    method WriteChunkAt(ino: nat, data: seq<byte>, pos: nat) returns (chunk: nat)
      requires Stored() && FilesValid(cache.View(), owner, inodes) && ino in inodes
      requires data != [] && pos < Length(cache.View(), ino)
      modifies cache
      ensures Stored() && 0 < chunk <= |data| && pos + chunk <= Length(cache.View(), ino)
      ensures OthersSame(old(cache.View()), cache.View(), owner, inodes, ino)
      ensures FileValid(cache.View(), owner, ino)
      ensures cache.View()[ino] == old(cache.View())[ino]
      ensures Content(cache.View(), ino) == Splice(Content(old(cache.View()), ino), pos, data[..chunk])
    {
      hide cache.Valid, FileValid, OthersSame;
      ghost var v := cache.View();
      FileBounds(v, owner, ino);
      var sector := ByteToSector(ino, pos);
      var length := InodeLength(ino);
      chunk := ChunkSize(|data|, pos, length);
      WriteChunk(v, owner, inodes, ino, pos, data[..chunk]);
      cache.Write(sector.value, pos % SECTOR_SIZE, data[..chunk]);
      ghost var v1 := cache.View();
      var found := cache.FindCache(sector.value);
    }

    /** The write loop, from within the file or its end: it writes what the file has room for. */
    method WriteAll(ino: nat, data: seq<byte>, offset: nat) returns (done: nat)
      requires Valid() && ino in inodes && offset <= Length(cache.View(), ino)
      modifies cache
      ensures Valid() && OthersSame(old(cache.View()), cache.View(), owner, inodes, ino)
      ensures done == Fitting(old(Length(cache.View(), ino)), offset, |data|)
      ensures Content(cache.View(), ino) == Splice(Content(old(cache.View()), ino), offset, data[..done])
      ensures cache.View()[ino] == old(cache.View())[ino]
    {
      hide cache.Valid, FileValid, OthersSame, OwnersUsed;
      ghost var v0 := cache.View();
      FileBounds(v0, owner, ino);
      ghost var c0 := Content(v0, ino);
      OthersRefl(v0, owner, inodes, ino);
      assert Splice(c0, offset, data[..0]) == c0;
      done := 0;
      while done < |data|
        invariant done <= |data| && Stored() && FilesValid(cache.View(), owner, inodes)
        invariant OthersSame(v0, cache.View(), owner, inodes, ino)
        invariant ino < |cache.disk| && offset + done <= |c0| && cache.View()[ino] == v0[ino]
        invariant Content(cache.View(), ino) == Splice(c0, offset, data[..done])
      {
        ghost var v := cache.View();
        var length := InodeLength(ino);
        if offset + done == length {
          break;
        }
        var chunk := WriteChunkAt(ino, data[done..], offset + done);
        OthersTrans(v0, v, owner, cache.View(), owner, inodes, ino);
        AllValid(v, cache.View(), owner, inodes, ino);
        FileBounds(cache.View(), owner, ino);
        assert data[done..][..chunk] == data[done..done + chunk];
        SpliceOn(c0, offset, data, done, chunk);
        done := done + chunk;
      }
    }

    /** Writes `data` at `offset`, first growing the file if it is too short.  When there are too few free sectors
        to grow it, the write goes on with the file as it is, or as the growth has left it. */
    method WriteAt(ino: nat, data: seq<byte>, offset: nat, denyWriteCnt: nat, junk: Sector) returns (r: WriteResult)
      requires Valid() && ino in inodes && offset + |data| <= MAX_BYTES
      modifies this`owner, cache, freeMap.used.bits
      ensures |cache.disk| == |old(cache.disk)| && ino < |cache.disk|
      ensures denyWriteCnt != 0 ==> r == Wrote(0) && Valid() && cache.View() == old(cache.View())
      ensures denyWriteCnt != 0 || offset + |data| <= Length(old(cache.View()), ino) ==>
                freeMap.Contents() == old(freeMap.Contents())
      ensures denyWriteCnt == 0 ==>
                var length := Length(old(cache.View()), ino);
                TookFirst(old(freeMap.Contents()), freeMap.Contents(),
                          Taken(old(freeMap.Contents()), length, Extension(length, offset + |data|)))
      ensures denyWriteCnt == 0 && r != Unbacked ==>
                && OthersSame(old(cache.View()), cache.View(), owner, inodes, ino)
                && SameFields(old(cache.View())[ino], cache.View()[ino])
      ensures denyWriteCnt == 0 ==>
                var v0 := old(cache.View());
                var extend := Extension(Length(v0, ino), offset + |data|);
                if EnoughFree(old(freeMap.Contents()), Length(v0, ino), extend)
                then r == Wrote(|data|) && Valid()
                     && Written(Content(v0, ino), Content(cache.View(), ino), offset, data)
                     && GapFilled(v0, old(freeMap.Contents()), ino, offset, Content(cache.View(), ino))
                else if HollowGrowth(old(freeMap.Contents()), Length(v0, ino), extend)
                then r == Unbacked
                else Valid() && r == WriteUngrown(Length(v0, ino), offset, |data|)
                     && Content(cache.View(), ino) == Overwritten(Content(v0, ino), offset, data)
    {
      hide cache.Valid, FileValid, OthersSame, OwnersUsed, EnoughFree, HollowGrowth, Written, GapFilled, GrownContent;
      hide TookFirst, Taken, SameFields;
      ghost var v0 := cache.View();
      FileBounds(v0, owner, ino);
      if denyWriteCnt != 0 {
        return Wrote(0);
      }
      var growth := GrowTo(ino, offset + |data|, junk);
      if growth.Hollow? {
        return Unbacked;
      }
      ghost var v1 := cache.View();
      FileBounds(v1, owner, ino);
      var length := InodeLength(ino);
      if offset > length {
        return if data == [] then Wrote(0) else Stopped;
      }
      var written := WriteAll(ino, data, offset);
      OthersTrans(v0, v1, owner, cache.View(), owner, inodes, ino);
      if growth.Grown? {
        assert data[..written] == data;
        WrittenBySplice(Content(v0, ino), Content(v1, ino), offset, data);
        GapKept(v0, old(freeMap.Contents()), v1, ino, offset, data);
      }
      r := Wrote(written);
    }

    /** Makes file `ino` at least `end` bytes long. */
    method GrowTo(ino: nat, end: nat, junk: Sector) returns (g: Growth)
      requires Valid() && ino in inodes && end <= MAX_BYTES
      modifies this`owner, cache, freeMap.used.bits
      ensures |cache.disk| == |old(cache.disk)| && ino < |cache.disk| && (!g.Hollow? ==> Valid())
      ensures OthersSame(old(cache.View()), cache.View(), owner, inodes, ino)
      ensures SameFields(old(cache.View())[ino], cache.View()[ino])
      ensures var length := Length(old(cache.View()), ino);
              && TookFirst(old(freeMap.Contents()), freeMap.Contents(),
                           Taken(old(freeMap.Contents()), length, Extension(length, end)))
              && (end <= length ==> freeMap.Contents() == old(freeMap.Contents()))
              && (g.Grown? <==> EnoughFree(old(freeMap.Contents()), length, Extension(length, end)))
              && (g.Hollow? <==> HollowGrowth(old(freeMap.Contents()), length, Extension(length, end)))
      ensures g.Grown? ==>
                var c, c' := Content(old(cache.View()), ino), Content(cache.View(), ino);
                && |c'| == |c| + Extension(|c|, end) && c'[..|c|] == c
                && GrownContent(old(cache.View()), old(freeMap.Contents()), cache.View(), ino)
      ensures g.Short? ==> Content(cache.View(), ino) == Content(old(cache.View()), ino)
      ensures !g.Grown? ==> Length(old(cache.View()), ino) < end
    {
      hide cache.Valid, FileValid, OthersSame, OwnersUsed, EnoughFree, HollowGrowth, BytesToSectors, GrownByte;
      hide TookFirst, Taken;
      ghost var v0 := cache.View();
      FileBounds(v0, owner, ino);
      var length := InodeLength(ino);
      OthersRefl(v0, owner, inodes, ino);
      NothingToGrow(freeMap.Contents(), length);
      HollowIsShort(freeMap.Contents(), length, Extension(length, end));
      if length >= end {
        return Grown;
      }
      var ok, backed := Expand(ino, end - length, junk);
      if ok && backed != BytesToSectors(end) {
        return Hollow;
      }
      AllValid(v0, cache.View(), owner, inodes, ino);
      g := if ok then Grown else Short;
    }

    /** Makes a file of `length` bytes out of sector `ino`, which the free map has given out.  If there are too few
        free sectors, the file stays empty, or it is left with an index that is not `sound`. */
    method Create(ino: nat, length: nat, isDir: bool, parent: nat, junk: Sector) returns (ok: bool, ghost sound: bool)
      requires Valid() && ino < |cache.disk| && ino !in owner && freeMap.Contents()[ino]
      requires length <= MAX_BYTES && parent < WORD_LIMIT
      modifies this`owner, this`inodes, cache, freeMap.used.bits
      ensures ino !in old(inodes) && inodes == old(inodes) + {ino} && ino < |cache.disk| == |old(cache.disk)|
      ensures OthersSame(old(cache.View()), cache.View(), owner, old(inodes), ino)
      ensures sound ==> Valid()
      ensures ok && sound <==> EnoughFree(old(freeMap.Contents()), 0, length)
      ensures !sound <==> HollowGrowth(old(freeMap.Contents()), 0, length)
      ensures !ok ==> sound
      ensures Length(cache.View(), ino) == if ok then length else 0
      ensures TookFirst(old(freeMap.Contents()), freeMap.Contents(), Taken(old(freeMap.Contents()), 0, length))
      ensures var h := cache.View()[ino];
              WordAt(h, 8) == 0x494e4f44 && WordAt(h, 16) == parent && (h[12] != 0 <==> isDir)
      ensures ok && sound ==> forall p :: 0 <= p < length ==>
                Content(cache.View(), ino)[p] == FreshByte(old(cache.View()), old(freeMap.Contents()), p)
    {
      hide cache.Valid, FileValid, OthersSame, EnoughFree, NewHeader, Content, WordAt, HollowGrowth, BytesToSectors;
      hide GrownByte, FreshByte, TookFirst, Taken;
      var h := NewHeader(isDir, parent);
      ghost var v0 := cache.View();
      SpliceWhole(v0[ino], h);
      FreshFile(v0, owner, inodes, ino, h);
      cache.Write(ino, 0, h);
      owner := owner[ino := (ino, Header)];
      ghost var v1 := cache.View();
      AllValid(v0, v1, owner, inodes, ino);
      inodes := inodes + {ino};
      var backed;
      ok, backed := Expand(ino, length, junk);
      sound := !ok || backed == BytesToSectors(length);
      HollowIsShort(old(freeMap.Contents()), 0, length);
      if sound {
        AllValid(v1, cache.View(), owner, inodes, ino);
      }
      FreshBytes(v0, old(freeMap.Contents()), ino, h, length);
      SameWords(h, cache.View()[ino]);
      OthersFewer(v1, cache.View(), owner, old(inodes), inodes, ino);
      OthersTrans(v0, v1, old(owner)[ino := (ino, Header)], cache.View(), owner, old(inodes), ino);
    }
  }

  /** How many of `size` bytes at `offset` lie in a file of `length` bytes. */
  function Fitting(length: nat, offset: nat, size: nat): nat {
    if offset + size <= length then size else if offset <= length then length - offset else 0
  }

  /** `Wrote`: the number of bytes written.  `Stopped`: the write starts beyond the end of a file that could not
      grow, and an assertion of the disk driver stops the kernel.  `Unbacked`: the growth was taken to be complete
      although some data sectors are not the file's own; where the bytes go then is not modelled. */
  datatype WriteResult = Wrote(count: nat) | Stopped | Unbacked

  /** How a file grew: as wanted, not at all for lack of an index block, or with data sectors that are not its own. */
  datatype Growth = Grown | Short | Hollow

  /** The result of writing to a file that did not grow. */
  function WriteUngrown(length: nat, offset: nat, size: nat): WriteResult {
    if size > 0 && offset > length then Stopped else Wrote(Fitting(length, offset, size))
  }

  /** `c` with as much of `data` written over it as it has room for. */
  function Overwritten(c: seq<byte>, offset: nat, data: seq<byte>): seq<byte> {
    if offset <= |c| then Splice(c, offset, data[..Fitting(|c|, offset, |data|)]) else c
  }

  /** The bytes between the old end of the file and a write behind it are those that growth makes of them. */
  ghost predicate GapFilled(v: seq<Sector>, map0: seq<bool>, ino: nat, offset: nat, c': seq<byte>)
    requires ino < |v|
  {
    offset <= |c'| && forall p :: Length(v, ino) <= p < offset ==> c'[p] == GrownByte(v, map0, ino, p)
  }

  lemma GapKept(v: seq<Sector>, map0: seq<bool>, v1: seq<Sector>, ino: nat, offset: nat, data: seq<byte>)
    requires ino < |v| && ino < |v1| && GrownContent(v, map0, v1, ino) && offset + |data| <= Length(v1, ino)
    ensures GapFilled(v, map0, ino, offset, Splice(Content(v1, ino), offset, data))
  {
  }

  /** Byte `p` of a file that is created on a disk that reads `v`. */
  ghost function FreshByte(v: seq<Sector>, map0: seq<bool>, p: nat): byte {
    FreeByte(v, map0, TotalSectors(p / SECTOR_SIZE + 1) - 1, p % SECTOR_SIZE)
  }

  /** An empty file grows by free sectors alone, and its header is not one of them. */
  lemma FreshBytes(v: seq<Sector>, map0: seq<bool>, ino: nat, h: Sector, length: nat)
    requires ino < |v| == |map0| && map0[ino] && WordAt(h, LENGTH_OFS) == 0
    ensures forall p :: 0 <= p < length ==> GrownByte(v[ino := h], map0, ino, p) == FreshByte(v, map0, p)
  {
    hide CountFree;
    assert BytesToSectors(0) == 0 && TotalSectors(0) == 0;
  }

  lemma HollowIsShort(map0: seq<bool>, length: nat, extend: nat)
    ensures HollowGrowth(map0, length, extend) ==> !EnoughFree(map0, length, extend)
  {
    var free, n0, n1 := CountFree(map0), BytesToSectors(length), BytesToSectors(length + extend);
    if HollowGrowth(map0, length, extend) {
      var k: nat :| RunsOutAt(free, n0, n1, k);
      TotalMono(k + 1, n1);
    }
  }

  lemma SameWords(h: Sector, h': Sector)
    requires SameFields(h, h')
    ensures WordAt(h', MAGIC_OFS) == WordAt(h, MAGIC_OFS) && WordAt(h', PARENT_OFS) == WordAt(h, PARENT_OFS)
    ensures h'[IS_DIR_OFS] == h[IS_DIR_OFS]
  {
    assert h'[MAGIC_OFS..MAGIC_OFS + 4] == h[MAGIC_OFS..MAGIC_OFS + 4];
    assert h'[PARENT_OFS..PARENT_OFS + 4] == h[PARENT_OFS..PARENT_OFS + 4];
  }

  lemma NothingToGrow(map0: seq<bool>, length: nat)
    ensures EnoughFree(map0, length, 0) && !HollowGrowth(map0, length, 0)
    ensures TookFirst(map0, map0, Taken(map0, length, 0))
  {
  }

  lemma OthersFewer(v: seq<Sector>, v': seq<Sector>, owner: Owners, few: set<nat>, many: set<nat>, ino: nat)
    requires OthersSame(v, v', owner, many, ino) && few <= many
    ensures OthersSame(v, v', owner, few, ino)
  {
  }

  const INODE_MAGIC := 0x494e4f44

  /** The header of an empty file. */
  function NewHeader(isDir: bool, parent: nat): (h: Sector)
    requires parent < WORD_LIMIT
    ensures WordAt(h, LENGTH_OFS) == 0 && WordAt(h, MAGIC_OFS) == INODE_MAGIC
    ensures WordAt(h, PARENT_OFS) == parent && (h[IS_DIR_OFS] != 0 <==> isDir)
  {
    var h0 := ZeroSector();
    var h1 := Splice(h0, MAGIC_OFS, WordBytes(INODE_MAGIC));
    var h2 := h1[IS_DIR_OFS := if isDir then 1 else 0];
    var h3 := Splice(h2, PARENT_OFS, WordBytes(parent));
    NewHeaderWords(h1, h2, isDir, parent);
    h3
  }

  lemma NewHeaderWords(h1: Sector, h2: Sector, isDir: bool, parent: nat)
    requires parent < WORD_LIMIT
    requires h1 == Splice(ZeroSector(), MAGIC_OFS, WordBytes(INODE_MAGIC))
    requires h2 == h1[IS_DIR_OFS := if isDir then 1 else 0]
    ensures var h := Splice(h2, PARENT_OFS, WordBytes(parent));
            && WordAt(h, LENGTH_OFS) == 0 && WordAt(h, MAGIC_OFS) == INODE_MAGIC && WordAt(h, PARENT_OFS) == parent
  {
    StoreWord(ZeroSector(), MAGIC_OFS, INODE_MAGIC, LENGTH_OFS);
    StoreWord(ZeroSector(), MAGIC_OFS, INODE_MAGIC, MAGIC_OFS);
    assert h2[LENGTH_OFS..LENGTH_OFS + 4] == h1[LENGTH_OFS..LENGTH_OFS + 4];
    assert h2[MAGIC_OFS..MAGIC_OFS + 4] == h1[MAGIC_OFS..MAGIC_OFS + 4];
    StoreWord(h2, PARENT_OFS, parent, LENGTH_OFS);
    StoreWord(h2, PARENT_OFS, parent, MAGIC_OFS);
    StoreWord(h2, PARENT_OFS, parent, PARENT_OFS);
  }
}
