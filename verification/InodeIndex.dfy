/**
  The on-disk index of an inode (`filesys/inode.c`, `filesys/inode.h`).

  A 512-byte header holds 64 direct pointers, one pointer to an indirect block of
  128 pointers, and one pointer to a doubly indirect block of 128 pointers to
  further indirect blocks.  The module describes the three levels uniformly: every
  block of a file is a slot, and the pointer to a slot's sector is kept in one
  cell (a word) of another slot's block.
 */
module InodeIndex {
  import opened Disks

  const DIRECT_CNT := 64
  const INDIRECT_CNT := 128
  const DOUBLY_INDIRECT_CNT := INDIRECT_CNT * INDIRECT_CNT
  const MAX_SECTORS := DIRECT_CNT + INDIRECT_CNT + DOUBLY_INDIRECT_CNT

  // Byte offsets of the fields of `struct inode_disk`.
  const LENGTH_OFS := 4
  const MAGIC_OFS := 8
  const IS_DIR_OFS := 12
  const PARENT_OFS := 16
  const DIRECT_OFS := 20
  const INDIRECT_OFS := 276
  const DOUBLY_OFS := 280

  // ----- How many sectors a file has -----

  /** `DIV_ROUND_UP (size, 512)`; growth inside the last sector makes `size` negative. */
  function BytesToSectors(size: int): nat
    requires size > -SECTOR_SIZE
  {
    (size + SECTOR_SIZE - 1) / SECTOR_SIZE
  }

  /** The number of sectors the code adds when a file of `length` bytes grows by `extend`. */
  function AddedSectors(length: nat, extend: nat): nat {
    var exist := BytesToSectors(length);
    var snip := exist * SECTOR_SIZE - length;
    BytesToSectors(extend - snip)
  }

  /** Old and new sectors together are exactly what the new length needs. */
  lemma GrowthExact(length: nat, extend: nat)
    ensures BytesToSectors(length) + AddedSectors(length, extend) == BytesToSectors(length + extend)
  {
    var exist := BytesToSectors(length);
    var snip := exist * SECTOR_SIZE - length;
    assert length + extend + SECTOR_SIZE - 1 == exist * SECTOR_SIZE + (extend - snip + SECTOR_SIZE - 1);
  }

  /** Data and index sectors of a file with `n` data sectors, the header not counted. */
  function TotalSectors(n: nat): nat {
    n + (if n > DIRECT_CNT then 1 else 0)
    + if n > DIRECT_CNT + INDIRECT_CNT
      then 1 + (n - DIRECT_CNT - INDIRECT_CNT + INDIRECT_CNT - 1) / INDIRECT_CNT
      else 0
  }

  /** A file of `n` data sectors has an index block from 65 on, and from 193 on another, with one more for every
      128 data sectors; 16,576 is the most. */
  lemma TotalIs(n: nat)
    ensures TotalSectors(n) == if n <= 64 then n else if n <= 192 then n + 1 else n + 2 + (n - 192 + 127) / 128
    ensures MAX_SECTORS == 16576 && BytesToSectors(n) == (n + 511) / 512
  {
  }

  // ----- Slots and cells -----

  /** The blocks of one inode: its header, its index blocks and its data blocks. */
  datatype Slot =
    | Header
    | Indirect
    | Doubly
    | DoublyIndirect(m: nat)
    | Data(k: nat)

  predicate IsIndex(u: Slot) { u.Indirect? || u.Doubly? || u.DoublyIndirect? }

  function Rank(u: Slot): nat {
    match u
    case Header => 0
    case Indirect => 1
    case Doubly => 1
    case DoublyIndirect(_) => 2
    case Data(_) => 3
  }

  predicate Bounded(u: Slot) {
    && (u.DoublyIndirect? ==> u.m < INDIRECT_CNT)
    && (u.Data? ==> u.k < MAX_SECTORS)
  }

  /** The slot whose block holds the pointer to `u`. */
  function Parent(u: Slot): Slot {
    match u
    case Header => Header
    case Indirect => Header
    case Doubly => Header
    case DoublyIndirect(_) => Doubly
    case Data(k) =>
      if k < DIRECT_CNT then Header
      else if k < DIRECT_CNT + INDIRECT_CNT then Indirect
      else DoublyIndirect((k - DIRECT_CNT - INDIRECT_CNT) / INDIRECT_CNT)
  }

  /** The byte offset of that pointer in its block. */
  function CellOfs(u: Slot): (ofs: nat)
    ensures ofs + 4 <= SECTOR_SIZE && ofs % 4 == 0
  {
    match u
    case Header => 0
    case Indirect => INDIRECT_OFS
    case Doubly => DOUBLY_OFS
    case DoublyIndirect(m) => 4 * (m % INDIRECT_CNT)
    case Data(k) =>
      if k < DIRECT_CNT then DIRECT_OFS + 4 * k
      else if k < DIRECT_CNT + INDIRECT_CNT then 4 * (k - DIRECT_CNT)
      else 4 * ((k - DIRECT_CNT - INDIRECT_CNT) % INDIRECT_CNT)
  }

  /** No two slots share a cell. */
  lemma CellsDistinct(u: Slot, w: Slot)
    requires Bounded(u) && Bounded(w) && !u.Header? && !w.Header? && u != w
    ensures Parent(u) != Parent(w) || CellOfs(u) + 4 <= CellOfs(w) || CellOfs(w) + 4 <= CellOfs(u)
  {
    if u.Data? && w.Data? && u.k >= DIRECT_CNT + INDIRECT_CNT && w.k >= DIRECT_CNT + INDIRECT_CNT {
      PlacesApart(u.k - DIRECT_CNT - INDIRECT_CNT, w.k - DIRECT_CNT - INDIRECT_CNT);
    }
  }

  lemma PlacesApart(i: nat, j: nat)
    requires i != j
    ensures i / INDIRECT_CNT != j / INDIRECT_CNT || i % INDIRECT_CNT != j % INDIRECT_CNT
  {
    assert INDIRECT_CNT == 128 && i == 128 * (i / 128) + i % 128 && j == 128 * (j / 128) + j % 128;
  }

  /** The sector of slot `u` of inode `ino`, whose header reads `h`, on a disk that reads `v`. */
  ghost function Loc(v: seq<Sector>, ino: nat, h: Sector, u: Slot): nat
    decreases Rank(u), 0
  {
    if u.Header? then ino else WordAt(Block(v, ino, h, Parent(u)), CellOfs(u))
  }

  /** The contents of slot `u`. */
  ghost function Block(v: seq<Sector>, ino: nat, h: Sector, u: Slot): Sector
    decreases Rank(u), 1
  {
    if u.Header? then h
    else var s := Loc(v, ino, h, u); if s < |v| then v[s] else h
  }

  /** Where the three kinds of index block are found. */
  lemma IndexLocs(v: seq<Sector>, ino: nat, h: Sector, j: nat)
    ensures Loc(v, ino, h, Indirect) == WordAt(h, INDIRECT_OFS)
    ensures Loc(v, ino, h, Doubly) == WordAt(h, DOUBLY_OFS)
    ensures var d := WordAt(h, DOUBLY_OFS);
            d < |v| && j < INDIRECT_CNT ==> Loc(v, ino, h, DoublyIndirect(j)) == WordAt(v[d], 4 * j)
    ensures j < INDIRECT_CNT ==> CellOfs(DoublyIndirect(j)) == j * 4
  {
    assert Block(v, ino, h, Header) == h;
    assert Loc(v, ino, h, Doubly) == WordAt(h, DOUBLY_OFS);
  }

  /** Where data sectors are found, level by level. */
  lemma DataLoc(v: seq<Sector>, ino: nat, h: Sector, k: nat)
    requires k < MAX_SECTORS
    ensures k < 64 ==> Loc(v, ino, h, Data(k)) == WordAt(h, 20 + 4 * k)
    ensures var t := WordAt(h, 276);
            64 <= k < 192 && t < |v| ==> Loc(v, ino, h, Data(k)) == WordAt(v[t], 4 * (k - 64))
    ensures var d := WordAt(h, 280);
            192 <= k && d < |v| ==>
              var i := k - 192;
              var t := WordAt(v[d], 4 * (i / 128));
              && Loc(v, ino, h, DoublyIndirect(i / 128)) == t
              && (t < |v| ==> Loc(v, ino, h, Data(k)) == WordAt(v[t], 4 * (i % 128)))
  {
    if k >= DIRECT_CNT + INDIRECT_CNT {
      IndexLocs(v, ino, h, (k - DIRECT_CNT - INDIRECT_CNT) / INDIRECT_CNT);
    } else {
      IndexLocs(v, ino, h, 0);
    }
  }

  // ----- Which slots are in use -----

  /** The slots of a file with index blocks for `n` data sectors, the first `m` of them backed by sectors. */
  predicate InUse(u: Slot, n: nat, m: nat) {
    match u
    case Header => true
    case Indirect => n > DIRECT_CNT
    case Doubly => n > DIRECT_CNT + INDIRECT_CNT
    case DoublyIndirect(j) => n > DIRECT_CNT + INDIRECT_CNT + INDIRECT_CNT * j
    case Data(k) => k < m
  }

  ghost function Slots(n: nat, m: nat): iset<Slot> {
    iset u: Slot | InUse(u, n, m)
  }

  ghost predicate Closed(used: iset<Slot>) {
    && Header in used
    && (forall u :: u in used ==> Parent(u) in used)
    && (forall u :: u in used ==> Bounded(u))
  }

  lemma SlotsClosed(n: nat, m: nat)
    requires m <= n <= MAX_SECTORS
    ensures Closed(Slots(n, m))
  {
    forall u | InUse(u, n, m) ensures InUse(Parent(u), n, m) && Bounded(u) {
      if u.Data? && u.k >= DIRECT_CNT + INDIRECT_CNT {
        var i := u.k - DIRECT_CNT - INDIRECT_CNT;
        assert INDIRECT_CNT * (i / INDIRECT_CNT) <= i;
      }
    }
  }

  lemma ClosedAdd(used: iset<Slot>, u: Slot)
    requires Closed(used) && Parent(u) in used && Bounded(u)
    ensures Closed(used + iset{u})
  {
  }

  /** The index blocks that must be added before data sector `n` can be. */
  ghost function NewIndex(n: nat): iset<Slot> {
    if n == DIRECT_CNT then iset{Indirect}
    else if n == DIRECT_CNT + INDIRECT_CNT then iset{Doubly, DoublyIndirect(0)}
    else if n > DIRECT_CNT + INDIRECT_CNT && (n - DIRECT_CNT - INDIRECT_CNT) % INDIRECT_CNT == 0
    then iset{DoublyIndirect((n - DIRECT_CNT - INDIRECT_CNT) / INDIRECT_CNT)}
    else iset{}
  }

  lemma SlotsGrow(n: nat, m: nat)
    ensures Slots(n + 1, m) == Slots(n, m) + NewIndex(n)
    ensures Slots(n, m + 1) == Slots(n, m) + iset{Data(m)}
    ensures NewIndex(n) !! Slots(n, m)
  {
    forall u ensures InUse(u, n + 1, m) <==> InUse(u, n, m) || u in NewIndex(n) {
      if u.DoublyIndirect? && n >= DIRECT_CNT + INDIRECT_CNT {
        Multiples(n - DIRECT_CNT - INDIRECT_CNT, u.m);
      }
    }
  }

  /** The slots of a file about to get a data sector in the doubly indirect range. */
  lemma DoublySlots(n: nat, m: nat, used: iset<Slot>)
    requires m <= n && DIRECT_CNT + INDIRECT_CNT <= n < MAX_SECTORS
    requires used == if n == DIRECT_CNT + INDIRECT_CNT then Slots(n, m) + iset{Doubly} else Slots(n, m)
    ensures Doubly in used && Slots(n, m) <= used
    ensures var i := n - DIRECT_CNT - INDIRECT_CNT;
            var block := DoublyIndirect(i / INDIRECT_CNT);
            && (i % INDIRECT_CNT == 0 ==> block !in used && Slots(n + 1, m) == used + iset{block})
            && (i % INDIRECT_CNT != 0 ==> Slots(n + 1, m) == used && NewIndex(n) == iset{})
  {
    SlotsGrow(n, m);
  }

  lemma Multiples(i: nat, j: nat)
    ensures i == INDIRECT_CNT * j <==> i % INDIRECT_CNT == 0 && i / INDIRECT_CNT == j
  {
  }

  /** Each data sector costs itself and the index blocks it needs. */
  lemma TotalGrow(n: nat)
    ensures TotalSectors(n + 1) - TotalSectors(n)
         == 1 + if n == DIRECT_CNT + INDIRECT_CNT then 2 else if NewIndex(n) == iset{} then 0 else 1
  {
    assert Indirect in iset{Indirect};
    if n > DIRECT_CNT + INDIRECT_CNT {
      var i := n - DIRECT_CNT - INDIRECT_CNT;
      assert DoublyIndirect(i / INDIRECT_CNT) in iset{DoublyIndirect(i / INDIRECT_CNT)};
      CeilStep(i);
    }
  }

  lemma CeilStep(i: nat)
    ensures (i + INDIRECT_CNT) / INDIRECT_CNT ==
            (i + INDIRECT_CNT - 1) / INDIRECT_CNT + if i % INDIRECT_CNT == 0 then 1 else 0
  {
    var d, m := i / 128, i % 128;
    assert INDIRECT_CNT == 128 && i == 128 * d + m;
    assert (i + 128) / 128 == d + 1;
    assert (i + 127) / 128 == if m == 0 then d else d + 1;
  }

  lemma SlotsMono(n: nat, m: nat, n': nat, m': nat)
    requires n <= n' && m <= m'
    ensures Slots(n, m) <= Slots(n', m')
  {
  }

  lemma TotalMono(n: nat, n': nat)
    requires n <= n'
    ensures TotalSectors(n') - TotalSectors(n) >= n' - n
  {
  }

  // ----- Running out of sectors -----

  /** `free` sectors are just enough for a file of `n0` data sectors to grow to `k`, and for the index blocks of
      data sector `k`; and no index block is needed from there to `n1` data sectors. */
  ghost predicate RunsOutAt(free: nat, n0: nat, n1: nat, k: nat) {
    && n0 <= k < n1
    && free == TotalSectors(k + 1) - TotalSectors(n0) - 1
    && TotalSectors(n1) - TotalSectors(k + 1) == n1 - (k + 1)
  }

  ghost predicate RunsOut(free: nat, n0: nat, n1: nat) {
    exists k: nat :: RunsOutAt(free, n0, n1, k)
  }

  /** An index block that cannot be had for data sector `curr`, when `m` data sectors have been backed. */
  lemma IndexMissing(free: nat, n0: nat, n1: nat, curr: nat, m: nat)
    requires n0 <= m <= curr < n1
    requires m == curr ==> TotalSectors(curr) - TotalSectors(n0) <= free < TotalSectors(curr + 1) - TotalSectors(n0) - 1
    requires m < curr ==> RunsOutAt(free, n0, curr, m) && TotalSectors(curr + 1) - TotalSectors(curr) > 1
    ensures free < TotalSectors(n1) - TotalSectors(n0) && !RunsOut(free, n0, n1)
  {
    hide TotalSectors;
    TotalMono(curr + 1, n1);
    TotalMono(m + 1, n1);
    forall k: nat | n0 <= k < n1 ensures !RunsOutAt(free, n0, n1, k) {
      TotalMono(if k < m then k + 1 else m + 1, if k < m then m + 1 else k + 1);
      TotalMono(if k < curr then k + 1 else curr, if k < curr then curr else k + 1);
      TotalMono(curr, curr + 1);
      TotalMono(if k < curr then k + 1 else curr + 1, if k < curr then curr else k + 1);
    }
  }

  // ----- Ownership -----

  /** To which slot of which inode each allocated sector belongs. */
  type Owners = map<nat, (nat, Slot)>

  /** The index leads from the header to a sector of its own for every slot in `used`. */
  ghost predicate Tree(v: seq<Sector>, owner: Owners, ino: nat, h: Sector, used: iset<Slot>) {
    forall u :: u in used ==>
      var s := Loc(v, ino, h, u);
      s < |v| && s in owner && owner[s] == (ino, u)
  }

  /** Different slots, of one inode or of two, have different sectors. */
  lemma SectorsDistinct(v: seq<Sector>, owner: Owners,
                        ino: nat, h: Sector, used: iset<Slot>, u: Slot,
                        ino': nat, h': Sector, used': iset<Slot>, u': Slot)
    requires Tree(v, owner, ino, h, used) && Tree(v, owner, ino', h', used')
    requires u in used && u' in used' && (ino, u) != (ino', u')
    ensures Loc(v, ino, h, u) != Loc(v, ino', h', u')
  {
    assert owner[Loc(v, ino, h, u)] == (ino, u);
    assert owner[Loc(v, ino', h', u')] == (ino', u');
  }

  ghost predicate SameLocs(v: seq<Sector>, v': seq<Sector>, ino: nat, h: Sector, h': Sector, used: iset<Slot>) {
    forall u :: u in used ==> Loc(v', ino, h', u) == Loc(v, ino, h, u)
  }

  /** `v'` differs from `v` at most in what are index blocks of `ino` by then. */
  ghost predicate Frame(v: seq<Sector>, owner: Owners, v': seq<Sector>, owner': Owners, ino: nat) {
    && |v'| == |v|
    && (forall s :: s in owner ==> s in owner' && owner'[s] == owner[s])
    && (forall s :: 0 <= s < |v| && !(s in owner' && owner'[s].0 == ino && IsIndex(owner'[s].1)) ==> v'[s] == v[s])
  }

  /** Pointers do not move when no index block changes. */
  lemma {:induction false} LocFrame(v: seq<Sector>, v': seq<Sector>, ino: nat, h: Sector, used: iset<Slot>, u: Slot)
    requires Closed(used) && u in used && |v'| == |v|
    requires forall w :: w in used && IsIndex(w) ==>
      Loc(v, ino, h, w) < |v| && v'[Loc(v, ino, h, w)] == v[Loc(v, ino, h, w)]
    ensures Loc(v', ino, h, u) == Loc(v, ino, h, u)
    decreases Rank(u)
  {
    if !u.Header? && !Parent(u).Header? {
      LocFrame(v, v', ino, h, used, Parent(u));
      assert IsIndex(Parent(u));
    }
  }

  /** The tree of an inode survives every change that leaves its index blocks alone. */
  lemma TreeFrame(v: seq<Sector>, owner: Owners, v': seq<Sector>, owner': Owners,
                  ino: nat, h: Sector, used: iset<Slot>)
    requires Closed(used) && Tree(v, owner, ino, h, used) && |v'| == |v|
    requires forall s :: s in owner ==> s in owner' && owner'[s] == owner[s]
    requires forall s :: s in owner && s < |v| && owner[s].0 == ino && IsIndex(owner[s].1) ==> v'[s] == v[s]
    ensures Tree(v', owner', ino, h, used)
    ensures SameLocs(v, v', ino, h, h, used)
  {
    forall u | u in used ensures Loc(v', ino, h, u) == Loc(v, ino, h, u) {
      LocFrame(v, v', ino, h, used, u);
    }
  }

  /** Storing a pointer in the cell of an unused slot moves no slot in use: the header case. */
  lemma SetHeaderCell(v: seq<Sector>, owner: Owners, ino: nat, h: Sector, used: iset<Slot>, u: Slot, s: nat)
    requires Closed(used) && Tree(v, owner, ino, h, used)
    requires Bounded(u) && !u.Header? && u !in used && Parent(u) == Header && s < WORD_LIMIT
    ensures var h' := Splice(h, CellOfs(u), WordBytes(s));
            SameLocs(v, v, ino, h, h', used) && Loc(v, ino, h', u) == s
  {
    var h' := Splice(h, CellOfs(u), WordBytes(s));
    StoreWord(h, CellOfs(u), s, CellOfs(u));
    forall w | w in used ensures Loc(v, ino, h', w) == Loc(v, ino, h, w) {
      HeaderCellKept(v, ino, h, used, u, s, w);
    }
  }

  lemma {:induction false} HeaderCellKept(v: seq<Sector>, ino: nat, h: Sector, used: iset<Slot>, u: Slot, s: nat,
                                          w: Slot)
    requires Closed(used) && w in used
    requires forall w :: w in used ==> Loc(v, ino, h, w) < |v|
    requires Bounded(u) && !u.Header? && u !in used && Parent(u) == Header && s < WORD_LIMIT
    ensures Loc(v, ino, Splice(h, CellOfs(u), WordBytes(s)), w) == Loc(v, ino, h, w)
    decreases Rank(w)
  {
    if !w.Header? {
      if Parent(w).Header? {
        CellsDistinct(u, w);
        StoreWord(h, CellOfs(u), s, CellOfs(w));
      } else {
        HeaderCellKept(v, ino, h, used, u, s, Parent(w));
        assert Loc(v, ino, h, Parent(w)) < |v|;
      }
    }
  }

  /** Storing a pointer in the cell of an unused slot moves no slot in use: the index block case. */
  lemma SetBlockCell(v: seq<Sector>, owner: Owners, ino: nat, h: Sector, used: iset<Slot>, u: Slot, s: nat)
    requires Closed(used) && Tree(v, owner, ino, h, used)
    requires Bounded(u) && !u.Header? && u !in used && Parent(u) in used && !Parent(u).Header? && s < WORD_LIMIT
    ensures var t := Loc(v, ino, h, Parent(u));
            var v' := v[t := Splice(v[t], CellOfs(u), WordBytes(s))];
            SameLocs(v, v', ino, h, h, used) && Loc(v', ino, h, u) == s
  {
    var t := Loc(v, ino, h, Parent(u));
    var v' := v[t := Splice(v[t], CellOfs(u), WordBytes(s))];
    forall w | w in used ensures Loc(v', ino, h, w) == Loc(v, ino, h, w) {
      BlockCellKept(v, owner, ino, h, used, u, s, w);
    }
    StoreWord(v[t], CellOfs(u), s, CellOfs(u));
    assert Loc(v', ino, h, Parent(u)) == t;
  }

  lemma {:induction false} BlockCellKept(v: seq<Sector>, owner: Owners, ino: nat, h: Sector, used: iset<Slot>, u: Slot,
                                         s: nat, w: Slot)
    requires Closed(used) && Tree(v, owner, ino, h, used) && w in used
    requires Bounded(u) && !u.Header? && u !in used && Parent(u) in used && !Parent(u).Header? && s < WORD_LIMIT
    ensures var t := Loc(v, ino, h, Parent(u));
            var v' := v[t := Splice(v[t], CellOfs(u), WordBytes(s))];
            Loc(v', ino, h, w) == Loc(v, ino, h, w)
    decreases Rank(w)
  {
    if !w.Header? && !Parent(w).Header? {
      var p, q := Parent(u), Parent(w);
      BlockCellKept(v, owner, ino, h, used, u, s, q);
      if q == p {
        CellsDistinct(u, w);
        StoreWord(v[Loc(v, ino, h, p)], CellOfs(u), s, CellOfs(w));
      } else {
        SectorsDistinct(v, owner, ino, h, used, p, ino, h, used, q);
      }
    }
  }
}
