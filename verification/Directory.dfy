/**
  Directories (`filesys/directory.c`): a directory is a file of 20-byte entries,
  each a sector number, a 15-byte null-terminated name and an in-use flag.
  It is meant to act as a finite map from names to inode sectors.
 */
module Directories {
  import opened Wrappers
  import opened Disks
  import opened FreeMaps
  import opened InodeIndex
  import opened Inodes

  const NAME_MAX := 14
  const ENTRY_SIZE := 20
  const NAME_OFS := 4
  const IN_USE_OFS := 19

  type Name = seq<byte>

  // ----- Entries and slots -----

  datatype DirSlot = Unused | Used(name: Name, sector: nat)

  function SlotOf(e: seq<byte>): DirSlot
    requires |e| == ENTRY_SIZE
  {
    if e[IN_USE_OFS] == 0 then Unused else Used(UpToNul(e[NAME_OFS..IN_USE_OFS]), BytesWord(e[..NAME_OFS]))
  }

  /** The complete entries of a directory file; a shorter tail is not an entry. */
  function SlotsOf(c: seq<byte>): (ss: seq<DirSlot>)
    ensures |ss| == |c| / ENTRY_SIZE
  {
    seq(|c| / ENTRY_SIZE, i requires 0 <= i < |c| / ENTRY_SIZE => SlotOf(EntryAt(c, i)))
  }

  function EntryAt(c: seq<byte>, i: nat): (e: seq<byte>)
    requires ENTRY_SIZE * i + ENTRY_SIZE <= |c|
    ensures |e| == ENTRY_SIZE
  {
    c[ENTRY_SIZE * i..ENTRY_SIZE * i + ENTRY_SIZE]
  }

  /** The entry written for `name` over the old entry `e`: the bytes behind the name's null are kept. */
  function MakeEntry(e: seq<byte>, name: Name, sector: nat): (r: seq<byte>)
    requires |e| == ENTRY_SIZE && |name| <= NAME_MAX && sector < WORD_LIMIT
    ensures |r| == ENTRY_SIZE
  {
    WordBytes(sector) + (name + [0] + e[NAME_OFS + |name| + 1..IN_USE_OFS]) + [1]
  }

  lemma MadeEntry(e: seq<byte>, name: Name, sector: nat)
    requires |e| == ENTRY_SIZE && |name| <= NAME_MAX && 0 !in name && sector < WORD_LIMIT
    ensures SlotOf(MakeEntry(e, name, sector)) == Used(name, sector)
    ensures var r := MakeEntry(e, name, sector);
            BytesWord(r[..4]) == sector && r[4..4 + |name|] == name && r[4 + |name|] == 0 && r[19] == 1
  {
    var r, rest := MakeEntry(e, name, sector), e[NAME_OFS + |name| + 1..IN_USE_OFS];
    assert r[NAME_OFS..IN_USE_OFS] == name + [0] + rest;
    UpToNulOf(name, rest);
    assert r[..NAME_OFS] == WordBytes(sector);
    WordRoundTrip(sector);
  }

  // ----- A directory as a finite map -----

  ghost predicate UniqueNames(ss: seq<DirSlot>) {
    forall i, j :: 0 <= i < j < |ss| && ss[i].Used? && ss[j].Used? ==> ss[i].name != ss[j].name
  }

  /** Names in use have 1 to 14 characters, so that a null byte ends each within its entry. */
  ghost predicate ProperNames(ss: seq<DirSlot>) {
    forall i :: 0 <= i < |ss| && ss[i].Used? ==> 1 <= |ss[i].name| <= NAME_MAX
  }

  function Bindings(ss: seq<DirSlot>): map<Name, nat> {
    if ss == [] then map[]
    else
      var n := |ss| - 1;
      var b := Bindings(ss[..n]);
      match ss[n]
      case Unused => b
      case Used(name, sector) => b[name := sector]
  }

  /** The map binds exactly the names in use, each to the sector of its one slot. */
  lemma {:induction false} BindingsAre(ss: seq<DirSlot>)
    requires UniqueNames(ss)
    ensures forall i :: 0 <= i < |ss| && ss[i].Used? ==>
            ss[i].name in Bindings(ss) && Bindings(ss)[ss[i].name] == ss[i].sector
    ensures forall name :: name in Bindings(ss) ==> exists i :: 0 <= i < |ss| && ss[i].Used? && ss[i].name == name
  {
    if ss != [] {
      var n := |ss| - 1;
      var tt := ss[..n];
      assert forall i :: 0 <= i < n ==> tt[i] == ss[i];
      BindingsAre(tt);
      forall name | name in Bindings(ss) ensures exists i :: 0 <= i < |ss| && ss[i].Used? && ss[i].name == name {
        if name in Bindings(tt) {
          var i :| 0 <= i < |tt| && tt[i].Used? && tt[i].name == name;
          assert ss[i].Used? && ss[i].name == name;
        } else {
          assert ss[n].Used? && ss[n].name == name;
        }
      }
    }
  }

  lemma UniqueAdded(ss: seq<DirSlot>, tt: seq<DirSlot>, i: nat)
    requires UniqueNames(ss) && i < |tt| && tt[i].Used?
    requires forall j :: 0 <= j < |tt| && j != i ==> j < |ss| && tt[j] == ss[j]
    requires forall j :: 0 <= j < |ss| && ss[j].Used? ==> ss[j].name != tt[i].name
    ensures UniqueNames(tt)
  {
  }

  /** Using an unused slot, or a new one at the end, for a new name adds exactly that binding. */
  lemma AddBinding(ss: seq<DirSlot>, i: nat, name: Name, sector: nat)
    requires UniqueNames(ss) && i <= |ss| && (i < |ss| ==> ss[i].Unused?)
    requires name !in Bindings(ss)
    ensures var tt := if i < |ss| then ss[i := Used(name, sector)] else ss + [Used(name, sector)];
            UniqueNames(tt) && Bindings(tt) == Bindings(ss)[name := sector]
  {
    var tt := if i < |ss| then ss[i := Used(name, sector)] else ss + [Used(name, sector)];
    hide UniqueNames, Bindings;
    BindingsAre(ss);
    UniqueAdded(ss, tt, i);
    BindingsAre(tt);
    var b := Bindings(ss)[name := sector];
    forall n | n in b ensures exists j :: 0 <= j < |tt| && tt[j].Used? && tt[j].name == n {
      if n == name {
        assert tt[i].name == n;
      } else {
        var j :| 0 <= j < |ss| && ss[j].Used? && ss[j].name == n;
        assert tt[j] == ss[j];
      }
    }
    forall j | 0 <= j < |tt| && tt[j].Used? ensures tt[j].name in b && b[tt[j].name] == tt[j].sector {
      if j != i {
        assert tt[j] == ss[j];
      }
    }
    SameBindings(Bindings(tt), b, tt);
  }

  /** Releasing a slot removes exactly its binding. */
  lemma EraseBinding(ss: seq<DirSlot>, i: nat)
    requires UniqueNames(ss) && i < |ss| && ss[i].Used?
    ensures var tt := ss[i := Unused];
            UniqueNames(tt) && Bindings(tt) == Bindings(ss) - {ss[i].name}
  {
    var tt := ss[i := Unused];
    BindingsAre(ss);
    BindingsAre(tt);
    var b := Bindings(ss) - {ss[i].name};
    forall name | name in b ensures exists j :: 0 <= j < |tt| && tt[j].Used? && tt[j].name == name {
      var j :| 0 <= j < |ss| && ss[j].Used? && ss[j].name == name;
      assert tt[j] == ss[j];
    }
    SameBindings(Bindings(tt), b, tt);
  }

  lemma SameBindings(a: map<Name, nat>, b: map<Name, nat>, ss: seq<DirSlot>)
    requires forall name :: name in a ==> exists i :: 0 <= i < |ss| && ss[i].Used? && ss[i].name == name
    requires forall name :: name in b ==> exists i :: 0 <= i < |ss| && ss[i].Used? && ss[i].name == name
    requires forall i :: 0 <= i < |ss| && ss[i].Used? ==> ss[i].name in a && a[ss[i].name] == ss[i].sector
    requires forall i :: 0 <= i < |ss| && ss[i].Used? ==> ss[i].name in b && b[ss[i].name] == ss[i].sector
    ensures a == b
  {
    forall name ensures name in a <==> name in b {
    }
    assert a.Keys == b.Keys;
  }

  /** The first slot not in use, or the end. */
  function FirstUnused(ss: seq<DirSlot>): (i: nat)
    ensures i <= |ss| && (i < |ss| ==> ss[i].Unused?)
    ensures forall j :: 0 <= j < i ==> ss[j].Used?
  {
    if ss == [] || ss[0].Unused? then 0 else 1 + FirstUnused(ss[1..])
  }

  // ----- Listing -----

  /** The names in use from slot `i` on, in order. */
  function Listing(ss: seq<DirSlot>, i: nat): seq<Name>
    requires i <= |ss|
    decreases |ss| - i
  {
    if i == |ss| then []
    else if ss[i].Used? then [ss[i].name] + Listing(ss, i + 1) else Listing(ss, i + 1)
  }

  lemma {:induction false} ListingFrom(ss: seq<DirSlot>, i: nat)
    requires i <= |ss| && UniqueNames(ss)
    ensures forall name :: name in Listing(ss, i) <==> exists j :: i <= j < |ss| && ss[j].Used? && ss[j].name == name
    ensures forall a, b :: 0 <= a < b < |Listing(ss, i)| ==> Listing(ss, i)[a] != Listing(ss, i)[b]
    decreases |ss| - i
  {
    if i < |ss| {
      ListingFrom(ss, i + 1);
      var rest := Listing(ss, i + 1);
      if ss[i].Used? {
        assert ss[i].name !in rest;
        assert Listing(ss, i) == [ss[i].name] + rest;
      }
    }
  }

  /** Reading a directory from the start names every binding, and none of them twice. */
  lemma ListingComplete(ss: seq<DirSlot>)
    requires UniqueNames(ss)
    ensures forall name :: name in Listing(ss, 0) <==> name in Bindings(ss)
    ensures forall a, b :: 0 <= a < b < |Listing(ss, 0)| ==> Listing(ss, 0)[a] != Listing(ss, 0)[b]
  {
    ListingFrom(ss, 0);
    BindingsAre(ss);
  }

  // ----- Bytes and slots -----

  lemma EntryIndex(length: nat, ofs: nat)
    requires ofs % ENTRY_SIZE == 0
    ensures ofs == ENTRY_SIZE * (ofs / ENTRY_SIZE)
    ensures ofs + ENTRY_SIZE <= length <==> ofs / ENTRY_SIZE < length / ENTRY_SIZE
    ensures ofs <= length && ofs + ENTRY_SIZE > length ==> ofs / ENTRY_SIZE == length / ENTRY_SIZE
  {
  }

  /** Writing an entry at a slot's offset changes that slot alone; at the end it adds a slot. */
  lemma WriteSlot(c: seq<byte>, c': seq<byte>, i: nat, e: seq<byte>)
    requires |e| == ENTRY_SIZE && i <= |c| / ENTRY_SIZE && Written(c, c', ENTRY_SIZE * i, e)
    ensures |c| <= |c'|
    ensures var ss := SlotsOf(c);
            SlotsOf(c') == if i < |ss| then ss[i := SlotOf(e)] else ss + [SlotOf(e)]
  {
    var ss, ss' := SlotsOf(c), SlotsOf(c');
    var want := if i < |ss| then ss[i := SlotOf(e)] else ss + [SlotOf(e)];
    WrittenCount(|c|, |c'|, i);
    assert EntryAt(c', i) == e;
    forall j | 0 <= j < |want| ensures ss'[j] == want[j] {
      if j != i {
        OtherEntry(c, c', i, e, j);
      }
    }
  }

  lemma WrittenCount(length: nat, length': nat, i: nat)
    requires i <= length / ENTRY_SIZE && length' == length + Extension(length, ENTRY_SIZE * i + ENTRY_SIZE)
    ensures length' / ENTRY_SIZE == if i < length / ENTRY_SIZE then length / ENTRY_SIZE else length / ENTRY_SIZE + 1
  {
    if i < length / ENTRY_SIZE {
      assert ENTRY_SIZE * i + ENTRY_SIZE <= length;
    } else {
      assert length' == ENTRY_SIZE * (i + 1);
    }
  }

  lemma OtherEntry(c: seq<byte>, c': seq<byte>, i: nat, e: seq<byte>, j: nat)
    requires |e| == ENTRY_SIZE && Written(c, c', ENTRY_SIZE * i, e)
    requires j != i && ENTRY_SIZE * j + ENTRY_SIZE <= |c|
    ensures EntryAt(c', j) == EntryAt(c, j)
  {
    var a, b := EntryAt(c', j), EntryAt(c, j);
    forall k | 0 <= k < ENTRY_SIZE ensures a[k] == b[k] {
      var p := ENTRY_SIZE * j + k;
      assert a[k] == c'[p] && b[k] == c[p];
    }
  }

  /** `e` is the entry of slot `i`. */
  ghost predicate IsEntry(c: seq<byte>, i: nat, e: seq<byte>) {
    && |e| == ENTRY_SIZE && i < |SlotsOf(c)|
    && e == EntryAt(c, i) && SlotsOf(c)[i] == SlotOf(e)
  }

  /** Reading the size of an entry where slot `i` is yields its entry, and where it would be something shorter. */
  lemma EntryRead(c: seq<byte>, i: nat)
    requires ENTRY_SIZE * i <= |c|
    ensures i <= |SlotsOf(c)|
    ensures var e := ReadRange(c, ENTRY_SIZE * i, ENTRY_SIZE);
            && (|e| == ENTRY_SIZE <==> i < |SlotsOf(c)|)
            && (|e| == ENTRY_SIZE ==> ENTRY_SIZE * i + ENTRY_SIZE <= |c| && IsEntry(c, i, e))
  {
    hide SlotOf;
    EntryIndex(|c|, ENTRY_SIZE * i);
    assert ENTRY_SIZE * i / ENTRY_SIZE == i;
  }

  /** `Unknown`: the directory file grew with sectors that are not its own. */
  datatype DirResult = Done | Refused | Unknown

  class Directory {
    const fs: FileSystem
    const ino: nat
    var pos: nat

    ghost function Contents(): seq<byte>
      requires ino < |fs.cache.disk|
      reads this, fs, fs.cache
    {
      Content(fs.cache.View(), ino)
    }

    /** In-use names are null-terminated and unique, and the reading position is at an entry. */
    ghost predicate Valid()
      reads this, fs, fs.cache, fs.freeMap.used.bits
    {
      && fs.Valid() && ino in fs.inodes && ino < |fs.cache.disk|
      && UniqueNames(SlotsOf(Contents())) && ProperNames(SlotsOf(Contents()))
      && pos % ENTRY_SIZE == 0 && pos <= |Contents()|
    }

    ghost function Map(): map<Name, nat>
      requires ino < |fs.cache.disk|
      reads this, fs, fs.cache
    {
      Bindings(SlotsOf(Contents()))
    }

    constructor Open(fs: FileSystem, ino: nat)
      requires fs.Valid() && ino in fs.inodes && ino < |fs.cache.disk|
      requires UniqueNames(SlotsOf(Content(fs.cache.View(), ino)))
               && ProperNames(SlotsOf(Content(fs.cache.View(), ino)))
      ensures Valid() && this.fs == fs && this.ino == ino && pos == 0
    {
      this.fs, this.ino, pos := fs, ino, 0;
    }

    /** Reads the entry at byte `ofs`, which is where slot `i` is or would be, if it is complete. */
    method ReadEntry(ofs: nat, ghost i: nat) returns (r: Option<seq<byte>>)
      requires Valid() && ofs == ENTRY_SIZE * i && ofs <= |Contents()|
      modifies fs`readAhead, fs.cache
      ensures Valid() && fs.cache.View() == old(fs.cache.View())
      ensures i <= |SlotsOf(Contents())| && (r.Some? <==> i < |SlotsOf(Contents())|)
      ensures r.Some? ==> ofs + ENTRY_SIZE <= |Contents()| && IsEntry(Contents(), i, r.value)
    {
      EntryRead(Contents(), i);
      hide fs.Valid, SlotOf, SlotsOf, Content, IsEntry, ReadRange, UniqueNames, ProperNames;
      var data := fs.ReadAt(ino, ENTRY_SIZE, ofs);
      if |data.value| == ENTRY_SIZE {
        r := data;
      } else {
        r := None;
      }
    }

    /** Searches for `name`; yields its entry and the entry's offset. */
    method Lookup(name: Name) returns (r: Option<(seq<byte>, nat)>, ghost i: nat)
      requires Valid()
      modifies fs`readAhead, fs.cache
      ensures Valid() && fs.cache.View() == old(fs.cache.View())
      ensures r.Some? <==> name in Map()
      ensures r.Some? ==> i < |SlotsOf(Contents())| && r.value.1 == ENTRY_SIZE * i && IsEntry(Contents(), i, r.value.0)
      ensures r.Some? ==> SlotsOf(Contents())[i] == Used(name, Map()[name])
    {
      hide fs.Valid, fs.cache.Valid, Bindings, SlotsOf, Content;
      ghost var ss := SlotsOf(Contents());
      BindingsAre(ss);
      var ofs := 0;
      i := 0;
      while true
        invariant Valid() && fs.cache.View() == old(fs.cache.View())
        invariant ofs == ENTRY_SIZE * i && ofs <= |Contents()|
        invariant i <= |ss| && forall j :: 0 <= j < i ==> ss[j].Unused? || ss[j].name != name
        decreases |old(Contents())| - ofs
      {
        var e := ReadEntry(ofs, i);
        if e.None? {
          return None, i;
        }
        if e.value[IN_USE_OFS] != 0 && UpToNul(e.value[NAME_OFS..IN_USE_OFS]) == name {
          return Some((e.value, ofs)), i;
        }
        ofs, i := ofs + ENTRY_SIZE, i + 1;
      }
    }

    /** The first slot not in use, or the end: its offset and the bytes read there last. */
    method FindFree(stale: seq<byte>) returns (ofs: nat, e: seq<byte>, ghost i: nat)
      requires Valid() && |stale| == ENTRY_SIZE
      modifies fs`readAhead, fs.cache
      ensures Valid() && fs.cache.View() == old(fs.cache.View())
      ensures ofs == ENTRY_SIZE * i && ofs <= |Contents()| && |e| == ENTRY_SIZE
      ensures i == FirstUnused(SlotsOf(Contents()))
    {
      hide fs.Valid, fs.cache.Valid, SlotsOf, Content;
      ofs, e, i := 0, stale, 0;
      while true
        invariant Valid() && fs.cache.View() == old(fs.cache.View())
        invariant ofs == ENTRY_SIZE * i && ofs <= |Contents()| && |e| == ENTRY_SIZE
        invariant i <= FirstUnused(SlotsOf(Contents()))
        decreases |old(Contents())| - ofs
      {
        var r := ReadEntry(ofs, i);
        if r.None? {
          return;
        }
        e := r.value;
        if e[IN_USE_OFS] == 0 {
          return;
        }
        ofs, i := ofs + ENTRY_SIZE, i + 1;
      }
    }

    /** Writes entry `e` at slot `i`, in use or just behind the last one; nothing is known when the growth of the
        file was taken to be complete and was not. */
    method WriteEntry(ofs: nat, e: seq<byte>, ghost i: nat, denyWriteCnt: nat, junk: Sector) returns (r: DirResult)
      requires fs.Valid() && ino in fs.inodes && ino < |fs.cache.disk| && |e| == ENTRY_SIZE
      requires ofs == ENTRY_SIZE * i && i <= |SlotsOf(Contents())| && ofs + ENTRY_SIZE <= MAX_BYTES
      modifies fs`owner, fs.cache, fs.freeMap.used.bits
      ensures ino < |fs.cache.disk| && (!r.Unknown? ==> fs.Valid())
      ensures r.Done? <==> denyWriteCnt == 0 && old(HasRoom(ofs))
      ensures r.Unknown? <==> denyWriteCnt == 0 && old(GrowsHollow(ofs))
      ensures denyWriteCnt != 0 ==> r.Refused? && fs.cache.View() == old(fs.cache.View())
      ensures denyWriteCnt != 0 || ofs + ENTRY_SIZE <= |old(Contents())| ==>
              fs.freeMap.Contents() == old(fs.freeMap.Contents())
      ensures denyWriteCnt == 0 ==> TookFirst(old(fs.freeMap.Contents()), fs.freeMap.Contents(), old(RoomTaken(ofs)))
      ensures denyWriteCnt == 0 && !r.Unknown? ==>
              OthersSame(old(fs.cache.View()), fs.cache.View(), fs.owner, fs.inodes, ino)
      ensures !r.Unknown? ==> |old(Contents())| <= |Contents()|
      ensures r.Refused? ==> SlotsOf(Contents()) == SlotsOf(old(Contents()))
      ensures r.Done? ==> var ss := SlotsOf(old(Contents()));
                SlotsOf(Contents()) == if i < |ss| then ss[i := SlotOf(e)] else ss + [SlotOf(e)]
    {
      hide fs.cache.Valid, SlotOf, SlotsOf, Content, OthersSame, EnoughFree, Overwritten, Written;
      hide HollowGrowth, GapFilled, TookFirst, Taken, SameFields;
      ghost var c := Contents();
      NoGrowth(fs.freeMap.Contents(), |c|, ofs + ENTRY_SIZE);
      HollowIsShort(fs.freeMap.Contents(), |c|, Extension(|c|, ofs + ENTRY_SIZE));
      hide fs.Valid;
      SlotPlace(c, ofs, i);
      var w := fs.WriteAt(ino, e, ofs, denyWriteCnt, junk);
      if w.Unbacked? {
        return Unknown;
      }
      r := if w == Wrote(ENTRY_SIZE) then Done else Refused;
      if r.Done? {
        WriteSlot(c, Contents(), i, e);
      } else if denyWriteCnt == 0 {
        TailWritten(c, i, e);
      }
    }

    /** The disk has room for an entry at `ofs`. */
    ghost predicate HasRoom(ofs: nat)
      requires fs.Valid() && ino in fs.inodes && ino < |fs.cache.disk|
      reads this, fs, fs.cache, fs.freeMap.used.bits
    {
      EnoughFree(fs.freeMap.Contents(), |Contents()|, Extension(|Contents()|, ofs + ENTRY_SIZE))
    }

    /** The free sectors that an entry at `ofs` takes. */
    ghost function RoomTaken(ofs: nat): nat
      requires fs.Valid() && ino in fs.inodes && ino < |fs.cache.disk|
      reads this, fs, fs.cache, fs.freeMap.used.bits
    {
      Taken(fs.freeMap.Contents(), |Contents()|, Extension(|Contents()|, ofs + ENTRY_SIZE))
    }

    /** The directory file grows for an entry at `ofs`, but with a data sector that is not its own. */
    ghost predicate GrowsHollow(ofs: nat)
      requires fs.Valid() && ino in fs.inodes && ino < |fs.cache.disk|
      reads this, fs, fs.cache, fs.freeMap.used.bits
    {
      HollowGrowth(fs.freeMap.Contents(), |Contents()|, Extension(|Contents()|, ofs + ENTRY_SIZE))
    }

    /** Adds a binding of `name` to `sector`.  When the disk has no room for the entry, nothing is added, unless the
        growth of the directory is taken to be complete and is not: then nothing is known. */
    method Add(name: Name, sector: nat, stale: seq<byte>, denyWriteCnt: nat, junk: Sector) returns (r: DirResult)
      requires Valid() && 0 !in name && sector < WORD_LIMIT && |stale| == ENTRY_SIZE
      requires ENTRY_SIZE * FirstUnused(SlotsOf(Contents())) + ENTRY_SIZE <= MAX_BYTES
      modifies fs`owner, fs`readAhead, fs.cache, fs.freeMap.used.bits
      ensures ino < |fs.cache.disk| && (!r.Unknown? ==> Valid())
      ensures r.Done? <==>
                && 1 <= |name| <= 14 && name !in old(Map()) && denyWriteCnt == 0
                && old(HasRoom(ENTRY_SIZE * FirstUnused(SlotsOf(Contents()))))
      ensures r.Unknown? <==>
                && 1 <= |name| <= 14 && name !in old(Map()) && denyWriteCnt == 0
                && old(GrowsHollow(ENTRY_SIZE * FirstUnused(SlotsOf(Contents()))))
      ensures if 1 <= |name| <= 14 && name !in old(Map()) && denyWriteCnt == 0
              then TookFirst(old(fs.freeMap.Contents()), fs.freeMap.Contents(),
                             old(RoomTaken(ENTRY_SIZE * FirstUnused(SlotsOf(Contents())))))
              else fs.freeMap.Contents() == old(fs.freeMap.Contents())
      ensures r.Done? ==> Map() == old(Map())[name := sector]
      ensures r.Refused? ==> Map() == old(Map())
      ensures !r.Unknown? ==>
              fs.cache.View() == old(fs.cache.View()) ||
              OthersSame(old(fs.cache.View()), fs.cache.View(), fs.owner, fs.inodes, ino)
    {
      hide fs.Valid, fs.cache.Valid, SlotsOf, Content, Bindings, OthersSame, SlotOf, MakeEntry, EnoughFree, ProperNames;
      hide HollowGrowth, TookFirst, Taken;
      if name == [] || |name| > NAME_MAX {
        return Refused;
      }
      var found, _ := Lookup(name);
      if found.Some? {
        return Refused;
      }
      ghost var i;
      var ofs, e;
      ofs, e, i := FindFree(stale);
      MadeEntry(e, name, sector);
      AddBinding(SlotsOf(Contents()), i, name, sector);
      ProperAdded(SlotsOf(Contents()), i, Used(name, sector));
      r := WriteEntry(ofs, MakeEntry(e, name, sector), i, denyWriteCnt, junk);
    }

    /** Erases the binding of `name`.  `inodeOpens` tells whether the inode it leads to could be opened. */
    method Remove(name: Name, inodeOpens: bool, denyWriteCnt: nat, junk: Sector) returns (ok: bool)
      requires Valid()
      modifies fs`owner, fs`readAhead, fs.cache, fs.freeMap.used.bits
      ensures Valid()
      ensures ok <==> name in old(Map()) && inodeOpens && denyWriteCnt == 0
      ensures ok ==> Map() == old(Map()) - {name}
      ensures ok ==> OthersSame(old(fs.cache.View()), fs.cache.View(), fs.owner, fs.inodes, ino)
      ensures !ok ==> fs.cache.View() == old(fs.cache.View())
      ensures fs.freeMap.Contents() == old(fs.freeMap.Contents())
    {
      hide fs.Valid, fs.cache.Valid, SlotsOf, Content, Bindings, OthersSame, SlotOf, EnoughFree;
      var found, i := Lookup(name);
      if found.None? || !inodeOpens {
        return false;
      }
      var (e, ofs) := found.value;
      var erased := e[IN_USE_OFS := 0];
      ErasedEntry(e);
      EraseBinding(SlotsOf(Contents()), i);
      OverwriteRoom(i);
      ProperAdded(SlotsOf(Contents()), i, Unused);
      var written := WriteEntry(ofs, erased, i, denyWriteCnt, junk);
      ok := written.Done?;
    }

    /** Overwriting an existing entry needs no room. */
    lemma OverwriteRoom(i: nat)
      requires fs.Valid() && ino in fs.inodes && ino < |fs.cache.disk| && i < |SlotsOf(Contents())|
      ensures HasRoom(ENTRY_SIZE * i) && ENTRY_SIZE * i + ENTRY_SIZE <= MAX_BYTES
    {
      FileBounds(fs.cache.View(), fs.owner, ino);
      assert ENTRY_SIZE * i + ENTRY_SIZE <= |Contents()|;
    }

    /** The next name in use at or behind the reading position. */
    method ReadDir() returns (r: Option<Name>)
      requires Valid()
      modifies this`pos, fs`readAhead, fs.cache
      ensures Valid() && fs.cache.View() == old(fs.cache.View())
      ensures var ss := SlotsOf(Contents());
              && old(pos) / ENTRY_SIZE <= pos / ENTRY_SIZE <= |ss|
              && Listing(ss, old(pos) / ENTRY_SIZE)
                 == if r.Some? then [r.value] + Listing(ss, pos / ENTRY_SIZE) else []
      ensures r.None? ==> Listing(SlotsOf(Contents()), pos / ENTRY_SIZE) == []
    {
      hide fs.Valid, fs.cache.Valid, SlotsOf, Content, Bindings, SlotOf;
      ghost var ss := SlotsOf(Contents());
      ghost var i0 := pos / ENTRY_SIZE;
      ghost var i := i0;
      while true
        invariant Valid() && fs.cache.View() == old(fs.cache.View())
        invariant pos == ENTRY_SIZE * i && i0 <= i <= |ss|
        invariant Listing(ss, i) == Listing(ss, i0)
        decreases |old(Contents())| - pos
      {
        var e := ReadEntry(pos, i);
        if e.None? {
          return None;
        }
        SlotRead(e.value);
        pos, i := pos + ENTRY_SIZE, i + 1;
        if e.value[IN_USE_OFS] != 0 {
          return Some(UpToNul(e.value[NAME_OFS..IN_USE_OFS]));
        }
      }
    }

    /** Whether no name is in use: reads from the start through a handle of its own. */
    method IsEmpty() returns (empty: bool)
      requires Valid()
      modifies fs`readAhead, fs.cache
      ensures Valid() && fs.cache.View() == old(fs.cache.View())
      ensures empty <==> Map() == map[]
    {
      hide fs.Valid, fs.cache.Valid, SlotsOf, Content, Bindings, Listing;
      var copy := new Directory.Open(fs, ino);
      var r := copy.ReadDir();
      empty := r.None?;
      ListingComplete(SlotsOf(Contents()));
      EmptyListing(SlotsOf(Contents()));
    }
  }

  lemma ProperAdded(ss: seq<DirSlot>, i: nat, slot: DirSlot)
    requires ProperNames(ss) && i <= |ss| && (slot.Used? ==> 1 <= |slot.name| <= NAME_MAX)
    ensures ProperNames(if i < |ss| then ss[i := slot] else ss + [slot])
  {
  }

  lemma NoGrowth(free: seq<bool>, length: nat, end: nat)
    ensures end <= length ==>
            EnoughFree(free, length, Extension(length, end)) && !HollowGrowth(free, length, Extension(length, end))
  {
    NothingToGrow(free, length);
  }

  lemma SlotPlace(c: seq<byte>, ofs: nat, i: nat)
    requires ofs == ENTRY_SIZE * i && i <= |SlotsOf(c)|
    ensures ofs <= |c| && (i == |SlotsOf(c)| ==> |c| < ofs + ENTRY_SIZE)
            && (i < |SlotsOf(c)| ==> ofs + ENTRY_SIZE <= |c|)
  {
    assert ENTRY_SIZE == 20;
  }

  /** Bytes behind the last complete entry are no part of the directory. */
  lemma TailWritten(c: seq<byte>, i: nat, e: seq<byte>)
    requires |e| == ENTRY_SIZE && ENTRY_SIZE * i <= |c| < ENTRY_SIZE * i + ENTRY_SIZE
    ensures |Overwritten(c, ENTRY_SIZE * i, e)| == |c| && SlotsOf(Overwritten(c, ENTRY_SIZE * i, e)) == SlotsOf(c)
  {
    var c' := Overwritten(c, ENTRY_SIZE * i, e);
    forall j | 0 <= j < |c| / ENTRY_SIZE ensures EntryAt(c', j) == EntryAt(c, j) {
      assert ENTRY_SIZE * j + ENTRY_SIZE <= ENTRY_SIZE * i;
    }
  }

  // ----- Creating a directory -----

  /** A directory file that binds no name. */
  ghost predicate EmptyDirectory(c: seq<byte>) {
    UniqueNames(SlotsOf(c)) && ProperNames(SlotsOf(c)) && Bindings(SlotsOf(c)) == map[]
  }

  /** The in-use flag of entry `i` in the free sectors that a new file is made of. */
  ghost function FreshFlag(v: seq<Sector>, map0: seq<bool>, i: nat): byte {
    FreshByte(v, map0, ENTRY_SIZE * i + IN_USE_OFS)
  }

  /** The flags of the first `n` entries there are all 0. */
  ghost predicate CleanEntries(v: seq<Sector>, map0: seq<bool>, n: nat) {
    forall i :: 0 <= i < n ==> FreshFlag(v, map0, i) == 0
  }

  /** Makes a directory with space for `entryCnt` entries out of sector `sector`, which the free map has given out.
      The sectors are not cleared, so that what they held decides whether it is empty. */
  method Create(fs: FileSystem, sector: nat, entryCnt: nat, parent: nat, junk: Sector)
    returns (ok: bool, ghost sound: bool)
    requires fs.Valid() && sector < |fs.cache.disk| && sector !in fs.owner && fs.freeMap.Contents()[sector]
    requires ENTRY_SIZE * entryCnt <= MAX_BYTES && parent < WORD_LIMIT
    modifies fs`owner, fs`inodes, fs.cache, fs.freeMap.used.bits
    ensures fs.inodes == old(fs.inodes) + {sector} && sector < |fs.cache.disk| && (sound ==> fs.Valid())
    ensures OthersSame(old(fs.cache.View()), fs.cache.View(), fs.owner, old(fs.inodes), sector)
    ensures ok && sound <==> EnoughFree(old(fs.freeMap.Contents()), 0, ENTRY_SIZE * entryCnt)
    ensures TookFirst(old(fs.freeMap.Contents()), fs.freeMap.Contents(),
                      Taken(old(fs.freeMap.Contents()), 0, ENTRY_SIZE * entryCnt))
    ensures var h := fs.cache.View()[sector]; WordAt(h, PARENT_OFS) == parent && h[IS_DIR_OFS] != 0
    ensures ok && sound ==>
            (EmptyDirectory(Content(fs.cache.View(), sector)) <==>
             CleanEntries(old(fs.cache.View()), old(fs.freeMap.Contents()), entryCnt))
    ensures !ok || entryCnt == 0 ==> sound && EmptyDirectory(Content(fs.cache.View(), sector))
  {
    NothingToGrow(fs.freeMap.Contents(), 0);
    hide fs.Valid, fs.cache.Valid, OthersSame, EnoughFree, HollowGrowth, Content, FreshByte, TookFirst, Taken, WordAt;
    ok, sound := fs.Create(sector, ENTRY_SIZE * entryCnt, true, parent, junk);
    if ok && sound {
      CreatedEmpty(old(fs.cache.View()), old(fs.freeMap.Contents()), Content(fs.cache.View(), sector), entryCnt);
    } else if sound {
      CreatedEmpty([], [], Content(fs.cache.View(), sector), 0);
    }
  }

  lemma CreatedEmpty(v: seq<Sector>, map0: seq<bool>, c: seq<byte>, n: nat)
    requires |c| == ENTRY_SIZE * n && forall p :: 0 <= p < |c| ==> c[p] == FreshByte(v, map0, p)
    ensures EmptyDirectory(c) <==> CleanEntries(v, map0, n)
  {
    hide FreshByte, UpToNul;
    EmptyMeans(c);
    assert |c| / ENTRY_SIZE == n;
    forall i | 0 <= i < n ensures EntryAt(c, i)[IN_USE_OFS] == FreshFlag(v, map0, i) {
      assert ENTRY_SIZE * i + ENTRY_SIZE <= |c|;
    }
  }

  lemma EmptyMeans(c: seq<byte>)
    ensures EmptyDirectory(c) <==> forall i :: 0 <= i < |c| / ENTRY_SIZE ==> EntryAt(c, i)[IN_USE_OFS] == 0
  {
    var ss := SlotsOf(c);
    assert forall i :: 0 <= i < |ss| ==> ss[i] == SlotOf(EntryAt(c, i));
    if UniqueNames(ss) {
      BindingsAre(ss);
    }
  }

  /** The first 25 entries lie in one sector, the first free one. */
  lemma FirstSectorDecides(v: seq<Sector>, map0: seq<bool>, i: nat)
    requires i < 25 && |v| == |map0| && CountFree(map0) > 0
    ensures FreshFlag(v, map0, i) == v[NthFree(map0, 0)][ENTRY_SIZE * i + IN_USE_OFS]
  {
    var p := ENTRY_SIZE * i + IN_USE_OFS;
    assert p / SECTOR_SIZE == 0 && p % SECTOR_SIZE == p;
    assert TotalSectors(1) == 1;
  }

  /** On a disk of four sectors, formatted as far as the file of the free map, the root directory of 16 entries is
      made of the last sector, whatever that holds. */
  lemma StaleRootDirectory(v: seq<Sector>)
    requires |v| == 4 && v[3][IN_USE_OFS] != 0
    ensures var map0 := [true, true, true, false];
            EnoughFree(map0, 0, ENTRY_SIZE * 16) && !CleanEntries(v, map0, 16)
  {
    var map0 := [true, true, true, false];
    NoneFree(map0);
    FirstSectorDecides(v, map0, 0);
    assert FreshFlag(v, map0, 0) != 0;
  }

  lemma SlotRead(e: seq<byte>)
    requires |e| == ENTRY_SIZE
    ensures if e[IN_USE_OFS] == 0 then SlotOf(e) == Unused
            else SlotOf(e).Used? && SlotOf(e).name == UpToNul(e[NAME_OFS..IN_USE_OFS])
  {
  }

  lemma ErasedEntry(e: seq<byte>)
    requires |e| == ENTRY_SIZE
    ensures SlotOf(e[IN_USE_OFS := 0]) == Unused
  {
  }

  lemma EmptyListing(ss: seq<DirSlot>)
    requires UniqueNames(ss)
    ensures Listing(ss, 0) == [] <==> Bindings(ss) == map[]
  {
    ListingComplete(ss);
    if Listing(ss, 0) != [] {
      assert Listing(ss, 0)[0] in Bindings(ss);
    } else {
      assert forall name :: name !in Bindings(ss);
    }
  }
}
