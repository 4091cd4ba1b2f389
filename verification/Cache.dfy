/**
  The write-back sector cache (`filesys/cache.c`): at most 64 sectors, kept in
  order of use, the least recently used one at the front.

  The cache is meant to be invisible.  `View` is what a client sees: the cached
  copy of a sector if there is one, the disk's copy otherwise.
 */
module SectorCaches {
  import opened Wrappers
  import opened Disks

  const CACHE_MAX := 64

  datatype Entry = Entry(sector: nat, buffer: Sector, dirty: bool)

  // ----- The entry list -----

  /** The position of the first entry for sector `s`. */
  ghost function Find(es: seq<Entry>, s: nat): (r: Option<nat>)
    ensures r.Some? ==> r.value < |es| && es[r.value].sector == s
    ensures r.Some? ==> forall i :: 0 <= i < r.value ==> es[i].sector != s
    ensures r.None? ==> forall i :: 0 <= i < |es| ==> es[i].sector != s
  {
    if es == [] then None
    else if es[0].sector == s then Some(0)
    else match Find(es[1..], s)
         case None => None
         case Some(i) => Some(i + 1)
  }

  ghost predicate DistinctSectors(es: seq<Entry>) {
    forall i, j :: 0 <= i < j < |es| ==> es[i].sector != es[j].sector
  }

  /** Every entry caches a sector of the disk, no sector twice, and a clean entry agrees with the disk. */
  ghost predicate Coherent(es: seq<Entry>, disk: seq<Sector>) {
    && DistinctSectors(es)
    && (forall i :: 0 <= i < |es| ==> es[i].sector < |disk|)
    && (forall i :: 0 <= i < |es| ==> (!es[i].dirty ==> es[i].buffer == disk[es[i].sector]))
  }

  ghost function ViewAt(es: seq<Entry>, disk: seq<Sector>, s: nat): Sector
    requires s < |disk|
  {
    match Find(es, s)
    case Some(i) => es[i].buffer
    case None => disk[s]
  }

  ghost function ViewOf(es: seq<Entry>, disk: seq<Sector>): (v: seq<Sector>)
    ensures |v| == |disk|
  {
    seq(|disk|, s requires 0 <= s < |disk| => ViewAt(es, disk, s))
  }

  /** With distinct sectors the view of a cached sector is its one buffer, wherever the entry stands. */
  lemma ViewCached(es: seq<Entry>, disk: seq<Sector>, i: nat)
    requires DistinctSectors(es) && i < |es| && es[i].sector < |disk|
    ensures ViewAt(es, disk, es[i].sector) == es[i].buffer
  {
    assert Find(es, es[i].sector).value == i;
  }

  lemma ViewUncached(es: seq<Entry>, disk: seq<Sector>, s: nat)
    requires s < |disk| && forall i :: 0 <= i < |es| ==> es[i].sector != s
    ensures ViewAt(es, disk, s) == disk[s]
  {
  }

  /** The entries with the one at `i` moved to the back. */
  function MoveToBack(es: seq<Entry>, i: nat): (r: seq<Entry>)
    requires i < |es|
    ensures |r| == |es|
    ensures forall j :: 0 <= j < |es| ==> r[j] == if j < i then es[j] else if j < |es| - 1 then es[j + 1] else es[i]
  {
    es[..i] + es[i + 1..] + [es[i]]
  }

  lemma MoveToBackView(es: seq<Entry>, disk: seq<Sector>, i: nat)
    requires Coherent(es, disk) && i < |es|
    ensures Coherent(MoveToBack(es, i), disk)
    ensures ViewOf(MoveToBack(es, i), disk) == ViewOf(es, disk)
  {
    var r := MoveToBack(es, i);
    forall s | 0 <= s < |disk| ensures ViewAt(r, disk, s) == ViewAt(es, disk, s) {
      match Find(es, s)
      case None => ViewUncached(r, disk, s);
      case Some(k) =>
        var k' := if k < i then k else if k == i then |es| - 1 else k - 1;
        assert r[k'] == es[k];
        ViewCached(r, disk, k');
    }
  }

  /** Writing entry `i` back to the disk changes neither coherence nor the view. */
  lemma WriteBackView(es: seq<Entry>, disk: seq<Sector>, i: nat)
    requires Coherent(es, disk) && i < |es|
    ensures var es' := es[i := es[i].(dirty := false)]; var disk' := disk[es[i].sector := es[i].buffer];
            Coherent(es', disk') && ViewOf(es', disk') == ViewOf(es, disk)
  {
    var es' := es[i := es[i].(dirty := false)];
    var disk' := disk[es[i].sector := es[i].buffer];
    forall s | 0 <= s < |disk| ensures ViewAt(es', disk', s) == ViewAt(es, disk, s) {
      match Find(es, s)
      case None => ViewUncached(es', disk', s);
      case Some(k) =>
        ViewCached(es', disk', k);
    }
  }

  /** Dropping a clean front entry changes neither coherence nor the view. */
  lemma DropCleanView(es: seq<Entry>, disk: seq<Sector>)
    requires Coherent(es, disk) && |es| > 0 && !es[0].dirty
    ensures Coherent(es[1..], disk) && ViewOf(es[1..], disk) == ViewOf(es, disk)
  {
    forall s | 0 <= s < |disk| ensures ViewAt(es[1..], disk, s) == ViewAt(es, disk, s) {
      match Find(es, s)
      case None => ViewUncached(es[1..], disk, s);
      case Some(k) =>
        if k == 0 {
          ViewUncached(es[1..], disk, s);
        } else {
          ViewCached(es[1..], disk, k - 1);
        }
    }
  }

  /** A new entry at the back shows its buffer for its own sector and hides nothing else. */
  lemma AppendView(es: seq<Entry>, disk: seq<Sector>, e: Entry)
    requires Coherent(es, disk) && e.sector < |disk| && Find(es, e.sector).None?
    requires e.dirty || e.buffer == disk[e.sector]
    ensures Coherent(es + [e], disk)
    ensures ViewOf(es + [e], disk) == ViewOf(es, disk)[e.sector := e.buffer]
  {
    forall s | 0 <= s < |disk| ensures ViewAt(es + [e], disk, s) == ViewOf(es, disk)[e.sector := e.buffer][s] {
      if s == e.sector {
        ViewCached(es + [e], disk, |es|);
      } else {
        match Find(es, s)
        case None => ViewUncached(es + [e], disk, s);
        case Some(k) => ViewCached(es + [e], disk, k);
      }
    }
  }

  /** Overwriting the buffer of the last entry shows exactly the new buffer. */
  lemma OverwriteView(es: seq<Entry>, disk: seq<Sector>, b: Sector)
    requires Coherent(es, disk) && |es| > 0
    ensures var n := |es| - 1; var es' := es[n := Entry(es[n].sector, b, true)];
            Coherent(es', disk) && ViewOf(es', disk) == ViewOf(es, disk)[es[n].sector := b]
  {
    var n := |es| - 1;
    var es' := es[n := Entry(es[n].sector, b, true)];
    forall s | 0 <= s < |disk| ensures ViewAt(es', disk, s) == ViewOf(es, disk)[es[n].sector := b][s] {
      match Find(es, s)
      case None => ViewUncached(es', disk, s);
      case Some(k) => ViewCached(es', disk, k);
    }
  }

  // ----- Least recently used -----

  function Without(r: seq<nat>, x: nat): (q: seq<nat>)
    ensures x !in r ==> q == r
  {
    if r == [] then [] else (if r[0] == x then [] else [r[0]]) + Without(r[1..], x)
  }

  /** The sectors accessed in `history`, each once, in order of last access. */
  function Recent(history: seq<nat>): seq<nat> {
    if history == [] then []
    else var n := |history| - 1; Without(Recent(history[..n]), history[n]) + [history[n]]
  }

  /** The last 64 elements. */
  function Newest(r: seq<nat>): seq<nat> {
    if |r| <= CACHE_MAX then r else r[|r| - CACHE_MAX..]
  }

  function SectorsOf(es: seq<Entry>): (r: seq<nat>)
    ensures |r| == |es|
  {
    seq(|es|, i requires 0 <= i < |es| => es[i].sector)
  }

  lemma {:induction false} WithoutConcat(a: seq<nat>, b: seq<nat>, x: nat)
    ensures Without(a + b, x) == Without(a, x) + Without(b, x)
  {
    if a == [] {
      assert a + b == b;
    } else {
      assert (a + b)[1..] == a[1..] + b;
      WithoutConcat(a[1..], b, x);
    }
  }

  lemma NewestOf(w: seq<nat>, t: seq<nat>)
    requires |t| == CACHE_MAX || (w == [] && |t| < CACHE_MAX)
    ensures Newest(w + t) == t
  {
    assert (w + t)[|w|..] == t;
  }

  lemma {:induction false} WithoutMiddle(q: seq<nat>, i: nat)
    requires i < |q| && forall j :: 0 <= j < |q| && j != i ==> q[j] != q[i]
    ensures Without(q, q[i]) == q[..i] + q[i + 1..]
  {
    if i == 0 {
      assert q[0] !in q[1..];
    } else {
      WithoutMiddle(q[1..], i - 1);
      assert q[..i] == [q[0]] + q[1..][..i - 1];
      assert q[1..][i..] == q[i + 1..];
    }
  }

  /** Touching one of the newest sectors moves it behind the others. */
  lemma NewestTouched(r: seq<nat>, i: nat)
    requires i < |Newest(r)| && forall j :: 0 <= j < |Newest(r)| && j != i ==> Newest(r)[j] != Newest(r)[i]
    ensures var q := Newest(r); Newest(Without(r, q[i]) + [q[i]]) == q[..i] + q[i + 1..] + [q[i]]
  {
    var q := Newest(r);
    var pre := r[..|r| - |q|];
    assert r == pre + q;
    WithoutConcat(pre, q, q[i]);
    WithoutMiddle(q, i);
    var t := q[..i] + q[i + 1..] + [q[i]];
    assert Without(r, q[i]) + [q[i]] == Without(pre, q[i]) + t;
    NewestOf(Without(pre, q[i]), t);
  }

  lemma Regroup(a: seq<nat>, h: nat, t: seq<nat>, x: nat)
    ensures (a + ([h] + t)) + [x] == (a + [h]) + (t + [x])
  {
  }

  /** Touching any other sector puts it behind them and pushes the oldest of 64 out. */
  lemma NewestAdded(r: seq<nat>, x: nat)
    requires x !in Newest(r)
    ensures var q := Newest(r);
            Newest(Without(r, x) + [x]) == (if |q| == CACHE_MAX then q[1..] else q) + [x]
  {
    var q := Newest(r);
    var pre := r[..|r| - |q|];
    assert r == pre + q;
    WithoutConcat(pre, q, x);
    if |q| == CACHE_MAX {
      assert q == [q[0]] + q[1..];
      Regroup(Without(pre, x), q[0], q[1..], x);
      NewestOf(Without(pre, x) + [q[0]], q[1..] + [x]);
    } else {
      assert Without(r, x) + [x] == [] + (q + [x]);
      NewestOf([], q + [x]);
    }
  }

  lemma SectorsMoved(es: seq<Entry>, i: nat)
    requires i < |es|
    ensures var q := SectorsOf(es); SectorsOf(MoveToBack(es, i)) == q[..i] + q[i + 1..] + [q[i]]
  {
  }

  lemma SectorsAppended(es: seq<Entry>, e: Entry)
    ensures SectorsOf(es + [e]) == SectorsOf(es) + [e.sector]
  {
  }

  lemma RecentStep(h: seq<nat>, x: nat)
    ensures Recent(h + [x]) == Without(Recent(h), x) + [x]
  {
    assert (h + [x])[..|h|] == h;
  }

  /** Touching a cached sector: moving its entry to the back follows the order of last access. */
  lemma TouchHit(h: seq<nat>, es: seq<Entry>, i: nat)
    requires DistinctSectors(es) && i < |es|
    requires SectorsOf(es) == Newest(Recent(h))
    ensures SectorsOf(MoveToBack(es, i)) == Newest(Recent(h + [es[i].sector]))
  {
    RecentStep(h, es[i].sector);
    NewestTouched(Recent(h), i);
    SectorsMoved(es, i);
  }

  /** Touching an uncached sector: the one dropped to make room is the one accessed longest ago. */
  lemma TouchMiss(h: seq<nat>, es: seq<Entry>, e: Entry)
    requires e.sector !in SectorsOf(es)
    requires SectorsOf(es) == Newest(Recent(h))
    ensures SectorsOf((if |es| == CACHE_MAX then es[1..] else es) + [e]) == Newest(Recent(h + [e.sector]))
  {
    RecentStep(h, e.sector);
    NewestAdded(Recent(h), e.sector);
    if |es| == CACHE_MAX {
      SectorsAppended(es[1..], e);
      assert SectorsOf(es[1..]) == SectorsOf(es)[1..];
    } else {
      SectorsAppended(es, e);
    }
  }

  // ----- The cache -----

  class SectorCache {
    var disk: seq<Sector>
    var entries: seq<Entry>
    /** Every sector accessed since the cache was last emptied, in order. */
    ghost var history: seq<nat>

    ghost predicate Valid()
      reads this
    {
      && |entries| <= CACHE_MAX
      && Coherent(entries, disk)
      && SectorsOf(entries) == Newest(Recent(history))
    }

    ghost function View(): (v: seq<Sector>)
      reads this
      ensures |v| == |disk|
    {
      ViewOf(entries, disk)
    }

    constructor (contents: seq<Sector>)
      ensures Valid() && View() == contents && disk == contents && history == []
    {
      disk, entries, history := contents, [], [];
      new;
      assert ViewOf([], disk) == disk;
    }

    /** Looks `sec` up and, if it is cached, makes it the most recently used entry. */
    method FindCache(sec: nat) returns (found: bool)
      requires Valid()
      modifies this
      ensures Valid() && disk == old(disk) && View() == old(View())
      ensures found == Find(old(entries), sec).Some?
      ensures found ==> entries != [] && entries[|entries| - 1].sector == sec && history == old(history) + [sec]
      ensures !found ==> entries == old(entries) && history == old(history)
    {
      for i := 0 to |entries|
        invariant entries == old(entries) && history == old(history)
        invariant forall j :: 0 <= j < i ==> entries[j].sector != sec
      {
        if entries[i].sector == sec {
          MoveToBackView(entries, disk, i);
          TouchHit(history, entries, i);
          entries := MoveToBack(entries, i);
          history := history + [sec];
          return true;
        }
      }
      return false;
    }

    /** Writes entry `i` back to the disk if it is dirty. */
    method WriteBehind(i: nat)
      requires Coherent(entries, disk) && i < |entries|
      modifies this
      ensures Coherent(entries, disk) && View() == old(View()) && |disk| == |old(disk)| && history == old(history)
      ensures SectorsOf(entries) == SectorsOf(old(entries))
      ensures entries == old(entries)[i := old(entries)[i].(dirty := false)]
    {
      if entries[i].dirty {
        WriteBackView(entries, disk, i);
        disk := disk[entries[i].sector := entries[i].buffer];
        entries := entries[i := entries[i].(dirty := false)];
      }
      assert SectorsOf(entries) == SectorsOf(old(entries));
    }

    /** Drops the least recently used entry, after writing it back if it is dirty. */
    method EvictCache()
      requires Coherent(entries, disk) && entries != []
      modifies this
      ensures Coherent(entries, disk) && View() == old(View()) && |disk| == |old(disk)|
      ensures entries == old(entries)[1..] && history == old(history)
    {
      WriteBehind(0);
      DropCleanView(entries, disk);
      entries := entries[1..];
    }

    /** Makes room for `sec` and appends its entry with the buffer it will hold next. */
    method MakeCache(sec: nat, dirty: bool, buffer: Sector)
      requires Valid() && sec < |disk| && Find(entries, sec).None?
      requires dirty || buffer == View()[sec]
      modifies this
      ensures Valid() && View() == old(View())[sec := buffer] && |disk| == |old(disk)|
      ensures entries != [] && entries[|entries| - 1] == Entry(sec, buffer, dirty)
      ensures history == old(history) + [sec]
      ensures |entries| == if |old(entries)| == 64 then 64 else |old(entries)| + 1
    {
      var e := Entry(sec, buffer, dirty);
      assert sec !in SectorsOf(entries);
      TouchMiss(history, entries, e);
      ViewUncached(entries, disk, sec);
      hide Recent, Newest, Coherent, ViewAt;
      if |entries| >= CACHE_MAX {
        EvictCache();
        assert Find(entries, sec).None?;
        ViewUncached(entries, disk, sec);
      }
      AppendView(entries, disk, e);
      entries := entries + [e];
      history := history + [sec];
    }

    method Read(sec: nat, ofs: nat, size: nat) returns (data: seq<byte>)
      requires Valid() && sec < |disk| && ofs + size <= SECTOR_SIZE
      modifies this
      ensures Valid() && View() == old(View()) && |disk| == |old(disk)|
      ensures data == View()[sec][ofs..ofs + size]
      ensures history == old(history) + [sec]
    {
      var found := FindCache(sec);
      if !found {
        ViewUncached(entries, disk, sec);
        MakeCache(sec, false, disk[sec]);
      }
      var last := |entries| - 1;
      ViewCached(entries, disk, last);
      data := entries[last].buffer[ofs..ofs + size];
    }

    /** Replaces the buffer of the entry just found or made. */
    method Overwrite(buffer: Sector)
      requires Valid() && entries != []
      modifies this
      ensures Valid() && disk == old(disk) && history == old(history)
      ensures View() == old(View())[old(entries)[|old(entries)| - 1].sector := buffer]
    {
      var last := |entries| - 1;
      OverwriteView(entries, disk, buffer);
      entries := entries[last := Entry(entries[last].sector, buffer, true)];
      assert SectorsOf(entries) == SectorsOf(old(entries));
    }

    /** Brings the entry for `sec` to the back before a write of `size` bytes at `ofs`. */
    method FetchForWrite(sec: nat, ofs: nat, size: nat)
      requires Valid() && sec < |disk| && ofs + size <= SECTOR_SIZE
      modifies this
      ensures Valid() && |disk| == |old(disk)| && history == old(history) + [sec]
      ensures entries != [] && entries[|entries| - 1].sector == sec
      ensures forall s :: 0 <= s < |disk| && s != sec ==> View()[s] == old(View())[s]
      ensures ofs > 0 || size < SECTOR_SIZE ==> View() == old(View())
    {
      hide Coherent, Recent, Newest, SectorsOf;
      var found := FindCache(sec);
      if !found {
        // The buffer of a fresh entry holds arbitrary bytes until it is read or overwritten.
        var buffer: Sector := *;
        ViewUncached(entries, disk, sec);
        if ofs > 0 || size < SECTOR_SIZE {
          buffer := disk[sec];
        }
        MakeCache(sec, true, buffer);
      }
    }

    method Write(sec: nat, ofs: nat, data: seq<byte>)
      requires Valid() && sec < |disk| && ofs + |data| <= SECTOR_SIZE
      modifies this
      ensures Valid() && |disk| == |old(disk)|
      ensures View() == old(View())[sec := Splice(old(View())[sec], ofs, data)]
      ensures history == old(history) + [sec]
    {
      FetchForWrite(sec, ofs, |data|);
      var last := |entries| - 1;
      ViewCached(entries, disk, last);
      Overwrite(Splice(entries[last].buffer, ofs, data));
    }

    /** One sweep of the write-behind thread: afterwards the disk holds everything. */
    method WriteBehindAll()
      requires Valid()
      modifies this
      ensures Valid() && View() == old(View()) && disk == View() && history == old(history)
    {
      for i := 0 to |entries|
        invariant Valid() && View() == old(View()) && history == old(history)
        invariant |entries| == |old(entries)|
        invariant forall j :: 0 <= j < i ==> !entries[j].dirty
      {
        WriteBehind(i);
      }
    }

    /** Empties the cache at shutdown: afterwards the disk alone is what clients saw. */
    method Destroy()
      requires Valid()
      modifies this
      ensures Valid() && entries == [] && history == []
      ensures disk == old(View())
    {
      ghost var view := View();
      while entries != []
        invariant Coherent(entries, disk) && View() == view
        decreases |entries|
      {
        EvictCache();
      }
      history := [];
      assert ViewOf([], disk) == disk;
    }
  }
}
