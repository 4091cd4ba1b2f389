/** The map of free disk sectors (`filesys/free-map.c`): one bit per sector, on when the sector is in use. */
module FreeMaps {
  import opened Wrappers
  import opened Bitmaps

  /** How many sectors are free. */
  function CountFree(s: seq<bool>): nat {
    if s == [] then 0 else (if s[0] then 0 else 1) + CountFree(s[1..])
  }

  lemma {:induction false} TakeOne(s: seq<bool>, i: nat)
    requires i < |s| && !s[i]
    ensures CountFree(s[i := true]) == CountFree(s) - 1
  {
    if i == 0 {
      assert s[0 := true][1..] == s[1..];
    } else {
      assert s[i := true][1..] == s[1..][i - 1 := true];
      TakeOne(s[1..], i - 1);
    }
  }

  lemma {:induction false} NoneFree(s: seq<bool>)
    ensures CountFree(s) == 0 <==> forall i :: 0 <= i < |s| ==> s[i]
  {
    if s != [] {
      NoneFree(s[1..]);
      if CountFree(s[1..]) == 0 {
        assert forall i :: 1 <= i < |s| ==> s[i] == s[1..][i - 1];
      } else {
        var j :| 0 <= j < |s[1..]| && !s[1..][j];
        assert !s[j + 1];
      }
    }
  }

  /** A request for one sector fails exactly when no sector is free, and otherwise uses up one. */
  lemma OneSector(s: seq<bool>, r: Option<nat>)
    requires FirstFit(s, 0, 1, false, r)
    ensures r.None? <==> CountFree(s) == 0
    ensures r.Some? ==> r.value < |s| && !s[r.value] && Fill(s, r.value, 1, true) == s[r.value := true]
    ensures r.Some? ==> CountFree(s[r.value := true]) == CountFree(s) - 1
    ensures r.Some? ==> forall i :: 0 <= i < r.value ==> s[i]
  {
    NoneFree(s);
    if r.Some? {
      forall i | 0 <= i < r.value ensures s[i] {
        assert !IsGroup(s, i, 1, false);
      }
    }
    if r.Some? {
      assert !s[r.value];
      TakeOne(s, r.value);
    } else if CountFree(s) != 0 {
      var i :| 0 <= i < |s| && !s[i];
      assert IsGroup(s, i, 1, false);
    }
  }

  // ----- The order in which sectors are taken -----

  /** The free sector that has `r` free sectors in front of it. */
  function NthFree(m: seq<bool>, r: nat): (s: nat)
    requires r < CountFree(m)
    ensures s < |m| && !m[s] && CountFree(m[..s]) == r
  {
    if m[0] then
      var s := NthFree(m[1..], r);
      assert m[..s + 1][1..] == m[1..][..s];
      s + 1
    else if r == 0 then 0
    else
      var s := NthFree(m[1..], r - 1);
      assert m[..s + 1][1..] == m[1..][..s];
      s + 1
  }

  /** `s` is the free sector number `r`, counted from 0. */
  ghost predicate IsNth(m: seq<bool>, s: nat, r: int) {
    0 <= r < CountFree(m) && s == NthFree(m, r)
  }

  lemma {:induction false} CountSplit(m: seq<bool>, i: nat)
    requires i <= |m|
    ensures CountFree(m) == CountFree(m[..i]) + CountFree(m[i..])
  {
    if i == 0 {
      assert m[0..] == m;
    } else {
      CountSplit(m[1..], i - 1);
      assert m[1..][..i - 1] == m[..i][1..] && m[1..][i - 1..] == m[i..];
    }
  }

  lemma CountBelow(m: seq<bool>, s: nat, t: nat)
    requires s < t <= |m| && !m[s]
    ensures CountFree(m[..s]) < CountFree(m[..t])
  {
    CountSplit(m[..t], s);
    assert m[..t][..s] == m[..s] && !m[..t][s..][0];
  }

  lemma NthUnique(m: seq<bool>, s: nat)
    requires s < |m| && !m[s]
    ensures IsNth(m, s, CountFree(m[..s]))
  {
    CountSplit(m, s);
    var r := CountFree(m[..s]);
    var t := NthFree(m, r);
    if s < t {
      CountBelow(m, s, t);
    } else if t < s {
      CountBelow(m, t, s);
    }
  }

  /** Behind a sector that is still free in `m1` nothing has been taken from `m0`. */
  ghost predicate InOrder(m0: seq<bool>, m1: seq<bool>) {
    |m1| == |m0| && forall s, t :: 0 <= s <= t < |m0| && !m1[s] ==> m1[t] == m0[t]
  }

  lemma SameInOrder(m: seq<bool>)
    ensures InOrder(m, m)
  {
  }

  lemma InOrderTrans(m0: seq<bool>, m1: seq<bool>, m2: seq<bool>)
    requires InOrder(m0, m1) && InOrder(m1, m2)
    ensures InOrder(m0, m2)
  {
  }

  lemma FirstInOrder(m: seq<bool>, s: nat)
    requires s < |m| && !m[s] && forall i :: 0 <= i < s ==> m[i]
    ensures InOrder(m, m[s := true]) && IsNth(m, s, 0)
  {
    NoneFree(m[..s]);
    NthUnique(m, s);
  }

  /** Taking sectors in order takes the free ones from the first on. */
  lemma NthBefore(m0: seq<bool>, m1: seq<bool>, s: nat, r: int)
    requires InOrder(m0, m1) && IsNth(m1, s, r)
    ensures IsNth(m0, s, r + CountFree(m0) - CountFree(m1))
  {
    assert m0[s..] == m1[s..];
    CountSplit(m0, s);
    CountSplit(m1, s);
    NthUnique(m0, s);
  }

  lemma NoneLeftInOrder(m0: seq<bool>, m1: seq<bool>)
    requires |m1| == |m0| && CountFree(m1) == 0
    ensures InOrder(m0, m1)
  {
    NoneFree(m1);
  }

  /** The first `t` free sectors of `m0`, and no others, have been taken. */
  ghost predicate TookFirst(m0: seq<bool>, m1: seq<bool>, t: nat) {
    && |m1| == |m0| && CountFree(m1) == CountFree(m0) - t
    && forall s :: 0 <= s < |m0| ==> (m1[s] <==> m0[s] || CountFree(m0[..s]) < t)
  }

  lemma {:induction false} CountMono(m0: seq<bool>, m1: seq<bool>)
    requires |m1| == |m0| && forall s :: 0 <= s < |m0| && m0[s] ==> m1[s]
    ensures CountFree(m1) <= CountFree(m0)
  {
    if m0 != [] {
      CountMono(m0[1..], m1[1..]);
    }
  }

  /** Sectors taken in order are the first ones. */
  lemma InOrderTook(m0: seq<bool>, m1: seq<bool>)
    requires InOrder(m0, m1)
    ensures CountFree(m1) <= CountFree(m0) && TookFirst(m0, m1, CountFree(m0) - CountFree(m1))
  {
    CountMono(m0, m1);
    forall s | 0 <= s < |m0| ensures m1[s] <==> m0[s] || CountFree(m0[..s]) < CountFree(m0) - CountFree(m1) {
      CountSplit(m0, s);
      CountSplit(m1, s);
      if !m1[s] {
        assert m0[s..] == m1[s..];
      } else if !m0[s] {
        var u := m1[..s + 1];
        assert forall t :: 0 <= t < |u| ==> u[t];
        NoneFree(u);
        CountSplit(m1, s + 1);
        CountSplit(m0, s + 1);
        CountMono(m0[s + 1..], m1[s + 1..]);
        CountBelow(m0, s, s + 1);
      }
    }
  }

  lemma TookNone(m0: seq<bool>, m1: seq<bool>)
    requires TookFirst(m0, m1, 0)
    ensures m1 == m0
  {
  }

  class FreeMap {
    const used: Bitmap

    ghost predicate Valid() { used.Valid() }

    ghost function Contents(): (s: seq<bool>)
      requires Valid()
      reads used.bits
      ensures |s| == used.bitCnt
    {
      used.Contents()
    }

    constructor (sectors: nat, freeMapSector: nat, rootDirSector: nat)
      requires freeMapSector < sectors && rootDirSector < sectors
      ensures Valid() && fresh(used) && fresh(used.bits) && used.bitCnt == sectors
      ensures Contents() == seq(sectors, _ => false)[freeMapSector := true][rootDirSector := true]
    {
      used := new Bitmap(sectors);
      new;
      used.Mark(freeMapSector);
      used.Mark(rootDirSector);
    }

    /** Allocates `cnt` consecutive sectors.  `persisted` tells whether writing the changed map to its
        file succeeds; if it does not, the sectors are given back. */
    method Allocate(cnt: nat, persisted: bool) returns (r: Option<nat>)
      requires Valid()
      modifies used.bits
      ensures r.Some? ==> FirstFit(old(Contents()), 0, cnt, false, r)
                          && Contents() == Fill(old(Contents()), r.value, cnt, true)
      ensures r.None? ==> Contents() == old(Contents())
      ensures r.None? <==> !persisted || FirstFit(old(Contents()), 0, cnt, false, None)
    {
      r := used.ScanAndFlip(0, cnt, false);
      if r.Some? && !persisted {
        used.SetMultiple(r.value, cnt, false);
        TakeThenRelease(old(Contents()), 0, cnt, false, r.value);
        r := None;
      }
    }

    /** Makes `cnt` sectors, all in use, available again. */
    method Release(sector: nat, cnt: nat)
      requires Valid() && IsGroup(Contents(), sector, cnt, true)
      modifies used.bits
      ensures Contents() == Fill(old(Contents()), sector, cnt, false)
    {
      used.SetMultiple(sector, cnt, false);
    }

    /** The one-sector request that growing a file makes. */
    method AllocateOne() returns (r: Option<nat>)
      requires Valid()
      modifies used.bits
      ensures r.None? <==> CountFree(old(Contents())) == 0
      ensures r.None? ==> Contents() == old(Contents())
      ensures r.Some? ==> r.value < used.bitCnt && !old(Contents())[r.value]
      ensures r.Some? ==> Contents() == old(Contents())[r.value := true]
      ensures r.Some? ==> CountFree(Contents()) == CountFree(old(Contents())) - 1
      ensures r.Some? ==> InOrder(old(Contents()), Contents()) && IsNth(old(Contents()), r.value, 0)
    {
      r := Allocate(1, true);
      OneSector(old(Contents()), r);
      if r.Some? {
        FirstInOrder(old(Contents()), r.value);
      }
    }
  }
}
