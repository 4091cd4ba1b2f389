/**
  Packed bitmaps (`lib/kernel/bitmap.c`).

  From the outside a bitmap is a sequence of booleans; from the inside it is an
  array of 32-bit words.  Every operation works on words and masks, as the kernel
  does, and is specified on the sequence of booleans.
 */
module Bitmaps {
  import opened Wrappers

  const ELEM_BITS := 32

  // ----- Words and masks -----

  /** A machine word, given by its bits; index 0 is the least significant one. */
  type Word = w: seq<bool> | |w| == ELEM_BITS witness Zero()

  function Or(w: Word, m: Word): Word { seq(ELEM_BITS, p requires 0 <= p < ELEM_BITS => w[p] || m[p]) }

  function And(w: Word, m: Word): Word { seq(ELEM_BITS, p requires 0 <= p < ELEM_BITS => w[p] && m[p]) }

  function Not(w: Word): Word { seq(ELEM_BITS, p requires 0 <= p < ELEM_BITS => !w[p]) }

  function Zero(): (w: seq<bool>)
    ensures |w| == ELEM_BITS && forall p :: 0 <= p < ELEM_BITS ==> !w[p]
  {
    seq(ELEM_BITS, _ => false)
  }

  function ElemIdx(bitIdx: nat): nat { bitIdx / ELEM_BITS }

  function ElemCnt(bitCnt: nat): nat { (bitCnt + ELEM_BITS - 1) / ELEM_BITS }

  /** The word in which only the position of `bitIdx` is on. */
  function BitMask(bitIdx: nat): Word { Zero()[bitIdx % ELEM_BITS := true] }

  /** The booleans that `n` bits packed in `ws` stand for. */
  ghost function Unpack(ws: seq<Word>, n: nat): (s: seq<bool>)
    requires |ws| == ElemCnt(n)
    ensures |s| == n
  {
    seq(n, i requires 0 <= i < n => ws[ElemIdx(i)][i % ELEM_BITS])
  }

  /** Or-ing in a mask sets exactly one bit of the unpacked map. */
  lemma UnpackMark(ws: seq<Word>, n: nat, k: nat)
    requires |ws| == ElemCnt(n) && k < n
    ensures Unpack(ws[ElemIdx(k) := Or(ws[ElemIdx(k)], BitMask(k))], n) == Unpack(ws, n)[k := true]
  {
    var ws' := ws[ElemIdx(k) := Or(ws[ElemIdx(k)], BitMask(k))];
    forall j | 0 <= j < n ensures Unpack(ws', n)[j] == Unpack(ws, n)[k := true][j] {
      SamePlace(j, k);
    }
  }

  /** And-ing with a complemented mask clears exactly one bit of the unpacked map. */
  lemma UnpackReset(ws: seq<Word>, n: nat, k: nat)
    requires |ws| == ElemCnt(n) && k < n
    ensures Unpack(ws[ElemIdx(k) := And(ws[ElemIdx(k)], Not(BitMask(k)))], n) == Unpack(ws, n)[k := false]
  {
    var ws' := ws[ElemIdx(k) := And(ws[ElemIdx(k)], Not(BitMask(k)))];
    forall j | 0 <= j < n ensures Unpack(ws', n)[j] == Unpack(ws, n)[k := false][j] {
      SamePlace(j, k);
    }
  }

  lemma SamePlace(j: nat, k: nat)
    ensures j == k <==> ElemIdx(j) == ElemIdx(k) && j % ELEM_BITS == k % ELEM_BITS
  {
  }

  /** A masked word is nonzero exactly when the bit under the mask is on. */
  lemma MaskTest(w: Word, bitIdx: nat)
    ensures (And(w, BitMask(bitIdx)) != Zero()) == w[bitIdx % ELEM_BITS]
  {
    var p := bitIdx % ELEM_BITS;
    var a := And(w, BitMask(bitIdx));
    assert a[p] == w[p];
    assert !w[p] ==> a == Zero();
  }

  // ----- First fit on sequences of booleans -----

  /** The `cnt` bits of `s` starting at `i` exist and all equal `value`. */
  ghost predicate IsGroup(s: seq<bool>, i: nat, cnt: nat, value: bool) {
    i + cnt <= |s| && forall j :: i <= j < i + cnt ==> s[j] == value
  }

  /** `r` is the least start index at or after `start` of a group of `cnt` bits equal to `value`. */
  ghost predicate FirstFit(s: seq<bool>, start: nat, cnt: nat, value: bool, r: Option<nat>) {
    match r
    case Some(i) => start <= i && IsGroup(s, i, cnt, value)
                    && forall k :: start <= k < i ==> !IsGroup(s, k, cnt, value)
    case None => forall k: nat :: start <= k ==> !IsGroup(s, k, cnt, value)
  }

  /** `s` with the `cnt` bits starting at `start` replaced by `value`. */
  function Fill(s: seq<bool>, start: nat, cnt: nat, value: bool): (r: seq<bool>)
    requires start + cnt <= |s|
    ensures |r| == |s|
    ensures forall j :: 0 <= j < |s| ==> r[j] == if start <= j < start + cnt then value else s[j]
  {
    s[..start] + seq(cnt, _ => value) + s[start + cnt..]
  }

  /** Taking a first fit and giving it back restores the map, bit for bit. */
  lemma TakeThenRelease(s: seq<bool>, start: nat, cnt: nat, value: bool, i: nat)
    requires FirstFit(s, start, cnt, value, Some(i))
    ensures Fill(Fill(s, i, cnt, !value), i, cnt, value) == s
  {
    var r := Fill(Fill(s, i, cnt, !value), i, cnt, value);
    assert forall j :: 0 <= j < |s| ==> r[j] == s[j];
  }

  class Bitmap {
    const bitCnt: nat
    const bits: array<Word>

    ghost predicate Valid() {
      bits.Length == ElemCnt(bitCnt)
    }

    ghost function Contents(): (s: seq<bool>)
      requires Valid()
      reads bits
      ensures |s| == bitCnt
    {
      Unpack(bits[..], bitCnt)
    }

    constructor (n: nat)
      ensures Valid() && fresh(bits) && bitCnt == n
      ensures Contents() == seq(n, _ => false)
    {
      bitCnt := n;
      bits := new Word[ElemCnt(n)];
      new;
      SetMultiple(0, bitCnt, false);
    }

    method Mark(bitIdx: nat)
      requires Valid() && bitIdx < bitCnt
      modifies bits
      ensures Contents() == old(Contents())[bitIdx := true]
    {
      var idx := ElemIdx(bitIdx);
      var mask := BitMask(bitIdx);
      bits[idx] := Or(bits[idx], mask);
      UnpackMark(old(bits[..]), bitCnt, bitIdx);
      assert bits[..] == old(bits[..])[idx := bits[idx]];
    }

    method Reset(bitIdx: nat)
      requires Valid() && bitIdx < bitCnt
      modifies bits
      ensures Contents() == old(Contents())[bitIdx := false]
    {
      var idx := ElemIdx(bitIdx);
      var mask := BitMask(bitIdx);
      bits[idx] := And(bits[idx], Not(mask));
      UnpackReset(old(bits[..]), bitCnt, bitIdx);
      assert bits[..] == old(bits[..])[idx := bits[idx]];
    }

    method Set(idx: nat, value: bool)
      requires Valid() && idx < bitCnt
      modifies bits
      ensures Contents() == old(Contents())[idx := value]
    {
      if value {
        Mark(idx);
      } else {
        Reset(idx);
      }
    }

    method Test(idx: nat) returns (r: bool)
      requires Valid() && idx < bitCnt
      ensures r == Contents()[idx]
    {
      r := And(bits[ElemIdx(idx)], BitMask(idx)) != Zero();
      MaskTest(bits[ElemIdx(idx)], idx);
    }

    method SetMultiple(start: nat, cnt: nat, value: bool)
      requires Valid() && start + cnt <= bitCnt
      modifies bits
      ensures Contents() == Fill(old(Contents()), start, cnt, value)
    {
      for i := 0 to cnt
        invariant Contents() == Fill(old(Contents()), start, i, value)
      {
        Set(start + i, value);
      }
    }

    /** Whether some bit between `start` and `start + cnt` equals `value`. */
    method Contains(start: nat, cnt: nat, value: bool) returns (r: bool)
      requires Valid() && start + cnt <= bitCnt
      ensures r == !IsGroup(Contents(), start, cnt, !value)
    {
      for i := 0 to cnt
        invariant IsGroup(Contents(), start, i, !value)
      {
        var t := Test(start + i);
        if t == value {
          return true;
        }
      }
      return false;
    }

    method Scan(start: nat, cnt: nat, value: bool) returns (r: Option<nat>)
      requires Valid() && start <= bitCnt
      ensures FirstFit(Contents(), start, cnt, value, r)
    {
      if cnt <= bitCnt {
        var last := bitCnt - cnt;
        var i := start;
        while i <= last
          invariant start <= i
          invariant forall k :: start <= k < i ==> !IsGroup(Contents(), k, cnt, value)
        {
          var c := Contains(i, cnt, !value);
          if !c {
            return Some(i);
          }
          i := i + 1;
        }
      }
      return None;
    }

    method ScanAndFlip(start: nat, cnt: nat, value: bool) returns (r: Option<nat>)
      requires Valid() && start <= bitCnt
      modifies bits
      ensures FirstFit(old(Contents()), start, cnt, value, r)
      ensures r.None? ==> Contents() == old(Contents())
      ensures r.Some? ==> Contents() == Fill(old(Contents()), r.value, cnt, !value)
    {
      r := Scan(start, cnt, value);
      if r.Some? {
        SetMultiple(r.value, cnt, !value);
      }
    }
  }
}
