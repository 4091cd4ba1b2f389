/** Bytes, sectors, little-endian 32-bit words and null-terminated strings, as disk and memory hold them. */
module Disks {
  const SECTOR_SIZE := 512

  type byte = b: int | 0 <= b < 256

  type Sector = s: seq<byte> | |s| == SECTOR_SIZE witness ZeroSector()

  function ZeroSector(): (s: seq<byte>)
    ensures |s| == SECTOR_SIZE
  {
    seq(SECTOR_SIZE, _ => 0)
  }

  /** `s` with `data` copied over it starting at `ofs` (the effect of `memcpy`). */
  function Splice<T>(s: seq<T>, ofs: nat, data: seq<T>): (r: seq<T>)
    requires ofs + |data| <= |s|
    ensures |r| == |s|
    ensures forall i :: 0 <= i < |s| ==> r[i] == if ofs <= i < ofs + |data| then data[i - ofs] else s[i]
  {
    s[..ofs] + data + s[ofs + |data|..]
  }

  lemma SpliceWhole<T>(s: seq<T>, data: seq<T>)
    requires |data| == |s|
    ensures Splice(s, 0, data) == data
  {
  }

  const WORD_LIMIT: nat := 0x1_0000_0000

  /** The four bytes of a 32-bit word, least significant first. */
  function WordBytes(w: nat): (b: seq<byte>)
    requires w < WORD_LIMIT
    ensures |b| == 4
  {
    [w % 256, w / 256 % 256, w / 65536 % 256, w / 16777216]
  }

  function BytesWord(b: seq<byte>): (w: nat)
    requires |b| == 4
    ensures w < WORD_LIMIT
  {
    var b0: int, b1: int, b2: int, b3: int := b[0], b[1], b[2], b[3];
    b0 + 256 * b1 + 65536 * b2 + 16777216 * b3
  }

  lemma WordRoundTrip(w: nat)
    requires w < WORD_LIMIT
    ensures BytesWord(WordBytes(w)) == w
  {
    var w1, w2, w3 := w / 256, w / 65536, w / 16777216;
    assert w == 256 * w1 + w % 256;
    assert w2 == w1 / 256 && w1 == 256 * w2 + w1 % 256;
    assert w3 == w2 / 256 && w2 == 256 * w3 + w2 % 256;
  }

  /** The word stored at byte offset `ofs` of a sector. */
  function WordAt(s: Sector, ofs: nat): (w: nat)
    requires ofs + 4 <= SECTOR_SIZE
    ensures w < WORD_LIMIT
  {
    BytesWord(s[ofs..ofs + 4])
  }

  /** Storing a word makes it readable at its offset and leaves the words beside it alone. */
  lemma StoreWord(s: Sector, ofs: nat, w: nat, at: nat)
    requires ofs + 4 <= SECTOR_SIZE && w < WORD_LIMIT && at + 4 <= SECTOR_SIZE
    requires at == ofs || at + 4 <= ofs || ofs + 4 <= at
    ensures WordAt(Splice(s, ofs, WordBytes(w)), at) == if at == ofs then w else WordAt(s, at)
  {
    var s' := Splice(s, ofs, WordBytes(w));
    if at == ofs {
      assert s'[at..at + 4] == WordBytes(w);
      WordRoundTrip(w);
    } else {
      assert s'[at..at + 4] == s[at..at + 4];
    }
  }

  /** The C string at the start of `b`: the bytes before the first null. */
  function UpToNul(b: seq<byte>): (s: seq<byte>)
    ensures 0 !in s && |s| <= |b|
    ensures 0 in b ==> |s| < |b| && b[|s|] == 0
    ensures s == b[..|s|]
  {
    if b == [] || b[0] == 0 then [] else [b[0]] + UpToNul(b[1..])
  }

  lemma {:induction false} UpToNulOf(name: seq<byte>, rest: seq<byte>)
    requires 0 !in name
    ensures UpToNul(name + [0] + rest) == name
  {
    var b := name + [0] + rest;
    if name != [] {
      assert b[1..] == name[1..] + [0] + rest;
      UpToNulOf(name[1..], rest);
    }
  }
}
