/**
  The initial user stack (`setup_stack` in `userprog/process.c`): the words of the command
  line, pointers to them and their number are laid out from the top of the stack page down,
  in the way the System V ABI for the i386 has `main` find them.
 */
module ArgStacks {
  import opened Wrappers
  import opened Disks
  import opened Tokenizers

  /** The address of the stack page, one page below `PHYS_BASE`. */
  const BASE: nat := 0xBFFF_F000

  // ----- What the program reads -----

  /** The word at address `a`. */
  function Load(m: seq<byte>, a: nat): nat {
    if 0xBFFF_F000 <= a && a + 4 <= 0xBFFF_F000 + |m| then BytesWord(m[a - 0xBFFF_F000..a - 0xBFFF_F000 + 4]) else 0
  }

  /** The string at address `a`. */
  function LoadString(m: seq<byte>, a: nat): seq<byte> {
    if 0xBFFF_F000 <= a < 0xBFFF_F000 + |m| then UpToNul(m[a - 0xBFFF_F000..]) else []
  }

  /** The word at `a` is in the page and is `w`. */
  ghost predicate HasWord(m: seq<byte>, a: nat, w: nat) {
    0xBFFF_F000 <= a && a + 4 <= 0xBFFF_F000 + |m| && Load(m, a) == w
  }

  /** The string at `a` is in the page, with its terminator, and is `t`. */
  ghost predicate HasString(m: seq<byte>, a: nat, t: seq<byte>) {
    0xBFFF_F000 <= a && a + |t| < 0xBFFF_F000 + |m| && m[a + |t| - 0xBFFF_F000] == 0 && LoadString(m, a) == t
  }

  /** What `main` is passed when the stack pointer is `esp`: the return address, `argc`, `argv` and what that
      points to, all of it in the page. */
  ghost predicate Passes(m: seq<byte>, esp: nat, args: seq<seq<byte>>) {
    && esp % 4 == 0
    && HasWord(m, esp, 0)
    && HasWord(m, esp + 4, |args|)
    && var argv := Load(m, esp + 8);
       && HasWord(m, esp + 8, argv) && argv % 4 == 0
       && (forall k :: 0 <= k < |args| ==>
             var p := Load(m, argv + 4 * k);
             HasWord(m, argv + 4 * k, p) && HasString(m, p, args[k]))
       && HasWord(m, argv + 4 * |args|, 0)
  }

  // ----- The page -----

  ghost predicate Holds(m: seq<byte>, at: nat, b: seq<byte>) {
    at + |b| <= |m| && m[at..at + |b|] == b
  }

  /** From `e` on, `m'` is as `m`. */
  ghost predicate Above(m: seq<byte>, m': seq<byte>, e: nat) {
    |m'| == |m| && forall k :: e <= k < |m| ==> m'[k] == m[k]
  }

  lemma HoldsAbove(m: seq<byte>, m': seq<byte>, e: nat, at: nat, b: seq<byte>)
    requires Holds(m, at, b) && Above(m, m', e) && e <= at
    ensures Holds(m', at, b)
  {
  }

  lemma HoldsWord(m: seq<byte>, at: nat, w: nat)
    requires w < WORD_LIMIT && Holds(m, at, WordBytes(w))
    ensures HasWord(m, BASE + at, w) && Load(m, BASE + at) == w
  {
    WordRoundTrip(w);
  }

  lemma HoldsString(m: seq<byte>, at: nat, t: seq<byte>)
    requires 0 !in t && Holds(m, at, t + [0])
    ensures HasString(m, BASE + at, t)
  {
    hide UpToNul;
    UpToNulOf(t, m[at + |t| + 1..]);
    assert m[at..] == m[at..at + |t| + 1] + m[at + |t| + 1..];
    assert m[at + |t|] == m[at..at + |t| + 1][|t|];
  }

  /** `memcpy` into the page. */
  method Put(mem: array<byte>, at: nat, b: seq<byte>)
    requires at + |b| <= mem.Length
    modifies mem
    ensures Holds(mem[..], at, b) && Above(old(mem[..]), mem[..], at + |b|)
  {
    for k := 0 to |b|
      invariant forall j :: 0 <= j < k ==> mem[at + j] == b[j]
      invariant forall j :: at + |b| <= j < mem.Length ==> mem[j] == old(mem[j])
    {
      mem[at + k] := b[k];
    }
  }

  method PushWord(mem: array<byte>, esp: nat, w: nat) returns (r: nat)
    requires 4 <= esp <= mem.Length && w < WORD_LIMIT
    modifies mem
    ensures r == esp - 4 && Holds(mem[..], r, WordBytes(w)) && Above(old(mem[..]), mem[..], esp)
  {
    r := esp - 4;
    Put(mem, r, WordBytes(w));
  }

  // ----- The room that is needed -----

  /** The bytes that the strings take, each with its terminator. */
  function Total(ts: seq<seq<byte>>): nat {
    if ts == [] then 0 else Total(ts[..|ts| - 1]) + |ts[|ts| - 1]| + 1
  }

  /** The layout fits in the page. */
  predicate Fits(ts: seq<seq<byte>>) {
    (Total(ts) + 3) / 4 * 4 + 4 * |ts| + 16 <= PGSIZE
  }

  lemma {:induction false} TotalGrows(ts: seq<seq<byte>>, i: nat)
    requires i <= |ts|
    ensures Total(ts[..i]) <= Total(ts)
    ensures i < |ts| ==> Total(ts[..i + 1]) == Total(ts[..i]) + |ts[i]| + 1 <= Total(ts)
  {
    if i < |ts| {
      assert ts[..i + 1][..i] == ts[..i];
      var r := ts[..|ts| - 1];
      TotalGrows(r, i);
      assert r[..i] == ts[..i];
      if i + 1 < |ts| {
        assert r[..i + 1] == ts[..i + 1];
      } else {
        assert ts[..i + 1] == ts;
      }
    } else {
      assert ts[..i] == ts;
    }
  }

  // ----- The words of the command line -----

  /** `strlen`. */
  method Strlen(a: array<byte>, i: nat, ghost end: nat) returns (n: nat)
    requires i <= end < a.Length && a[end] == 0 && forall k :: i <= k < end ==> a[k] != 0
    ensures n == end - i
  {
    n := 0;
    while a[i + n] != 0
      invariant i + n <= end
      decreases end - i - n
    {
      n := n + 1;
    }
  }

  /** Counts the words in a copy of the command line. */
  method CountWords(file: array<byte>, ds: seq<byte>, ghost s: seq<byte>) returns (argc: nat)
    requires Rest(file[..], s, 0) && 0 !in s && 0 !in ds
    ensures argc == |Spans(ds, s, 0)|
  {
    hide Spans;
    var copy := new byte[file.Length];
    forall k | 0 <= k < file.Length {
      copy[k] := file[k];
    }
    argc := 0;
    var token, rest, _ := StrtokR(copy, 0, ds, s);
    while token.Some?
      invariant Rest(copy[..], s, rest)
      invariant argc + |Spans(ds, s, rest)| + (if token.Some? then 1 else 0) == |Spans(ds, s, 0)|
      invariant token.None? ==> Spans(ds, s, rest) == []
      decreases |s| - rest, token.Some?
    {
      argc := argc + 1;
      var next, save, _ := StrtokR(copy, rest, ds, s);
      token, rest := next, save;
    }
  }

  /** The strings `ts` are in `m`, at the offsets `argv`, all from `e` on. */
  ghost predicate Stored(m: seq<byte>, e: nat, argv: seq<nat>, ts: seq<seq<byte>>) {
    |argv| <= |ts| && forall k :: 0 <= k < |argv| ==> e <= argv[k] && Holds(m, argv[k], ts[k] + [0])
  }

  lemma StoredAbove(m: seq<byte>, m': seq<byte>, e: nat, argv: seq<nat>, ts: seq<seq<byte>>)
    requires Stored(m, e, argv, ts) && Above(m, m', e)
    ensures Stored(m', e, argv, ts)
  {
    forall k | 0 <= k < |argv| ensures Holds(m', argv[k], ts[k] + [0]) {
      HoldsAbove(m, m', e, argv[k], ts[k] + [0]);
    }
  }

  lemma StoredNext(m: seq<byte>, e: nat, e': nat, argv: seq<nat>, ts: seq<seq<byte>>)
    requires Stored(m, e, argv, ts) && |argv| < |ts| && e' <= e && Holds(m, e', ts[|argv|] + [0])
    ensures Stored(m, e', argv + [e'], ts)
  {
  }

  /** The buffer holds the token at `t` with a terminator behind it. */
  lemma TokenBytes(buf: seq<byte>, s: seq<byte>, t: Span, n: nat)
    requires t.start <= t.end <= |s| < |buf| && buf[t.end] == 0 && n == t.end - t.start
    requires forall k :: t.start <= k < t.end ==> buf[k] == s[k]
    ensures buf[t.start..t.start + n + 1] == s[t.start..t.end] + [0]
  {
  }

  /** Copies the token at `token` below `esp`. */
  method PushString(file: array<byte>, token: nat, mem: array<byte>, esp: nat, ghost s: seq<byte>, ghost end: nat)
    returns (r: nat)
    requires token < end <= |s| < file.Length && file[end] == 0 && 0 !in s
             && forall k :: token <= k < end ==> file[k] == s[k]
    requires end - token < esp <= mem.Length && file != mem
    modifies mem
    ensures r == esp - (end - token + 1) && Holds(mem[..], r, s[token..end] + [0]) && Above(old(mem[..]), mem[..], esp)
  {
    var n := Strlen(file, token, end);
    TokenBytes(file[..], s, Span(token, end), n);
    r := esp - (n + 1);
    Put(mem, r, file[token..token + n + 1]);
  }

  /** Copies the next of the words `ts`, which is the token at `token`, below those that are stored already. */
  method PushNext(file: array<byte>, token: nat, mem: array<byte>, esp: nat, argv: seq<nat>,
                  ghost s: seq<byte>, ghost end: nat, ghost ts: seq<seq<byte>>)
    returns (r: nat, argv': seq<nat>)
    requires token < end <= |s| < file.Length && file[end] == 0 && 0 !in s
             && forall k :: token <= k < end ==> file[k] == s[k]
    requires mem.Length == PGSIZE && file != mem && Total(ts) <= PGSIZE
    requires |argv| < |ts| && ts[|argv|] == s[token..end]
    requires esp == PGSIZE - Total(ts[..|argv|]) && Stored(mem[..], esp, argv, ts)
    modifies mem
    ensures argv' == argv + [r] && r == PGSIZE - Total(ts[..|argv'|]) && Stored(mem[..], r, argv', ts)
  {
    hide Stored, Total, Holds, Above;
    TotalGrows(ts, |argv|);
    ghost var m := mem[..];
    r := PushString(file, token, mem, esp, s, end);
    StoredAbove(m, mem[..], esp, argv, ts);
    StoredNext(mem[..], esp, r, argv, ts);
    argv' := argv + [r];
  }

  /** Copies the words of the command line to the top of the page, one below the other. */
  method PushStrings(file: array<byte>, mem: array<byte>, ds: seq<byte>, ghost s: seq<byte>)
    returns (esp: nat, argv: seq<nat>)
    requires Rest(file[..], s, 0) && 0 !in s && 0 !in ds && file != mem
    requires mem.Length == PGSIZE && Total(Tokens(ds, s)) <= PGSIZE
    modifies file, mem
    ensures esp == PGSIZE - Total(Tokens(ds, s)) && |argv| == |Tokens(ds, s)|
    ensures Stored(mem[..], esp, argv, Tokens(ds, s))
  {
    hide Spans, Stored, Total, Holds, Above;
    ghost var all, ts := Spans(ds, s, 0), Tokens(ds, s);
    esp, argv := PGSIZE, [];
    NoneStored(mem[..], ts);
    var token: Option<nat>, rest: nat;
    ghost var end: nat;
    token, rest, end := StrtokR(file, 0, ds, s);
    while token.Some?
      invariant Rest(file[..], s, rest) && |argv| <= |all|
      invariant if token.None? then |argv| == |all| else all[|argv|..] == [Span(token.value, end)] + Spans(ds, s, rest)
      invariant token.Some? ==>
                token.value < end <= |s| && file[end] == 0 && forall k :: token.value <= k < end ==> file[k] == s[k]
      invariant esp == PGSIZE - Total(ts[..|argv|]) && Stored(mem[..], esp, argv, ts)
      decreases |all| - |argv|
    {
      ghost var i := |argv|;
      assert all[i] == Span(token.value, end) && all[i + 1..] == Spans(ds, s, rest);
      assert ts[i] == s[token.value..end];
      esp, argv := PushNext(file, token.value, mem, esp, argv, s, end, ts);
      token, rest, end := StrtokR(file, rest, ds, s);
    }
    assert ts[..|argv|] == ts;
  }

  lemma NoneStored(m: seq<byte>, ts: seq<seq<byte>>)
    ensures Stored(m, PGSIZE, [], ts) && Total(ts[..0]) == 0
  {
  }

  // ----- The pointers -----

  /** The addresses of `argv` are in `m` from `at` on. */
  ghost predicate Pointers(m: seq<byte>, at: nat, argv: seq<nat>) {
    forall k :: 0 <= k < |argv| ==> argv[k] < PGSIZE && Holds(m, at + 4 * k, WordBytes(BASE + argv[k]))
  }

  lemma PointersAbove(m: seq<byte>, m': seq<byte>, e: nat, at: nat, argv: seq<nat>)
    requires Pointers(m, at, argv) && Above(m, m', e) && e <= at
    ensures Pointers(m', at, argv)
  {
    forall k | 0 <= k < |argv| ensures Holds(m', at + 4 * k, WordBytes(BASE + argv[k])) {
      HoldsAbove(m, m', e, at + 4 * k, WordBytes(BASE + argv[k]));
    }
  }

  lemma PointersNext(m: seq<byte>, at: nat, argv: seq<nat>, i: nat)
    requires i < |argv| && argv[i] < PGSIZE && Holds(m, at, WordBytes(BASE + argv[i]))
             && Pointers(m, at + 4, argv[i + 1..])
    ensures Pointers(m, at, argv[i..])
  {
    var r := argv[i..];
    forall k | 0 <= k < |r| ensures r[k] < PGSIZE && Holds(m, at + 4 * k, WordBytes(BASE + r[k])) {
      if k > 0 {
        assert argv[i + 1..][k - 1] == r[k];
        assert at + 4 * k == at + 4 + 4 * (k - 1);
      }
    }
  }

  /** Pushes the pointers, the last one first. */
  method PushPointers(mem: array<byte>, esp: nat, argv: seq<nat>) returns (r: nat)
    requires 4 * |argv| <= esp <= mem.Length && forall k :: 0 <= k < |argv| ==> argv[k] < PGSIZE
    modifies mem
    ensures r == esp - 4 * |argv| && Pointers(mem[..], r, argv) && Above(old(mem[..]), mem[..], esp)
  {
    hide Pointers, Holds;
    r := esp;
    var i := |argv|;
    NoPointers(mem[..], r, argv);
    while i > 0
      invariant 0 <= i <= |argv| && r == esp - 4 * (|argv| - i)
      invariant Pointers(mem[..], r, argv[i..]) && Above(old(mem[..]), mem[..], esp)
    {
      i := i - 1;
      ghost var m, e := mem[..], r;
      r := PushWord(mem, r, BASE + argv[i]);
      PointersAbove(m, mem[..], e, e, argv[i + 1..]);
      PointersNext(mem[..], r, argv, i);
    }
    assert argv[0..] == argv;
  }

  lemma NoPointers(m: seq<byte>, at: nat, argv: seq<nat>)
    ensures Pointers(m, at, argv[|argv|..])
  {
  }

  // ----- The whole layout -----

  /** The words below the strings make `main` see the strings. */
  lemma Assembled(m: seq<byte>, esp: nat, e: nat, argv: seq<nat>, ts: seq<seq<byte>>)
    requires Stored(m, e, argv, ts) && |argv| == |ts| && (forall k :: 0 <= k < |ts| ==> 0 !in ts[k])
    requires |m| == PGSIZE && esp % 4 == 0 && esp + 16 + 4 * |ts| <= PGSIZE
    requires Holds(m, esp, WordBytes(0)) && Holds(m, esp + 4, WordBytes(|ts|))
             && Holds(m, esp + 8, WordBytes(BASE + esp + 12))
    requires Pointers(m, esp + 12, argv) && Holds(m, esp + 12 + 4 * |ts|, WordBytes(0))
    ensures Passes(m, BASE + esp, ts)
  {
    hide Load, LoadString, Holds, WordBytes, HasWord, HasString;
    HoldsWord(m, esp, 0);
    HoldsWord(m, esp + 4, |ts|);
    HoldsWord(m, esp + 8, BASE + esp + 12);
    HoldsWord(m, esp + 12 + 4 * |ts|, 0);
    var a := BASE + esp + 12;
    assert BASE % 4 == 0 && a % 4 == 0;
    forall k | 0 <= k < |ts|
      ensures HasWord(m, a + 4 * k, Load(m, a + 4 * k)) && HasString(m, Load(m, a + 4 * k), ts[k])
    {
      HoldsWord(m, esp + 12 + 4 * k, BASE + argv[k]);
      HoldsString(m, argv[k], ts[k]);
    }
  }

  /** Aligns the stack pointer to a word. */
  method Align(mem: array<byte>, esp: nat) returns (r: nat)
    requires esp <= mem.Length
    modifies mem
    ensures r <= esp < r + 4 && r % 4 == 0 && Above(old(mem[..]), mem[..], esp)
  {
    var align := esp % 4;
    r := esp;
    if align != 0 {
      r := esp - align;
      Put(mem, r, seq(align, _ => 0));
    }
  }

  /** Pushes what `main` is passed below the pointers. */
  method PushFrame(mem: array<byte>, esp: nat, argc: nat) returns (r: nat)
    requires 12 <= esp <= mem.Length == PGSIZE && argc < PGSIZE
    modifies mem
    ensures r == esp - 12 && Above(old(mem[..]), mem[..], esp)
    ensures Holds(mem[..], r, WordBytes(0)) && Holds(mem[..], r + 4, WordBytes(argc))
            && Holds(mem[..], r + 8, WordBytes(BASE + esp))
  {
    r := PushWord(mem, esp, BASE + esp);
    ghost var m := mem[..];
    r := PushWord(mem, r, argc);
    ghost var m' := mem[..];
    r := PushWord(mem, r, 0);
    hide Holds, WordBytes;
    HoldsAbove(m, m', esp - 4, esp - 4, WordBytes(BASE + esp));
    HoldsAbove(m', mem[..], esp - 8, esp - 8, WordBytes(argc));
    HoldsAbove(m', mem[..], esp - 8, esp - 4, WordBytes(BASE + esp));
  }

  lemma TokensFree(ds: seq<byte>, s: seq<byte>, k: nat)
    requires 0 !in s && k < |Tokens(ds, s)|
    ensures 0 !in Tokens(ds, s)[k]
  {
  }

  lemma StoredBelow(m: seq<byte>, e: nat, e': nat, argv: seq<nat>, ts: seq<seq<byte>>)
    requires Stored(m, e, argv, ts) && e' <= e && |m| == PGSIZE
    ensures Stored(m, e', argv, ts) && forall k :: 0 <= k < |argv| ==> argv[k] < PGSIZE
  {
  }

  /** Lays out the command line in the stack page; the program then finds in it exactly the words of the
      command line. */
  method SetupStack(file: array<byte>, mem: array<byte>, ds: seq<byte>, ghost s: seq<byte>) returns (esp: nat)
    requires Rest(file[..], s, 0) && 0 !in s && 0 !in ds && file != mem
    requires mem.Length == PGSIZE && Fits(Tokens(ds, s))
    modifies file, mem
    ensures Passes(mem[..], esp, Tokens(ds, s))
  {
    hide Spans, Tokens, Stored, Total, Holds, WordBytes, Pointers, Passes, Above;
    ghost var ts := Tokens(ds, s);
    var argc := CountWords(file, ds, s);
    var top, argv := PushStrings(file, mem, ds, s);
    ghost var m := mem[..];
    var e := Align(mem, top);
    StoredAbove(m, mem[..], top, argv, ts);
    StoredBelow(mem[..], top, e, argv, ts);
    ghost var m1, e1 := mem[..], e;
    e := PushWord(mem, e, 0);
    StoredAbove(m1, mem[..], e1, argv, ts);
    ghost var m2, e2 := mem[..], e;
    StoredBelow(m2, e1, e2, argv, ts);
    e := PushPointers(mem, e, argv);
    StoredAbove(m2, mem[..], e2, argv, ts);
    HoldsAbove(m2, mem[..], e2, e2, WordBytes(0));
    ghost var m3, e3 := mem[..], e;
    StoredBelow(m3, e2, e3, argv, ts);
    e := PushFrame(mem, e, argc);
    StoredAbove(m3, mem[..], e3, argv, ts);
    HoldsAbove(m3, mem[..], e3, e2, WordBytes(0));
    PointersAbove(m3, mem[..], e3, e3, argv);
    forall k | 0 <= k < |ts| ensures 0 !in ts[k] {
      TokensFree(ds, s, k);
    }
    Assembled(mem[..], e, e3, argv, ts);
    esp := BASE + e;
  }
}
