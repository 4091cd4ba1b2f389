/**
  Breaking a string into tokens (`strtok_r` in `lib/string.c`).  The tokenizer overwrites the
  delimiter behind each token with a null byte and remembers where to go on.
 */
module Tokenizers {
  import opened Wrappers
  import opened Disks

  /** The first place at or after `i` that is not a delimiter, or the end. */
  function TokenStart(ds: seq<byte>, s: seq<byte>, i: nat): (r: nat)
    requires i <= |s|
    ensures i <= r <= |s| && (forall k :: i <= k < r ==> s[k] in ds) && (r < |s| ==> s[r] !in ds)
    decreases |s| - i
  {
    if i < |s| && s[i] in ds then TokenStart(ds, s, i + 1) else i
  }

  /** The first place at or after `i` that is a delimiter, or the end. */
  function TokenEnd(ds: seq<byte>, s: seq<byte>, i: nat): (r: nat)
    requires i <= |s|
    ensures i <= r <= |s| && (forall k :: i <= k < r ==> s[k] !in ds) && (r < |s| ==> s[r] in ds)
    decreases |s| - i
  {
    if i < |s| && s[i] !in ds then TokenEnd(ds, s, i + 1) else i
  }

  /** The stretch of a string from `start` up to `end`. */
  datatype Span = Span(start: nat, end: nat)

  /** The tokens at or after `i`. */
  function Spans(ds: seq<byte>, s: seq<byte>, i: nat): (r: seq<Span>)
    requires i <= |s|
    ensures forall k :: 0 <= k < |r| ==> i <= r[k].start < r[k].end <= |s|
    decreases |s| - i
  {
    var a := TokenStart(ds, s, i);
    if a == |s| then []
    else
      var b := TokenEnd(ds, s, a);
      [Span(a, b)] + if b < |s| then Spans(ds, s, b + 1) else []
  }

  lemma SpansUnfold(ds: seq<byte>, s: seq<byte>, i: nat, a: nat, b: nat)
    requires i <= |s| && a == TokenStart(ds, s, i) && b == TokenEnd(ds, s, a)
    ensures a == |s| ==> Spans(ds, s, i) == []
    ensures a < |s| && b < |s| ==> Spans(ds, s, i) == [Span(a, b)] + Spans(ds, s, b + 1)
    ensures a < |s| && b == |s| ==> Spans(ds, s, i) == [Span(a, b)]
  {
  }

  lemma SpansAtEnd(ds: seq<byte>, s: seq<byte>)
    ensures Spans(ds, s, |s|) == []
  {
  }

  /** A token is a stretch without delimiters that cannot be made longer. */
  ghost predicate Maximal(ds: seq<byte>, s: seq<byte>, t: Span) {
    && t.start < t.end <= |s|
    && (forall k :: t.start <= k < t.end ==> s[k] !in ds)
    && (t.start > 0 ==> s[t.start - 1] in ds)
    && (t.end < |s| ==> s[t.end] in ds)
  }

  /** The tokenizer finds exactly the maximal stretches without delimiters ... */
  lemma {:induction false} SpansExact(ds: seq<byte>, s: seq<byte>, i: nat, t: Span)
    requires i <= |s| && (i > 0 ==> s[i - 1] in ds)
    ensures t in Spans(ds, s, i) <==> Maximal(ds, s, t) && i <= t.start
    decreases |s| - i
  {
    hide Spans, TokenStart, TokenEnd;
    var a := TokenStart(ds, s, i);
    var b := TokenEnd(ds, s, a);
    SpansUnfold(ds, s, i, a, b);
    if a < |s| {
      if b < |s| {
        SpansExact(ds, s, b + 1, t);
      }
      FirstToken(ds, s, i, t, a, b);
    } else {
      assert t.start < |s| && i <= t.start ==> s[t.start] in ds;
    }
  }

  lemma FirstToken(ds: seq<byte>, s: seq<byte>, i: nat, t: Span, a: nat, b: nat)
    requires i <= |s| && (i > 0 ==> s[i - 1] in ds)
    requires a == TokenStart(ds, s, i) < |s| && b == TokenEnd(ds, s, a)
    ensures Maximal(ds, s, Span(a, b))
    ensures Maximal(ds, s, t) && i <= t.start ==> t == Span(a, b) || (b < |s| && b + 1 <= t.start)
  {
    hide TokenStart, TokenEnd;
    if Maximal(ds, s, t) && i <= t.start < b {
      assert s[t.start] !in ds;
      assert t.start == a;
    }
  }

  ghost predicate Ordered(r: seq<Span>) {
    forall k, l :: 0 <= k < l < |r| ==> r[k].end < r[l].start
  }

  lemma OrderedCons(t: Span, r: seq<Span>)
    requires Ordered(r) && forall k :: 0 <= k < |r| ==> t.end < r[k].start
    ensures Ordered([t] + r)
  {
  }

  /** ... in the order in which they stand. */
  lemma {:induction false} SpansOrdered(ds: seq<byte>, s: seq<byte>, i: nat)
    requires i <= |s|
    ensures Ordered(Spans(ds, s, i))
    decreases |s| - i
  {
    hide Spans, TokenStart, TokenEnd, Ordered;
    var a := TokenStart(ds, s, i);
    var b := TokenEnd(ds, s, a);
    SpansUnfold(ds, s, i, a, b);
    NoneOrdered(Span(a, b));
    if a < |s| && b < |s| {
      SpansOrdered(ds, s, b + 1);
      OrderedCons(Span(a, b), Spans(ds, s, b + 1));
    }
  }

  lemma NoneOrdered(t: Span)
    ensures Ordered([]) && Ordered([t])
  {
  }

  /** The tokens themselves. */
  function Tokens(ds: seq<byte>, s: seq<byte>): (r: seq<seq<byte>>)
    ensures |r| == |Spans(ds, s, 0)|
  {
    var spans := Spans(ds, s, 0);
    seq(|spans|, k requires 0 <= k < |spans| => s[spans[k].start..spans[k].end])
  }

  /** From `p` on the buffer still holds `s` and its terminator. */
  ghost predicate Rest(buf: seq<byte>, s: seq<byte>, p: nat) {
    |s| < |buf| && p <= |s| && buf[|s|] == 0 && forall k :: p <= k < |s| ==> buf[k] == s[k]
  }

  /** Finds the next token from `p` on and ends it with a null byte; `save` is where to go on. */
  method StrtokR(a: array<byte>, p: nat, ds: seq<byte>, ghost s: seq<byte>)
    returns (token: Option<nat>, save: nat, ghost end: nat)
    requires Rest(a[..], s, p) && 0 !in s && 0 !in ds
    modifies a
    ensures Rest(a[..], s, save) && p <= save
    ensures token.None? <==> Spans(ds, s, p) == []
    ensures token.None? ==> Spans(ds, s, save) == []
    ensures token.Some? ==> p < save && Spans(ds, s, p) == [Span(token.value, end)] + Spans(ds, s, save)
    ensures token.Some? ==>
            token.value < end <= |s| && a[end] == 0 && forall k :: token.value <= k < end ==> a[k] == s[k]
    ensures token.Some? ==> a[..] == old(a[..])[end := 0]
    ensures token.None? ==> a[..] == old(a[..])
  {
    hide Spans;
    ghost var x := TokenStart(ds, s, p);
    ghost var y := TokenEnd(ds, s, x);
    SpansUnfold(ds, s, p, x, y);
    end := y;
    SpansAtEnd(ds, s);
    var i := p;
    while a[i] in ds || a[i] == 0
      invariant p <= i <= |s| && TokenStart(ds, s, p) == TokenStart(ds, s, i)
      invariant a[..] == old(a[..])
      decreases |s| - i
    {
      if a[i] == 0 {
        assert i == |s|;
        return None, i, end;
      }
      i := i + 1;
    }
    var start := i;
    while !(a[i] in ds || a[i] == 0)
      invariant start <= i <= |s| && TokenEnd(ds, s, start) == TokenEnd(ds, s, i)
      invariant a[..] == old(a[..])
      decreases |s| - i
    {
      i := i + 1;
    }
    if a[i] != 0 {
      a[i] := 0;
      save := i + 1;
    } else {
      save := i;
    }
    token := Some(start);
  }
}
