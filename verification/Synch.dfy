/**
  Semaphores and locks (`threads/synch.c`) as a step protocol.  A thread that `sema_up`
  unblocks has been promised nothing: when it is scheduled it looks at the value again, and
  another thread may have come first.  Each step below is one stretch of code that runs with
  interrupts off; a run is any interleaving of steps.
 */
module Synch {
  import opened Wrappers
  import opened Sorting

  // ----- One semaphore -----

  function Priority<T>(prio: map<T, int>, t: T): int {
    if t in prio then prio[t] else 0
  }

  /** `compare_priority`: the higher priority comes first. */
  function Higher<T(==)>(prio: map<T, int>): (T, T) -> bool {
    (x: T, y: T) => Priority(prio, x) > Priority(prio, y)
  }

  ghost function Members<T>(q: seq<T>): set<T> {
    set i | 0 <= i < |q| :: q[i]
  }

  /** What one look at the value does, in `sema_down`: `t` passes, or goes to the end of the waiters. */
  ghost predicate Looked<T>(value: nat, waiters: seq<T>, t: T, value': nat, waiters': seq<T>) {
    if value == 0 then value' == 0 && waiters' == waiters + [t] else value' == value - 1 && waiters' == waiters
  }

  /** What `sema_up` does: it sorts the waiters by priority and unblocks the first. */
  ghost predicate Raised<T>(prio: map<T, int>, value: nat, waiters: seq<T>, who: Option<T>, value': nat,
                            waiters': seq<T>) {
    && value' == value + 1
    && (waiters == [] <==> who.None?)
    && (if who.None? then waiters' == []
        else StablySorted(Higher(prio), Members(waiters), waiters, [who.value] + waiters'))
  }

  lemma FirstIsHighest<T>(prio: map<T, int>, q: seq<T>, t: T, rest: seq<T>)
    requires StablySorted(Higher(prio), Members(q), q, [t] + rest)
    ensures t in q && forall x :: x in q ==> Priority(prio, x) <= Priority(prio, t)
  {
    var r := [t] + rest;
    assert multiset(r) == multiset(q);
    assert t == r[0] && t in multiset(r);
    forall x | x in q ensures Priority(prio, x) <= Priority(prio, t) {
      assert x in multiset(q);
      assert x in r;
      var i :| 0 <= i < |r| && r[i] == x;
      assert i > 0 ==> !Higher(prio)(r[i], r[0]);
    }
  }

  /** A semaphore and what its threads are about: `woken` threads were unblocked and have not looked again;
      a waiter's `arrival` is when it joined the waiters. */
  datatype State<!T> = State(value: nat, waiters: seq<T>, woken: set<T>, prio: map<T, int>, arrival: map<T, nat>,
                             clock: nat)

  datatype Action<T> =
    | Down(t: T)             // a thread calls `sema_down`
    | Recheck(t: T)          // a woken thread goes round the loop again
    | TryDown
    | Up(who: Option<T>)
    | Donate(t: T, p: int)   // some thread's priority changes

  /** `t` takes a look. */
  ghost function Look<T>(s: State<T>, t: T): (r: State<T>)
    ensures Looked(s.value, s.waiters, t, r.value, r.waiters)
  {
    if s.value == 0 then s.(waiters := s.waiters + [t], arrival := s.arrival[t := s.clock], clock := s.clock + 1)
    else s.(value := s.value - 1)
  }

  ghost predicate Next<T>(s: State<T>, a: Action<T>, s': State<T>) {
    match a
    case Down(t) => t !in s.waiters && t !in s.woken && s' == Look(s, t)
    case Recheck(t) => t in s.woken && s' == Look(s.(woken := s.woken - {t}), t)
    case TryDown => s' == if s.value > 0 then s.(value := s.value - 1) else s
    case Up(who) =>
      && Raised(s.prio, s.value, s.waiters, who, s'.value, s'.waiters)
      && s' == s.(value := s'.value, waiters := s'.waiters,
                  woken := if who.None? then s.woken else s.woken + {who.value})
    case Donate(t, p) => s' == s.(prio := s.prio[t := p])
  }

  ghost predicate Init<T>(s: State<T>, value: nat) {
    s.value == value && s.waiters == [] && s.woken == {}
  }

  ghost predicate Different<T>(q: seq<T>) {
    forall i, j :: 0 <= i < j < |q| ==> q[i] != q[j]
  }

  /** The waiters are different threads, none of them woken, that arrived at different times. */
  ghost predicate Queued<T>(s: State<T>) {
    && Different(s.waiters)
    && (forall i :: 0 <= i < |s.waiters| ==>
        s.waiters[i] !in s.woken && s.waiters[i] in s.arrival && s.arrival[s.waiters[i]] < s.clock)
    && (forall i, j :: 0 <= i < j < |s.waiters| ==> s.arrival[s.waiters[i]] != s.arrival[s.waiters[j]])
  }

  /** No wakeup is lost: the value is spoken for by woken threads as long as anyone waits. */
  ghost predicate Inv<T>(s: State<T>) {
    Queued(s) && (s.waiters != [] ==> s.value <= |s.woken|)
  }

  lemma InvInit<T>(s: State<T>, value: nat)
    requires Init(s, value)
    ensures Inv(s)
  {
  }

  /** Every step keeps the invariant. */
  lemma InvNext<T>(s: State<T>, a: Action<T>, s': State<T>)
    requires Inv(s) && Next(s, a, s')
    ensures Inv(s')
  {
    hide Queued, Raised;
    match a
    case Down(t) => LookQueues(s, t);
    case Recheck(t) =>
      LeaveQueued(s, t);
      LookQueues(s.(woken := s.woken - {t}), t);
      assert |s.woken - {t}| == |s.woken| - 1;
    case TryDown => SameQueue(s, s');
    case Up(who) => UpKeeps(s, who, s');
    case Donate(_, _) => SameQueue(s, s');
  }

  lemma SameQueue<T>(s: State<T>, s': State<T>)
    requires Queued(s) && s' == s.(value := s'.value, prio := s'.prio)
    ensures Queued(s')
  {
  }

  lemma LeaveQueued<T>(s: State<T>, t: T)
    requires Queued(s) && t in s.woken
    ensures Queued(s.(woken := s.woken - {t})) && t !in s.waiters
  {
  }

  lemma LookQueues<T>(s: State<T>, t: T)
    requires Queued(s) && t !in s.waiters && t !in s.woken
    ensures Queued(Look(s, t))
  {
  }

  lemma UpKeeps<T>(s: State<T>, who: Option<T>, s': State<T>)
    requires Inv(s) && Next(s, Up(who), s')
    ensures Inv(s')
  {
    if who.Some? {
      UpRearranges(s, who.value, s');
      assert who.value !in s.woken;
      assert |s.woken + {who.value}| == |s.woken| + 1;
    }
  }

  /** Sorting and taking the first leaves the same threads, all different, minus that one. */
  lemma UpRearranges<T>(s: State<T>, w: T, s': State<T>)
    requires Inv(s) && Next(s, Up(Some(w)), s')
    ensures w in s.waiters && w !in s'.waiters && Different(s'.waiters)
    ensures forall i :: 0 <= i < |s'.waiters| ==> s'.waiters[i] in s.waiters
  {
    var t := [w] + s'.waiters;
    SameDifferent(s.waiters, t);
    InMultiset(s.waiters, t, w);
    assert t[0] == w;
    forall i | 0 <= i < |s'.waiters| ensures s'.waiters[i] in s.waiters && s'.waiters[i] != w {
      assert t[i + 1] == s'.waiters[i];
      InMultiset(s.waiters, t, s'.waiters[i]);
    }
    forall i, j | 0 <= i < j < |s'.waiters| ensures s'.waiters[i] != s'.waiters[j] {
      assert t[i + 1] != t[j + 1];
    }
  }

  lemma {:induction false} CountDifferent<T>(q: seq<T>, x: T)
    requires Different(q)
    ensures multiset(q)[x] <= 1
  {
    if q != [] {
      var r := q[1..];
      assert q == [q[0]] + r;
      CountDifferent(r, x);
      if x == q[0] {
        assert x !in r;
      }
    }
  }

  lemma SameDifferent<T>(q: seq<T>, t: seq<T>)
    requires Different(q) && multiset(q) == multiset(t)
    ensures Different(t)
  {
    forall i, j | 0 <= i < j < |t| ensures t[i] != t[j] {
      CountDifferent(q, t[i]);
      assert t == t[..i] + [t[i]] + t[i + 1..j] + [t[j]] + t[j + 1..];
    }
  }

  // ----- Who is woken -----

  /** Waiters of the same priority stand in the order they arrived. */
  ghost predicate InOrder<T>(s: State<T>)
    requires Queued(s)
  {
    forall i, j :: 0 <= i < j < |s.waiters| && Priority(s.prio, s.waiters[i]) == Priority(s.prio, s.waiters[j])
      ==> s.arrival[s.waiters[i]] < s.arrival[s.waiters[j]]
  }

  /** `w` is to be woken rather than `u`. */
  ghost predicate Ahead<T>(s: State<T>, w: T, u: T)
    requires w in s.arrival && u in s.arrival
  {
    || Priority(s.prio, w) > Priority(s.prio, u)
    || (Priority(s.prio, w) == Priority(s.prio, u) && s.arrival[w] < s.arrival[u])
  }

  /** The first of a class is the first element that belongs to it. */
  lemma {:induction false} ClassFirst<T>(less: (T, T) -> bool, q: seq<T>, x: T, j: nat)
    requires j < |q| && Same(less, q[j], x)
    ensures Class(less, q, x) != []
    ensures exists i :: 0 <= i <= j && q[i] == Class(less, q, x)[0] && Same(less, q[i], x)
  {
    if !Same(less, q[0], x) {
      ClassFirst(less, q[1..], x, j - 1);
      var i :| 0 <= i <= j - 1 && q[1..][i] == Class(less, q[1..], x)[0] && Same(less, q[1..][i], x);
      assert q[i + 1] == q[1..][i];
    } else {
      assert q[0] == Class(less, q, x)[0];
    }
  }

  /** `sema_up` wakes the waiter of the highest priority that arrived first. */
  lemma UpWakesBest<T>(s: State<T>, w: T, s': State<T>, u: T)
    requires Inv(s) && InOrder(s) && Next(s, Up(Some(w)), s') && u in s.waiters && u != w
    ensures w in s.waiters && Ahead(s, w, u)
  {
    var t := [w] + s'.waiters;
    UpRearranges(s, w, s');
    FirstIsBest(Higher(s.prio), s.waiters, t, u);
    var i, j :| 0 <= i < |s.waiters| && 0 <= j < |s.waiters| && s.waiters[i] == w && s.waiters[j] == u
                && (Same(Higher(s.prio), u, w) ==> i <= j);
  }

  lemma FirstIsBest<T>(less: (T, T) -> bool, q: seq<T>, t: seq<T>, u: T)
    requires StablySorted(less, Members(q), q, t) && t != [] && u in q && Same(less, t[0], t[0])
    ensures t[0] == u || !less(u, t[0])
    ensures exists i, j :: 0 <= i < |q| && 0 <= j < |q| && q[i] == t[0] && q[j] == u && (Same(less, u, t[0]) ==> i <= j)
  {
    InMultiset(q, t, u);
    InMultiset(q, t, t[0]);
    var k :| 0 <= k < |t| && t[k] == u;
    var i :| 0 <= i < |q| && q[i] == t[0];
    var j :| 0 <= j < |q| && q[j] == u;
    assert t[0] in Members(q);
    if Same(less, u, t[0]) {
      assert Class(less, t, t[0])[0] == t[0];
      ClassFirst(less, q, t[0], j);
      i :| 0 <= i <= j && q[i] == t[0];
    }
  }

  /** Two elements that compare equal stand in their class in the same order. */
  lemma ClassPair<T>(less: (T, T) -> bool, t: seq<T>, i: nat, j: nat)
    requires i < j < |t| && Same(less, t[i], t[i]) && Same(less, t[j], t[i])
    ensures exists a, b :: 0 <= a < b < |Class(less, t, t[i])|
                           && Class(less, t, t[i])[a] == t[i] && Class(less, t, t[i])[b] == t[j]
  {
    var x := t[i];
    var c0, c1 := Class(less, t[..i], x), Class(less, t[i + 1..j], x);
    ClassSplit(less, t, x, j);
    ClassSplit(less, t[..j], x, i);
    assert t[..j][..i] == t[..i] && t[..j][i + 1..] == t[i + 1..j];
    var c := Class(less, t, x);
    assert c[|c0|] == t[i] && c[|c0| + 1 + |c1|] == t[j];
  }

  lemma ClassSplit<T>(less: (T, T) -> bool, t: seq<T>, x: T, i: nat)
    requires i < |t| && Same(less, t[i], x)
    ensures Class(less, t, x) == Class(less, t[..i], x) + [t[i]] + Class(less, t[i + 1..], x)
  {
    assert t == t[..i] + t[i..] && t[i..][1..] == t[i + 1..];
    ClassConcat(less, t[..i], t[i..], x);
  }

  lemma {:induction false} ClassPlaces<T>(less: (T, T) -> bool, q: seq<T>, x: T, a: nat, b: nat)
    requires a < b < |Class(less, q, x)|
    ensures exists i, j :: 0 <= i < j < |q| && q[i] == Class(less, q, x)[a] && q[j] == Class(less, q, x)[b]
  {
    var r := q[1..];
    if !Same(less, q[0], x) {
      ClassPlaces(less, r, x, a, b);
      var i, j :| 0 <= i < j < |r| && r[i] == Class(less, r, x)[a] && r[j] == Class(less, r, x)[b];
      assert q[i + 1] == r[i] && q[j + 1] == r[j];
    } else if a > 0 {
      ClassPlaces(less, r, x, a - 1, b - 1);
      var i, j :| 0 <= i < j < |r| && r[i] == Class(less, r, x)[a - 1] && r[j] == Class(less, r, x)[b - 1];
      assert q[i + 1] == r[i] && q[j + 1] == r[j];
    } else {
      ClassPlace(less, r, x, b - 1);
      var j :| 0 <= j < |r| && r[j] == Class(less, r, x)[b - 1];
      assert q[0] == Class(less, q, x)[a] && q[j + 1] == r[j];
    }
  }

  lemma {:induction false} ClassPlace<T>(less: (T, T) -> bool, q: seq<T>, x: T, a: nat)
    requires a < |Class(less, q, x)|
    ensures exists i :: 0 <= i < |q| && q[i] == Class(less, q, x)[a]
  {
    var r := q[1..];
    if !Same(less, q[0], x) {
      ClassPlace(less, r, x, a);
      var i :| 0 <= i < |r| && r[i] == Class(less, r, x)[a];
      assert q[i + 1] == r[i];
    } else if a > 0 {
      ClassPlace(less, r, x, a - 1);
      var i :| 0 <= i < |r| && r[i] == Class(less, r, x)[a - 1];
      assert q[i + 1] == r[i];
    } else {
      assert q[0] == Class(less, q, x)[a];
    }
  }

  /** Giving `t` the priority `p` puts it where it belongs among the waiters that already have it. */
  ghost predicate KeepsTurn<T>(s: State<T>, t: T, p: int)
    requires Inv(s)
  {
    forall i, k :: 0 <= i < |s.waiters| && 0 <= k < |s.waiters| && s.waiters[k] == t && i != k
                    && Priority(s.prio, s.waiters[i]) == p
      ==> (i < k <==> s.arrival[s.waiters[i]] < s.arrival[t])
  }

  /** Every step but a change of priority keeps the order of arrival ... */
  lemma OrderKept<T>(s: State<T>, a: Action<T>, s': State<T>)
    requires Inv(s) && InOrder(s) && Next(s, a, s') && !a.Donate?
    ensures Inv(s') && InOrder(s')
  {
    InvNext(s, a, s');
    hide Queued, Raised, InOrder;
    match a
    case Up(who) => UpInOrder(s, who, s');
    case Down(t) => LookInOrder(s, t);
    case Recheck(t) =>
      LeaveInOrder(s, t);
      LookInOrder(s.(woken := s.woken - {t}), t);
    case TryDown => ValueInOrder(s, s');
  }

  lemma ValueInOrder<T>(s: State<T>, s': State<T>)
    requires Queued(s) && InOrder(s) && s' == s.(value := s'.value)
    ensures Queued(s') && InOrder(s')
  {
  }

  lemma LeaveInOrder<T>(s: State<T>, t: T)
    requires Queued(s) && InOrder(s) && t in s.woken
    ensures Queued(s.(woken := s.woken - {t})) && InOrder(s.(woken := s.woken - {t})) && t !in s.waiters
  {
  }

  lemma UpInOrder<T>(s: State<T>, who: Option<T>, s': State<T>)
    requires Inv(s) && InOrder(s) && Next(s, Up(who), s') && Queued(s')
    ensures InOrder(s')
  {
    if who.Some? {
      var t := [who.value] + s'.waiters;
      forall i, j | 0 <= i < j < |s'.waiters| && Priority(s.prio, s'.waiters[i]) == Priority(s.prio, s'.waiters[j])
        ensures s.arrival[s'.waiters[i]] < s.arrival[s'.waiters[j]]
      {
        UpKeepsPair(s, s.waiters, t, i + 1, j + 1);
      }
    }
  }

  lemma LookInOrder<T>(s: State<T>, t: T)
    requires Queued(s) && InOrder(s) && Queued(Look(s, t)) && t !in s.waiters
    ensures InOrder(Look(s, t))
  {
  }

  lemma UpKeepsPair<T>(s: State<T>, q: seq<T>, t: seq<T>, i: nat, j: nat)
    requires Inv(s) && InOrder(s) && q == s.waiters && Stable(Higher(s.prio), Members(q), q, t)
    requires i < j < |t| && Priority(s.prio, t[i]) == Priority(s.prio, t[j])
    ensures t[i] in s.arrival && t[j] in s.arrival && s.arrival[t[i]] < s.arrival[t[j]]
  {
    var less := Higher(s.prio);
    ClassPair(less, t, i, j);
    InMultiset(q, t, t[i]);
    assert t[i] in Members(q);
    var a, b :| 0 <= a < b < |Class(less, q, t[i])|
                && Class(less, q, t[i])[a] == t[i] && Class(less, q, t[i])[b] == t[j];
    ClassPlaces(less, q, t[i], a, b);
    var i', j' :| 0 <= i' < j' < |q| && q[i'] == t[i] && q[j'] == t[j];
  }

  /** ... and a change of priority keeps it exactly when it keeps the thread's turn. */
  lemma DonationOrder<T>(s: State<T>, t: T, p: int, s': State<T>)
    requires Inv(s) && InOrder(s) && Next(s, Donate(t, p), s') && Priority(s.prio, t) != p
    ensures Inv(s') && (InOrder(s') <==> KeepsTurn(s, t, p))
  {
    var q := s.waiters;
    if InOrder(s') {
      forall i, k | 0 <= i < |q| && 0 <= k < |q| && q[k] == t && i != k && Priority(s.prio, q[i]) == p
        ensures i < k <==> s.arrival[q[i]] < s.arrival[t]
      {
        assert Priority(s'.prio, q[i]) == Priority(s'.prio, q[k]);
      }
    }
    if KeepsTurn(s, t, p) {
      forall i, j | 0 <= i < j < |q| && Priority(s'.prio, q[i]) == Priority(s'.prio, q[j])
        ensures s.arrival[q[i]] < s.arrival[q[j]]
      {
        if q[i] != t && q[j] != t {
          assert Priority(s.prio, q[i]) == Priority(s.prio, q[j]);
        } else if q[i] == t {
          assert Priority(s.prio, q[j]) == p;
        } else {
          assert Priority(s.prio, q[i]) == p;
        }
      }
    }
  }

  // ----- Whole runs -----

  datatype Run<!T> = Run(states: seq<State<T>>, actions: seq<Action<T>>)

  ghost predicate IsRun<T>(r: Run<T>, value: nat) {
    && |r.states| == |r.actions| + 1 && Init(r.states[0], value)
    && forall k :: 0 <= k < |r.actions| ==> Next(r.states[k], r.actions[k], r.states[k + 1])
  }

  /** In no reachable state has a wakeup been lost. */
  lemma {:induction false} NoLostWakeup<T>(r: Run<T>, value: nat, k: nat)
    requires IsRun(r, value) && k <= |r.actions|
    ensures Inv(r.states[k])
  {
    if k == 0 {
      InvInit(r.states[0], value);
    } else {
      NoLostWakeup(r, value, k - 1);
      InvNext(r.states[k - 1], r.actions[k - 1], r.states[k]);
    }
  }

  /** How often the semaphore was raised in the first `k` steps. */
  ghost function Raises<T>(r: Run<T>, k: nat): nat
    requires k <= |r.actions|
  {
    if k == 0 then 0 else Raises(r, k - 1) + if r.actions[k - 1].Up? then 1 else 0
  }

  /** How often a thread got through in the first `k` steps. */
  ghost function Passes<T>(r: Run<T>, k: nat): nat
    requires k <= |r.actions| < |r.states|
  {
    if k == 0 then 0
    else
      var a := r.actions[k - 1];
      Passes(r, k - 1) + if (a.Down? || a.Recheck? || a.TryDown?) && r.states[k - 1].value > 0 then 1 else 0
  }

  /** The value is what was put in less what was taken out. */
  lemma {:induction false} ValueConserved<T>(r: Run<T>, value: nat, k: nat)
    requires IsRun(r, value) && k <= |r.actions|
    ensures r.states[k].value + Passes(r, k) == value + Raises(r, k)
  {
    if k > 0 {
      ValueConserved(r, value, k - 1);
      assert Next(r.states[k - 1], r.actions[k - 1], r.states[k]);
    }
  }

  /** Every priority change in the first `k` steps of the run keeps the thread's turn. */
  ghost predicate TurnsKept<T>(r: Run<T>, value: nat, k: nat)
    requires IsRun(r, value) && k <= |r.actions|
  {
    forall j :: 0 <= j < k && r.actions[j].Donate? ==>
      (NoLostWakeup(r, value, j);
       r.actions[j].p == Priority(r.states[j].prio, r.actions[j].t)
       || KeepsTurn(r.states[j], r.actions[j].t, r.actions[j].p))
  }

  /** As long as priority changes keep turns, waiters of the same priority stay in order of arrival ... */
  lemma {:induction false} ArrivalOrder<T>(r: Run<T>, value: nat, k: nat)
    requires IsRun(r, value) && k <= |r.actions| && TurnsKept(r, value, k)
    ensures Inv(r.states[k]) && InOrder(r.states[k])
  {
    NoLostWakeup(r, value, k);
    if k > 0 {
      ArrivalOrder(r, value, k - 1);
      var s, a, s' := r.states[k - 1], r.actions[k - 1], r.states[k];
      assert Next(s, a, s');
      if a.Donate? {
        assert a.p == Priority(s.prio, a.t) || KeepsTurn(s, a.t, a.p);
        if a.p != Priority(s.prio, a.t) {
          DonationOrder(s, a.t, a.p, s');
        } else {
          forall i | 0 <= i < |s.waiters| ensures Priority(s'.prio, s.waiters[i]) == Priority(s.prio, s.waiters[i]) {
          }
        }
      } else {
        OrderKept(s, a, s');
      }
    }
  }

  /** ... so that `sema_up` wakes the earliest waiter of maximal priority. */
  lemma WakesEarliest<T>(r: Run<T>, value: nat, k: nat, w: T, u: T)
    requires IsRun(r, value) && k < |r.actions| && TurnsKept(r, value, k)
    requires r.actions[k] == Up(Some(w)) && u in r.states[k].waiters && u != w
    ensures w in r.states[k].arrival && u in r.states[k].arrival && Ahead(r.states[k], w, u)
  {
    ArrivalOrder(r, value, k);
    UpWakesBest(r.states[k], w, r.states[k + 1], u);
  }

  // ----- A run in which a donation lets a later thread overtake -----

  const BEFORE := map[1 := 1, 2 := 2, 3 := 3]
  const AFTER := map[1 := 2, 2 := 2, 3 := 3]
  const ARRIVED := map[1 := 0, 2 := 1, 3 := 2]

  /** Threads 1, 2 and 3 wait in this order with these priorities; 3 is woken; then 1 is raised to priority 2. */
  ghost function OvertakingRun(): Run<int> {
    Run([State(0, [], {}, BEFORE, map[], 0),
         State(0, [1], {}, BEFORE, map[1 := 0], 1),
         State(0, [1, 2], {}, BEFORE, map[1 := 0, 2 := 1], 2),
         State(0, [1, 2, 3], {}, BEFORE, ARRIVED, 3),
         State(1, [2, 1], {3}, BEFORE, ARRIVED, 3),
         State(1, [2, 1], {3}, AFTER, ARRIVED, 3),
         State(2, [1], {3, 2}, AFTER, ARRIVED, 3)],
        [Down(1), Down(2), Down(3), Up(Some(3)), Donate(1, 2), Up(Some(2))])
  }

  /** Three elements in the wrong order are sorted by turning them round. */
  lemma TurnThree<T>(less: (T, T) -> bool, a: T, b: T, c: T)
    requires less(c, b) && less(b, a) && less(c, a) && !less(a, b) && !less(b, c) && !less(a, c)
    ensures StablySorted(less, Members([a, b, c]), [a, b, c], [c, b, a])
  {
    forall x | x in Members([a, b, c]) ensures Class(less, [c, b, a], x) == Class(less, [a, b, c], x) {
      Ones(less, a, b, c, x);
      Ones(less, c, b, a, x);
    }
  }

  function One<T>(less: (T, T) -> bool, a: T, x: T): seq<T> {
    if Same(less, a, x) then [a] else []
  }

  lemma Ones<T>(less: (T, T) -> bool, a: T, b: T, c: T, x: T)
    ensures Class(less, [a, b, c], x) == One(less, a, x) + One(less, b, x) + One(less, c, x)
  {
    assert [a, b, c] == [a] + ([b] + [c]);
    ClassConcat(less, [a], [b] + [c], x);
    ClassConcat(less, [b], [c], x);
    ClassOne(less, a, x);
    ClassOne(less, b, x);
    ClassOne(less, c, x);
  }

  lemma ClassOne<T>(less: (T, T) -> bool, a: T, x: T)
    ensures Class(less, [a], x) == One(less, a, x)
  {
    assert [a][1..] == [];
  }

  /** Thread 2 is woken although thread 1 has the same priority and arrived first. */
  lemma DonationOvertakes()
    ensures var r := OvertakingRun();
            IsRun(r, 0) && r.actions[5] == Up(Some(2)) && 1 in r.states[5].waiters && !Ahead(r.states[5], 2, 1)
  {
    hide Next;
    var r := OvertakingRun();
    ThreeArrive(r);
    ThirdWoken(r.states[3], r.states[4]);
    FirstRaised(r.states[4], r.states[5]);
    SecondWoken(r.states[5], r.states[6]);
    forall k | 0 <= k < 6 ensures Next(r.states[k], r.actions[k], r.states[k + 1]) {
      assert k < 3 || k == 3 || k == 4 || k == 5;
    }
  }

  lemma FirstRaised(s: State<int>, s': State<int>)
    requires s == State(1, [2, 1], {3}, BEFORE, ARRIVED, 3) && s' == State(1, [2, 1], {3}, AFTER, ARRIVED, 3)
    ensures Next(s, Donate(1, 2), s')
  {
    assert BEFORE[1 := 2] == AFTER;
  }

  lemma ThreeArrive(r: Run<int>)
    requires r == OvertakingRun()
    ensures forall k :: 0 <= k < 3 ==> Next(r.states[k], r.actions[k], r.states[k + 1])
  {
    assert Next(r.states[0], Down(1), r.states[1]);
    assert Next(r.states[1], Down(2), r.states[2]);
    assert Next(r.states[2], Down(3), r.states[3]);
  }

  lemma ThirdWoken(s: State<int>, s': State<int>)
    requires s == State(0, [1, 2, 3], {}, BEFORE, ARRIVED, 3) && s' == State(1, [2, 1], {3}, BEFORE, ARRIVED, 3)
    ensures Next(s, Up(Some(3)), s')
  {
    TurnThree(Higher(BEFORE), 1, 2, 3);
    assert [3] + [2, 1] == [3, 2, 1];
  }

  lemma SecondWoken(s: State<int>, s': State<int>)
    requires s == State(1, [2, 1], {3}, AFTER, ARRIVED, 3) && s' == State(2, [1], {3, 2}, AFTER, ARRIVED, 3)
    ensures Next(s, Up(Some(2)), s')
  {
    var less := Higher(AFTER);
    assert Priority(AFTER, 1) == 2 && Priority(AFTER, 2) == 2;
    assert [2] + [1] == [2, 1] && !less(1, 2);
    StableRefl(less, Members([2, 1]), [2, 1]);
  }

  // ----- Locks -----

  /** A lock: `inside` are the threads between getting through and giving back, `leaving` those of them that
      have cleared the holder and not yet raised the semaphore. */
  datatype Lock<!T> = Lock(sema: State<T>, holder: Option<T>, inside: set<T>, leaving: set<T>)

  datatype LockAction<T> =
    | Acquire(t: T)
    | Resume(t: T)                   // a woken thread goes on inside `lock_acquire`
    | TryAcquire(t: T)
    | ClearHolder(t: T)              // the first half of `lock_release`, with interrupts on
    | Release(t: T, who: Option<T>)
    | Reprioritize(t: T, p: int)

  /** The step of the semaphore that a step of the lock makes, if any. */
  function SemaAction<T>(a: LockAction<T>): Option<Action<T>> {
    match a
    case Acquire(t) => Some(Down(t))
    case Resume(t) => Some(Recheck(t))
    case TryAcquire(t) => Some(TryDown)
    case ClearHolder(t) => None
    case Release(t, who) => Some(Up(who))
    case Reprioritize(t, p) => Some(Donate(t, p))
  }

  ghost predicate LockNext<T>(l: Lock<T>, a: LockAction<T>, l': Lock<T>) {
    && (match SemaAction(a) case None => l'.sema == l.sema case Some(b) => Next(l.sema, b, l'.sema))
    && match a {
         case Acquire(t) => l.holder != Some(t) && t !in l.inside && l' == Through(l, t, l'.sema)
         case Resume(t) => l' == Through(l, t, l'.sema)
         case TryAcquire(t) =>
           l.holder != Some(t) && t !in l.inside && t !in l.sema.waiters && t !in l.sema.woken
           && l' == Through(l, t, l'.sema)
         case ClearHolder(t) => l.holder == Some(t) && l' == l.(holder := None, leaving := l.leaving + {t})
         case Release(t, _) => t in l.leaving && l' == Lock(l'.sema, l.holder, l.inside - {t}, l.leaving - {t})
         case Reprioritize(_, _) => l' == l.(sema := l'.sema)
       }
  }

  /** `t` becomes the holder if it got through. */
  ghost function Through<T>(l: Lock<T>, t: T, sema: State<T>): Lock<T> {
    if l.sema.value > 0 then Lock(sema, Some(t), l.inside + {t}, l.leaving) else l.(sema := sema)
  }

  ghost predicate LockInit<T>(l: Lock<T>) {
    Init(l.sema, 1) && l.holder == None && l.inside == {} && l.leaving == {}
  }

  ghost predicate LockInv<T>(l: Lock<T>) {
    && Inv(l.sema)
    && l.sema.value + |l.inside| == 1
    && (forall t :: t in l.inside ==> t !in l.sema.waiters && t !in l.sema.woken)
    && match l.holder {
         case Some(h) => l.inside == {h} && l.leaving == {}
         case None => l.leaving == l.inside
       }
  }

  lemma LockInvNext<T>(l: Lock<T>, a: LockAction<T>, l': Lock<T>)
    requires LockInv(l) && LockNext(l, a, l')
    ensures LockInv(l')
  {
    hide Inv, Next;
    if SemaAction(a).Some? {
      InvNext(l.sema, SemaAction(a).value, l'.sema);
    }
    InsideApart(l, a, l');
    if (a.Acquire? || a.Resume? || a.TryAcquire?) && l.sema.value > 0 {
      assert l.inside == {};
    }
  }

  /** No thread inside waits or is about to look again. */
  lemma InsideApart<T>(l: Lock<T>, a: LockAction<T>, l': Lock<T>)
    requires LockInv(l) && LockNext(l, a, l')
    ensures l'.sema.value + |l'.inside| == 1
    ensures forall t :: t in l'.inside ==> t !in l'.sema.waiters && t !in l'.sema.woken
  {
    hide Raised;
    if a.Release? {
      UpKeepsAway(l.sema, a.who, l'.sema);
    }
  }

  /** `sema_up` brings no thread to the semaphore that was not there. */
  lemma UpKeepsAway<T>(s: State<T>, who: Option<T>, s': State<T>)
    requires Inv(s) && Next(s, Up(who), s')
    ensures s'.value == s.value + 1
    ensures forall t :: t !in s.waiters && t !in s.woken ==> t !in s'.waiters && t !in s'.woken
  {
    if who.Some? {
      UpRearranges(s, who.value, s');
    }
  }

  datatype LockRun<!T> = LockRun(locks: seq<Lock<T>>, actions: seq<LockAction<T>>)

  ghost predicate IsLockRun<T>(r: LockRun<T>) {
    && |r.locks| == |r.actions| + 1 && LockInit(r.locks[0])
    && forall k :: 0 <= k < |r.actions| ==> LockNext(r.locks[k], r.actions[k], r.locks[k + 1])
  }

  /** In every reachable state at most one thread is inside, and a holder means that the lock is taken. */
  lemma {:induction false} MutualExclusion<T>(r: LockRun<T>, k: nat)
    requires IsLockRun(r) && k <= |r.actions|
    ensures LockInv(r.locks[k])
    ensures forall t, u :: t in r.locks[k].inside && u in r.locks[k].inside ==> t == u
    ensures r.locks[k].sema.value + |r.locks[k].inside| == 1
    ensures r.locks[k].holder.Some? ==> r.locks[k].sema.value == 0 && r.locks[k].inside == {r.locks[k].holder.value}
  {
    if k == 0 {
      InvInit(r.locks[0].sema, 1);
    } else {
      MutualExclusion(r, k - 1);
      LockInvNext(r.locks[k - 1], r.actions[k - 1], r.locks[k]);
    }
    AtMostOne(r.locks[k].inside);
  }

  lemma AtMostOne<T>(xs: set<T>)
    requires |xs| <= 1
    ensures forall t, u :: t in xs && u in xs ==> t == u
  {
    if t: T :| t in xs {
      assert |xs - {t}| == |xs| - 1;
      assert xs == {t} + (xs - {t});
    }
  }
}
