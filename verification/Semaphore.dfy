/**
  The code that semaphores run with interrupts off (`threads/synch.c`), on the linked list of
  waiters.  Threads are named by the list element embedded in them; their priorities, which
  other code changes, are a parameter.
 */
module Semaphores {
  import opened Wrappers
  import opened Sorting
  import opened Lists
  import opened Synch

  class Semaphore {
    var value: nat
    const waiters: List

    ghost predicate Valid()
      reads this, waiters, waiters.nodes
    {
      waiters.Valid()
    }

    ghost function Waiters(): seq<Elem>
      requires |waiters.nodes| >= 2
      reads this, waiters
    {
      waiters.Items()
    }

    constructor (value: nat)
      ensures Valid() && this.value == value && Waiters() == []
    {
      this.value := value;
      waiters := new List();
    }

    /** One turn of the loop in `sema_down`: `t` gets through, or is put among the waiters to block. */
    method Look(t: Elem) returns (passed: bool)
      requires Valid() && t !in waiters.nodes
      modifies this, waiters, waiters.nodes, t
      ensures Valid() && Looked(old(value), old(Waiters()), t, value, Waiters())
      ensures passed <==> old(value) > 0
    {
      if value == 0 {
        waiters.PushBack(t);
        return false;
      }
      value := value - 1;
      return true;
    }

    method TryDown() returns (success: bool)
      requires Valid()
      modifies this
      ensures Valid() && Waiters() == old(Waiters()) && (success <==> old(value) > 0)
      ensures value == if success then old(value) - 1 else old(value)
    {
      if value > 0 {
        value := value - 1;
        success := true;
      } else {
        success := false;
      }
    }

    /** Raises the value and takes the thread to unblock, if any, from the waiters. */
    method Up(prio: map<Elem, int>) returns (who: Option<Elem>)
      requires Valid()
      modifies this, waiters, waiters.nodes
      ensures Valid() && Raised(prio, old(value), old(Waiters()), who, value, Waiters())
      ensures who.Some? ==> who.value in old(Waiters())
                            && forall t :: t in old(Waiters()) ==> Priority(prio, t) <= Priority(prio, who.value)
    {
      hide Linked, Stable;
      value := value + 1;
      Neighbours(waiters.nodes, 0);
      SamePlace(waiters.nodes, 1, |waiters.nodes| - 1);
      if waiters.head.next == waiters.tail {
        return None;
      }
      ghost var q, xs := Waiters(), Members(Waiters());
      waiters.Sort(Higher(prio), xs);
      StableLength(Higher(prio), xs, q, Waiters());
      var t := waiters.PopFront();
      who := Some(t);
      FirstIsHighest(prio, q, t, Waiters());
    }
  }
}
