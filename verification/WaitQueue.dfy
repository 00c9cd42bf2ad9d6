/**
 The sections under the spinlocks of core/kernel/wait_queue.c and core/kernel/mutex.c: each
 as a function on the mutex and its wait queue, and as the loop that computes it.
 */
module WaitQueue {
  import opened Options

  type Tid = nat
  type Cv = nat

  /** struct wait_queue_elem. */
  datatype Elem = Elem(thread: Tid, cv: Option<Cv>, read: bool, done: bool)

  /** struct mutex: the state field and the queue. */
  datatype Mutex = Mutex(state: int, q: seq<Elem>)

  // ---------- wait queue ----------

  /** What the scan of wq_wake_next may wake: any active waiter first, after that readers only. */
  predicate Eligible(e: Elem, first: bool) {
    e.cv.None? && !e.done && (first || e.read)
  }

  /** The position at which the scan stops; |q| if nobody is eligible. */
  function FirstEligible(q: seq<Elem>, first: bool): (k: nat)
    ensures k <= |q| && (k < |q| ==> Eligible(q[k], first))
    ensures forall i :: 0 <= i < k ==> !Eligible(q[i], first)
  {
    if q == [] || Eligible(q[0], first) then 0 else
      var k := FirstEligible(q[1..], first);
      assert forall i :: 1 <= i < k + 1 ==> q[i] == q[1..][i - 1];
      k + 1
  }

  /** One pass of the loop of wq_wake_next. */
  function Scanned(q: seq<Elem>, first: bool): (q': seq<Elem>) {
    var k := FirstEligible(q, first);
    if k < |q| then q[k := q[k].(done := true)] else q
  }

  /** The first waiter for cv; |q| if there is none. */
  function FirstWaiter(q: seq<Elem>, cv: Cv): (k: nat)
    ensures k <= |q| && (k < |q| ==> q[k].cv == Some(cv))
    ensures forall i :: 0 <= i < k ==> q[i].cv != Some(cv)
  {
    if q == [] || q[0].cv == Some(cv) then 0 else
      var k := FirstWaiter(q[1..], cv);
      assert forall i :: 1 <= i < k + 1 ==> q[i] == q[1..][i - 1];
      k + 1
  }

  /** wq_promote_condvar. */
  function Promoted(q: seq<Elem>, cv: Cv, all: bool): (q': seq<Elem>)
    ensures |q'| == |q|
    ensures forall i :: 0 <= i < |q| ==>
      q'[i] == if q[i].cv == Some(cv) && (all || i == FirstWaiter(q, cv)) then q[i].(cv := None) else q[i]
  {
    seq(|q|, i requires 0 <= i < |q| =>
      if q[i].cv == Some(cv) && (all || i == FirstWaiter(q, cv)) then q[i].(cv := None) else q[i])
  }

  /** The position of the element of thread t; |q| if there is none. */
  function Position(q: seq<Elem>, t: Tid): (k: nat)
    ensures k <= |q| && (k < |q| ==> q[k].thread == t)
    ensures forall i :: 0 <= i < k ==> q[i].thread != t
  {
    if q == [] || q[0].thread == t then 0 else
      var k := Position(q[1..], t);
      assert forall i :: 1 <= i < k + 1 ==> q[i] == q[1..][i - 1];
      k + 1
  }

  /** SLIST_REMOVE of the element of thread t. */
  function Without(q: seq<Elem>, t: Tid): (q': seq<Elem>) {
    var k := Position(q, t);
    if k < |q| then q[..k] + q[k + 1..] else q
  }

  ghost predicate OnePerThread(q: seq<Elem>) {
    forall i, j :: 0 <= i < j < |q| ==> q[i].thread != q[j].thread
  }

  lemma WithoutMembers(q: seq<Elem>, t: Tid)
    requires OnePerThread(q)
    ensures OnePerThread(Without(q, t))
    ensures forall e :: e in Without(q, t) <==> e in q && e.thread != t
  {
    var k, r := Position(q, t), Without(q, t);
    forall e
      ensures e in r <==> e in q && e.thread != t
    {
      if e in q && e.thread != t {
        var j :| 0 <= j < |q| && q[j] == e;
        assert k < |q| ==> if j < k then r[j] == e else r[j - 1] == e;
      }
    }
  }

  // ---------- mutex ----------

  predicate Free(mx: Mutex, read: bool) {
    if read then mx.state != -1 else mx.state == 0
  }

  /** The state after a successful lock. */
  function Taken(mx: Mutex, read: bool): Mutex {
    mx.(state := if read then mx.state + 1 else -1)
  }

  function Enqueued(mx: Mutex, e: Elem): Mutex {
    mx.(q := mx.q + [e])
  }

  /** The state after one holder has given up the mutex: several readers lose one, otherwise it is free. */
  function Dropped(mx: Mutex): Mutex {
    mx.(state := if mx.state > 1 then mx.state - 1 else 0)
  }

  /** struct mutex in memory. */
  class Lock {
    var state: int
    var q: seq<Elem>

    function View(): Mutex
      reads this
    {
      Mutex(state, q)
    }

    constructor ()
      ensures View() == Mutex(0, [])
    {
      state, q := 0, [];
    }

    /** slist_add_tail. */
    method AddTail(e: Elem)
      modifies this
      ensures View() == Enqueued(old(View()), e)
    {
      if q != [] {
        var last := 0;
        while last + 1 < |q|
          invariant last < |q|
        {
          last := last + 1;
        }
        q := q[..last + 1] + [e] + q[last + 1..];
      } else {
        q := [e];
      }
    }

    /** The section of __mutex_lock, or of __mutex_read_lock if read is set, of thread t. */
    method LockSection(t: Tid, read: bool) returns (canLock: bool)
      modifies this
      ensures canLock <==> Free(old(View()), read)
      ensures View() == if canLock then Taken(old(View()), read) else Enqueued(old(View()), Elem(t, None, read, false))
    {
      canLock := if read then state != -1 else state == 0;
      if !canLock {
        AddTail(Elem(t, None, read, false));
      } else {
        state := if read then state + 1 else -1;
      }
    }

    /** The section of the trylock calls: on failure nothing is queued. */
    method TrySection(read: bool) returns (canLock: bool)
      modifies this
      ensures canLock <==> Free(old(View()), read)
      ensures View() == if canLock then Taken(old(View()), read) else old(View())
    {
      canLock := if read then state != -1 else state == 0;
      if canLock {
        state := if read then state + 1 else -1;
      }
    }

    /** The section of __mutex_unlock; panics if the mutex is free. */
    method UnlockSection() returns (panics: bool)
      modifies this
      ensures panics <==> old(state) == 0
      ensures View() == old(View()).(state := 0)
    {
      if state == 0 {
        return true;
      }
      state := 0;
      panics := false;
    }

    /** The section of __mutex_read_unlock. */
    method ReadUnlockSection() returns (panics: bool, newState: int)
      modifies this
      ensures panics <==> old(state) <= 0
      ensures !panics ==> View() == Dropped(old(View())) && newState == state
      ensures panics ==> View() == old(View())
    {
      if state <= 0 {
        return true, state;
      }
      state := state - 1;
      return false, state;
    }

    /** The second section of __condvar_wait: the thread queues for cv and gives up the mutex. */
    method WaitSection(t: Tid, cv: Cv) returns (panics: bool, wake: bool, read: bool)
      modifies this
      ensures panics <==> old(state) == 0
      ensures panics ==> View() == old(View())
      ensures !panics ==> read == (old(state) > 0) && wake == (state == 0)
      ensures !panics ==> View() == Dropped(Enqueued(old(View()), Elem(t, Some(cv), read, false)))
    {
      if state == 0 {
        return true, false, false;
      }
      read := state > 0;
      AddTail(Elem(t, Some(cv), read, false));
      if state > 1 {
        state := state - 1;
      } else {
        state := 0;
      }
      return false, state == 0, read;
    }

    /** One section of wq_wake_next: the thread to wake, if any, and whether another pass follows. */
    method ScanSection(first: bool) returns (wake: Option<Tid>, again: bool)
      modifies this`q
      ensures q == Scanned(old(q), first)
      ensures var k := FirstEligible(old(q), first);
        if k < |q| then wake == Some(q[k].thread) && again == q[k].read else wake == None && !again
    {
      var wakeRead, typed := !first, !first;
      for i := 0 to |q|
        invariant q == old(q) && typed == !first && (typed ==> wakeRead)
        invariant forall k :: 0 <= k < i ==> !Eligible(q[k], first)
      {
        var e := q[i];
        if e.cv.Some? || e.done {
          continue;
        }
        if !typed {
          wakeRead := e.read;
          typed := true;
        }
        if e.read != wakeRead {
          continue;
        }
        q := q[i := e.(done := true)];
        return Some(e.thread), wakeRead;
      }
      return None, false;
    }

    /** wq_promote_condvar. */
    method PromoteSection(cv: Cv, all: bool)
      modifies this`q
      ensures q == Promoted(old(q), cv, all)
    {
      for i := 0 to |q|
        invariant |q| == |old(q)|
        invariant forall k :: i <= k < |q| ==> q[k] == old(q)[k]
        invariant forall k :: 0 <= k < i ==>
          q[k] == if old(q)[k].cv == Some(cv) then old(q)[k].(cv := None) else old(q)[k]
        invariant all || i <= FirstWaiter(old(q), cv)
      {
        if q[i].cv == Some(cv) {
          q := q[i := q[i].(cv := None)];
          if !all {
            break;
          }
        }
      }
    }

    /** The section of wq_wait_final: a thread that has been woken leaves the queue. */
    method FinalSection(t: Tid) returns (done: bool)
      requires Position(q, t) < |q|
      modifies this`q
      ensures done <==> old(q)[Position(old(q), t)].done
      ensures q == if done then Without(old(q), t) else old(q)
    {
      var i := 0;
      while q[i].thread != t
        invariant i <= Position(q, t) && q == old(q)
        decreases |q| - i
      {
        i := i + 1;
      }
      done := q[i].done;
      if done {
        q := q[..i] + q[i + 1..];
      }
    }

    /** wq_have_condvar, the check of condvar_destroy. */
    method HaveCondvar(cv: Cv) returns (found: bool)
      ensures found <==> exists e :: e in q && e.cv == Some(cv)
    {
      for i := 0 to |q|
        invariant forall k :: 0 <= k < i ==> q[k].cv != Some(cv)
      {
        if q[i].cv == Some(cv) {
          return true;
        }
      }
      found := false;
    }
  }
}
