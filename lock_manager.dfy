/** The lock manager's mutable state (BufferPool.java, classes LockEntry and
    LockManager): entries are objects whose holder set, queue and mode flag
    are updated in place, kept in a map from page to entry. Each method is
    proved to perform the matching transition of module LockTable. */
module LockManagers {
  import opened Common
  import opened LockTable

  class LockEntry {
    var active: set<Tid>
    var waitingRequests: seq<Lock>
    var isReadOnly: bool

    function View(): Entry
      reads this
    {
      Entry(active, waitingRequests, isReadOnly)
    }

    /** `new LockEntry(tid, perm)`: tid holds the new entry alone. */
    constructor (tid: Tid, perm: Permissions)
      ensures View() == NewEntry(tid, perm)
      ensures View() == Entry({tid}, [], perm == ReadOnly)
    {
      active := {};
      waitingRequests := [];
      isReadOnly := false;
      new;
      Set(tid, perm);
    }

    /** LockEntry.set: grants (tid, perm) only when nobody holds the entry. */
    method Set(tid: Tid, perm: Permissions)
      modifies this
      ensures View() == SetEntry(old(View()), tid, perm)
      ensures old(active) == {} ==> active == {tid} && (isReadOnly <==> perm == ReadOnly)
      ensures old(active) != {} ==> View() == old(View())
    {
      if |active| == 0 {
        active := active + {tid};
        isReadOnly := perm == ReadOnly;
      }
    }

    /** LockEntry.add: a READ_ONLY request joins a read-only entry. */
    method Add(tid: Tid, perm: Permissions) returns (added: bool)
      modifies this
      ensures added <==> old(isReadOnly) && perm == ReadOnly
      ensures View() == if added then old(View()).(active := old(active) + {tid}) else old(View())
    {
      if isReadOnly && perm == ReadOnly {
        active := active + {tid};
        return true;
      }
      return false;
    }

    /** The body of LockManager.releaseLock once the page's entry is found:
        tid leaves the holder set; when the set becomes empty and requests
        wait, the head request is granted and, if it is read-only, so is each
        consecutive READ_ONLY request behind it. */
    method Release(tid: Tid)
      modifies this
      ensures View() == LockTable.Release(old(View()), tid)
    {
      if tid in active {
        active := active - {tid};
      }
      if |active| == 0 && |waitingRequests| > 0 {
        PromoteWaiting();
      }
    }

    /** The promotion part of releaseLock, entered with no holder and a
        non-empty queue: pop the head and grant it; while the entry is
        read-only, also pop and grant each READ_ONLY request at the front. */
    method PromoteWaiting()
      requires active == {} && waitingRequests != []
      modifies this
      ensures View() == Promote(old(View()))
    {
      ghost var rest := waitingRequests[1..];
      var l := waitingRequests[0];
      waitingRequests := waitingRequests[1..];
      Set(l.tid, l.perm);
      ReadPrefixSpec(rest);
      if isReadOnly && |waitingRequests| > 0 {
        ghost var j := 0;
        while waitingRequests != [] && waitingRequests[0].perm == ReadOnly
          invariant 0 <= j <= ReadPrefix(rest)
          invariant waitingRequests == rest[j..]
          invariant active == {l.tid} + TidsOf(rest[..j])
          invariant isReadOnly
          decreases |waitingRequests|
        {
          var read := waitingRequests[0];
          waitingRequests := waitingRequests[1..];
          active := active + {read.tid};
          TidsOfSnoc(rest, j);
          j := j + 1;
        }
        assert j == ReadPrefix(rest);
      } else if isReadOnly {
        assert rest[..0] == [];
      }
    }

    /** The body of LockManager.acquireLock once the page's entry is found,
        up to the spin-wait: a holder returns at once; a free entry is taken;
        any other request is queued at the back unless an equal one waits
        already, and is not granted. */
    method Request(tid: Tid, perm: Permissions) returns (granted: bool)
      modifies this
      ensures (granted, View()) == AcquireEntry(old(View()), tid, perm)
    {
      var lock := Lock(tid, perm);
      if ContainsTid(tid) {
        return true;
      }
      if |active| == 0 {
        active := active + {tid};
        isReadOnly := perm == ReadOnly;
        return true;
      }
      // The read-request-under-write and upgrade branches that follow in the
      // source test `containsTid(tid)`, which is false here: neither can run.
      if lock !in waitingRequests {
        waitingRequests := waitingRequests + [lock];
      }
      return false;
    }

    /** The first half of LockManager.abort's step on one entry: collect
        tid's queued requests, then remove them all from the queue. */
    method DropRequestsOf(tid: Tid)
      modifies this
      ensures View() == old(View()).(waiting := WithoutTid(old(waitingRequests), tid))
    {
      var removeLocks := CollectRequestsOf(waitingRequests, tid);
      RemoveAllIsWithoutTid(waitingRequests, removeLocks, tid);
      waitingRequests := RemoveAll(waitingRequests, removeLocks);
    }

    predicate ContainsTid(tid: Tid)
      reads this
    {
      tid in active
    }
  }

  class LockManager {
    var locks: map<PageId, LockEntry>

    /** Distinct pages have distinct entry objects, and every entry keeps
        its invariant. */
    ghost predicate Valid()
      reads this, locks.Values
    {
      && (forall p, q :: p in locks && q in locks && p != q ==> locks[p] != locks[q])
      && (forall p :: p in locks ==> EntryInv(locks[p].View()))
    }

    /** The lock table as a value. */
    ghost function Table(): Table
      reads this, locks.Values
    {
      map p | p in locks :: locks[p].View()
    }

    constructor ()
      ensures Valid() && Table() == map[]
    {
      locks := map[];
    }

    /** Only `locks[pid]` may have changed: the table is the old one with
        pid's entry replaced by the entry object's current value. */
    twostate lemma OneEntryChanged(pid: PageId)
      requires old(Valid()) && pid in old(locks) && locks == old(locks)
      requires forall p :: p in locks && p != pid ==> unchanged(locks[p])
      ensures Table() == old(Table())[pid := locks[pid].View()]
      ensures EntryInv(locks[pid].View()) ==> Valid()
    {
    }

    /** LockManager.acquireLock up to its spin-wait. `granted` is false when
        the request was queued: the source then spins on a test that compares
        a Lock with the TransactionIds of the holder set, which never holds,
        so the call ends with TransactionAbortedException once its 1.5 s
        elapse; the queued request stays in the queue. */
    method AcquireLock(pid: PageId, tid: Tid, perm: Permissions) returns (granted: bool)
      requires Valid()
      modifies this, locks.Values
      ensures Valid()
      ensures (granted, Table()) == Acquire(old(Table()), pid, tid, perm)
      ensures locks.Keys == old(locks.Keys) + {pid}
      ensures forall p :: p in old(locks) ==> locks[p] == old(locks[p])
    {
      AcquireInv(Table(), pid, tid, perm);
      if pid !in locks {
        PutNewEntry(pid, tid, perm);
        return true;
      }
      granted := locks[pid].Request(tid, perm);
      OneEntryChanged(pid);
    }

    /** `locks.put(pid, new LockEntry(tid, perm))` for a page with no entry. */
    method PutNewEntry(pid: PageId, tid: Tid, perm: Permissions)
      requires Valid() && pid !in locks
      modifies this
      ensures Valid()
      ensures Table() == old(Table())[pid := NewEntry(tid, perm)]
      ensures locks.Keys == old(locks.Keys) + {pid}
      ensures forall p :: p in old(locks) ==> locks[p] == old(locks[p])
    {
      var e := new LockEntry(tid, perm);
      locks := locks[pid := e];
      assert Table() == old(Table())[pid := NewEntry(tid, perm)] by {
        forall p | p in old(locks) ensures locks[p].View() == old(locks[p].View()) {
          assert locks[p] == old(locks[p]);
        }
      }
    }

    /** LockManager.releaseLock. `ok` is false when the page has no entry:
        the source then throws NullPointerException, having changed nothing. */
    method ReleaseLock(pid: PageId, tid: Tid) returns (ok: bool)
      requires Valid()
      modifies locks.Values
      ensures Valid() && locks == old(locks)
      ensures ok <==> pid in old(Table())
      ensures Table() == if ok then old(Table())[pid := Release(old(Table())[pid], tid)] else old(Table())
      ensures forall p :: p in locks && p != pid ==> unchanged(locks[p])
    {
      if pid !in locks {
        return false;
      }
      ok := true;
      var lockentry := locks[pid];
      ReleaseInv(lockentry.View(), tid);
      lockentry.Release(tid);
      OneEntryChanged(pid);
    }

    /** LockManager.checkLock: whether tid holds the lock on p. */
    function CheckLock(tid: Tid, p: PageId): (r: bool)
      reads this, locks.Values
      ensures r <==> Holds(Table(), tid, p)
    {
      p in locks && locks[p].ContainsTid(tid)
    }

    /** One round of LockManager.abort's loop: drop tid's queued requests
        from pid's entry, then release tid if it holds the entry. */
    method AbortAt(pid: PageId, tid: Tid)
      requires Valid() && pid in locks
      modifies locks.Values
      ensures Valid() && locks == old(locks)
      ensures Table() == old(Table())[pid := AbortEntry(old(Table())[pid], tid)]
      ensures forall p :: p in locks && p != pid ==> unchanged(locks[p])
    {
      var le := locks[pid];
      ghost var e0 := le.View();
      EntryInvAfterFilter(e0, tid);
      le.DropRequestsOf(tid);
      OneEntryChanged(pid);
      if le.ContainsTid(tid) {
        var _ := ReleaseLock(pid, tid);
      }
    }

    /** LockManager.abort: for every entry, drop tid's queued requests and,
        when tid holds the entry, release it (with promotion). Afterwards tid
        holds nothing and waits for nothing. */
    method Abort(tid: Tid)
      requires Valid()
      modifies locks.Values
      ensures Valid() && locks == old(locks)
      ensures Table() == AbortAll(old(Table()), tid)
      ensures forall p :: p in Table() ==> !Holds(Table(), tid, p) && tid !in TidsOf(Table()[p].waiting)
    {
      AbortAllSpec(Table(), tid);
      ghost var t0 := Table();
      var pending := locks.Keys;
      PartialAbortNone(t0, tid);
      while pending != {}
        invariant Valid() && locks == old(locks) && pending <= locks.Keys
        invariant Table() == PartialAbort(t0, pending, tid)
        decreases pending
      {
        var pid :| pid in pending;
        AbortAt(pid, tid);
        PartialAbortStep(t0, pending, pid, tid);
        pending := pending - {pid};
      }
      PartialAbortAll(t0, tid);
    }
  }

  /** The table once the pages outside `pending` have had tid aborted. */
  function PartialAbort(t: Table, pending: set<PageId>, tid: Tid): Table
  {
    map p | p in t :: if p in pending then t[p] else AbortEntry(t[p], tid)
  }

  lemma PartialAbortNone(t: Table, tid: Tid)
    ensures PartialAbort(t, t.Keys, tid) == t
  {
  }

  lemma PartialAbortStep(t: Table, pending: set<PageId>, pid: PageId, tid: Tid)
    requires pid in pending && pending <= t.Keys
    ensures PartialAbort(t, pending, tid)[pid := AbortEntry(t[pid], tid)] == PartialAbort(t, pending - {pid}, tid)
  {
  }

  lemma PartialAbortAll(t: Table, tid: Tid)
    ensures PartialAbort(t, {}, tid) == AbortAll(t, tid)
  {
  }

  /** The requests of `tid` in the queue, collected as abort's inner loop
      does before removing them. */
  method CollectRequestsOf(q: seq<Lock>, tid: Tid) returns (removeLocks: set<Lock>)
    ensures forall l :: l in removeLocks <==> l in q && l.tid == tid
  {
    removeLocks := {};
    var i := 0;
    while i < |q|
      invariant 0 <= i <= |q|
      invariant forall l :: l in removeLocks <==> l in q[..i] && l.tid == tid
    {
      if q[i].tid == tid {
        removeLocks := removeLocks + {q[i]};
      }
      assert q[..i + 1] == q[..i] + [q[i]];
      i := i + 1;
    }
    assert q[..i] == q;
  }

  /** `LinkedList.removeAll(s)`: the queue without the requests in `s`. */
  function RemoveAll(q: seq<Lock>, s: set<Lock>): seq<Lock>
  {
    if q == [] then []
    else if q[0] in s then RemoveAll(q[1..], s)
    else [q[0]] + RemoveAll(q[1..], s)
  }

  lemma {:induction false} RemoveAllIsWithoutTid(q: seq<Lock>, s: set<Lock>, tid: Tid)
    requires forall l :: l in s <==> l in q && l.tid == tid
    ensures RemoveAll(q, s) == WithoutTid(q, tid)
    decreases |q|
  {
    if q != [] {
      forall l | l in q[1..] ensures l in q { assert l == q[1 + IndexIn(q[1..], l)]; }
      RemoveAllIsWithoutTid(q[1..], (set l | l in s && l in q[1..]), tid);
      RemoveAllRestrict(q[1..], s);
    }
  }

  function IndexIn(q: seq<Lock>, l: Lock): (i: nat)
    requires l in q
    ensures i < |q| && q[i] == l
  {
    if q[0] == l then 0 else 1 + IndexIn(q[1..], l)
  }

  /** Only the members of `s` that occur in `q` matter to RemoveAll. */
  lemma {:induction false} RemoveAllRestrict(q: seq<Lock>, s: set<Lock>)
    ensures RemoveAll(q, s) == RemoveAll(q, set l | l in s && l in q)
    decreases |q|
  {
    if q != [] {
      var s' := set l | l in s && l in q;
      var s1 := set l | l in s && l in q[1..];
      var s2 := set l | l in s' && l in q[1..];
      assert s1 == s2 by {
        forall l | l in q[1..] ensures l in q { assert l == q[1 + IndexIn(q[1..], l)]; }
      }
      RemoveAllRestrict(q[1..], s);
      RemoveAllRestrict(q[1..], s');
    }
  }

  lemma TidsOfSnoc(q: seq<Lock>, j: nat)
    requires j < |q|
    ensures TidsOf(q[..j + 1]) == TidsOf(q[..j]) + {q[j].tid}
  {
    var a, b := q[..j], q[..j + 1];
    forall x | x in TidsOf(b) ensures x in TidsOf(a) + {q[j].tid} {
      var i :| 0 <= i < |b| && b[i].tid == x;
      if i < j { assert a[i] == b[i]; }
    }
    forall x | x in TidsOf(a) + {q[j].tid} ensures x in TidsOf(b) {
      if x == q[j].tid { assert b[j].tid == x; }
      else {
        var i :| 0 <= i < |a| && a[i].tid == x;
        assert b[i] == a[i];
      }
    }
  }

  lemma EntryInvAfterFilter(e: Entry, tid: Tid)
    requires EntryInv(e)
    ensures EntryInv(e.(waiting := WithoutTid(e.waiting, tid)))
  {
    WithoutTidSpec(e.waiting, tid);
  }
}
