/** The page lock table of the buffer pool, as values: one entry per page
    holding the active holder set, the read-only flag and the FIFO queue of
    waiting requests, and the transitions the lock manager performs on it
    (BufferPool.java, classes Lock, LockEntry and LockManager). The classes in
    module LockManagers are proved to perform exactly these transitions. */
module LockTable {
  import opened Common

  /** A lock request; two requests are equal when tid and perm are. */
  datatype Lock = Lock(tid: Tid, perm: Permissions)

  /** One page's lock entry. */
  datatype Entry = Entry(active: set<Tid>, waiting: seq<Lock>, isReadOnly: bool)

  type Table = map<PageId, Entry>

  predicate NoDuplicates(q: seq<Lock>)
  {
    forall i, j :: 0 <= i < j < |q| ==> q[i] != q[j]
  }

  /** The transactions that have a request in `q`. */
  function TidsOf(q: seq<Lock>): set<Tid>
  {
    set i | 0 <= i < |q| :: q[i].tid
  }

  /** What every lock entry keeps: no request queued twice, a read-write
      entry has at most one holder, and nobody waits on an entry that no
      one holds. */
  predicate EntryInv(e: Entry)
  {
    && NoDuplicates(e.waiting)
    && (!e.isReadOnly ==> |e.active| <= 1)
    && (e.active == {} ==> e.waiting == [])
  }

  predicate TableInv(t: Table)
  {
    forall p :: p in t ==> EntryInv(t[p])
  }

  /** LockEntry.set: grant (tid, perm) when nobody holds the entry; otherwise
      the entry is left as it is. */
  function SetEntry(e: Entry, tid: Tid, perm: Permissions): Entry
  {
    if e.active == {} then e.(active := {tid}, isReadOnly := perm == ReadOnly) else e
  }

  /** A fresh entry: `new LockEntry(tid, perm)`. */
  function NewEntry(tid: Tid, perm: Permissions): Entry
  {
    SetEntry(Entry({}, [], false), tid, perm)
  }

  /** LockManager.acquireLock without its spin-wait: whether the request is
      granted at once, and the new table. A request that is not granted has
      been queued (unless an equal request already was). */
  function Acquire(t: Table, pid: PageId, tid: Tid, perm: Permissions): (r: (bool, Table))
    ensures r.1.Keys == t.Keys + {pid}
    ensures forall p :: p in t && p != pid ==> r.1[p] == t[p]
    ensures r.0 <==> tid in r.1[pid].active
  {
    if pid !in t then (true, t[pid := NewEntry(tid, perm)])
    else
      var (granted, e') := AcquireEntry(t[pid], tid, perm);
      (granted, t[pid := e'])
  }

  /** The part of acquireLock that works on an existing entry. */
  function AcquireEntry(e: Entry, tid: Tid, perm: Permissions): (bool, Entry)
  {
    if tid in e.active then (true, e)
    else if e.active == {} then (true, e.(active := {tid}, isReadOnly := perm == ReadOnly))
    else if Lock(tid, perm) in e.waiting then (false, e)
    else (false, e.(waiting := e.waiting + [Lock(tid, perm)]))
  }

  /** Number of consecutive READ_ONLY requests at the front of `q`. */
  function ReadPrefix(q: seq<Lock>): (k: nat)
    ensures k <= |q|
  {
    if q != [] && q[0].perm == ReadOnly then 1 + ReadPrefix(q[1..]) else 0
  }

  /** The head request is granted; when it is read-only, so is every
      consecutive READ_ONLY request behind it. */
  function Promote(e: Entry): Entry
    requires e.waiting != []
  {
    var h := e.waiting[0];
    var rest := e.waiting[1..];
    if h.perm == ReadOnly then
      var k := ReadPrefix(rest);
      Entry({h.tid} + TidsOf(rest[..k]), rest[k..], true)
    else
      Entry({h.tid}, rest, false)
  }

  /** LockManager.releaseLock on an existing entry. */
  function Release(e: Entry, tid: Tid): (r: Entry)
    ensures e.waiting != [] ==> r.active != {}
    ensures |r.waiting| <= |e.waiting|
  {
    var e1 := e.(active := e.active - {tid});
    if e1.active == {} && e1.waiting != [] then Promote(e1) else e1
  }

  /** The queue without any request of `tid`. */
  function WithoutTid(q: seq<Lock>, tid: Tid): seq<Lock>
  {
    if q == [] then []
    else if q[0].tid == tid then WithoutTid(q[1..], tid)
    else [q[0]] + WithoutTid(q[1..], tid)
  }

  /** What LockManager.abort does to one entry: drop tid's queued requests,
      then release tid if it holds the entry. */
  function AbortEntry(e: Entry, tid: Tid): Entry
  {
    var e1 := e.(waiting := WithoutTid(e.waiting, tid));
    if tid in e1.active then Release(e1, tid) else e1
  }

  function AbortAll(t: Table, tid: Tid): (r: Table)
    ensures r.Keys == t.Keys
  {
    map p | p in t :: AbortEntry(t[p], tid)
  }

  /** Releasing tid's lock on each page of `ps` (the pages are independent, so
      the order does not matter). */
  function ReleasePages(t: Table, ps: set<PageId>, tid: Tid): Table
  {
    map p | p in t :: if p in ps then Release(t[p], tid) else t[p]
  }

  /** LockManager.checkLock. */
  predicate Holds(t: Table, tid: Tid, pid: PageId)
  {
    pid in t && tid in t[pid].active
  }

  // ---------------------------------------------------------------------
  // Properties of the transitions

  lemma {:induction false} ReadPrefixSpec(q: seq<Lock>)
    ensures forall i :: 0 <= i < ReadPrefix(q) ==> q[i].perm == ReadOnly
    ensures ReadPrefix(q) < |q| ==> q[ReadPrefix(q)].perm == ReadWrite
    decreases |q|
  {
    if q != [] && q[0].perm == ReadOnly {
      ReadPrefixSpec(q[1..]);
      forall i | 0 < i < ReadPrefix(q) ensures q[i].perm == ReadOnly {
        assert q[i] == q[1..][i - 1];
      }
    }
  }

  /** A request on a page with no entry, or with an entry nobody holds, is
      granted at once: the requester becomes the only holder, the entry is
      read-only exactly when READ_ONLY was asked for, and no other page
      changes. */
  lemma AcquireFreePage(t: Table, pid: PageId, tid: Tid, perm: Permissions)
    requires pid !in t || t[pid].active == {}
    ensures Acquire(t, pid, tid, perm).0
    ensures var t' := Acquire(t, pid, tid, perm).1;
      && pid in t' && t'[pid].active == {tid}
      && (t'[pid].isReadOnly <==> perm == ReadOnly)
      && (pid in t ==> t'[pid].waiting == t[pid].waiting)
      && forall p :: p != pid ==> (p in t' <==> p in t) && (p in t ==> t'[p] == t[p])
  {
  }

  /** A request from a current holder returns at once and changes nothing,
      whatever permission it asks for: a read-only holder asking READ_WRITE
      keeps a read-only entry. */
  lemma AcquireByHolder(t: Table, pid: PageId, tid: Tid, perm: Permissions)
    requires Holds(t, tid, pid)
    ensures Acquire(t, pid, tid, perm) == (true, t)
  {
    assert t[pid := t[pid]] == t;
  }

  /** Any other request is not granted; it is appended to the back of the
      queue unless an equal request is queued already, holders and mode stay,
      and the queue stays free of duplicates. */
  lemma AcquireQueues(t: Table, pid: PageId, tid: Tid, perm: Permissions)
    requires pid in t && t[pid].active != {} && tid !in t[pid].active
    requires NoDuplicates(t[pid].waiting)
    ensures var (granted, t') := Acquire(t, pid, tid, perm);
      && !granted
      && t'.Keys == t.Keys
      && (forall p :: p in t && p != pid ==> t'[p] == t[p])
      && t'[pid].active == t[pid].active && t'[pid].isReadOnly == t[pid].isReadOnly
      && t'[pid].waiting == (if Lock(tid, perm) in t[pid].waiting then t[pid].waiting
                            else t[pid].waiting + [Lock(tid, perm)])
      && NoDuplicates(t'[pid].waiting)
  {
  }

  /** When the last holder leaves and requests wait, the head request is
      granted. A read-write head becomes the one and only holder. A read-only
      head is granted together with every consecutive READ_ONLY request behind
      it, and the queue then is empty or starts with a READ_WRITE request. */
  lemma ReleasePromotes(e: Entry, tid: Tid)
    requires e.active - {tid} == {} && e.waiting != []
    ensures var r := Release(e, tid); var h := e.waiting[0];
      && h.tid in r.active
      && (r.isReadOnly <==> h.perm == ReadOnly)
      && (h.perm == ReadWrite ==> r.active == {h.tid} && r.waiting == e.waiting[1..])
      && (h.perm == ReadOnly ==>
            && (forall i :: 1 <= i < 1 + ReadPrefix(e.waiting[1..]) ==> e.waiting[i].tid in r.active)
            && e.waiting == [h] + e.waiting[1..1 + ReadPrefix(e.waiting[1..])] + r.waiting
            && (r.waiting == [] || r.waiting[0].perm == ReadWrite)
            && r.active == {h.tid} + TidsOf(e.waiting[1..1 + ReadPrefix(e.waiting[1..])]))
  {
    var rest := e.waiting[1..];
    var k := ReadPrefix(rest);
    ReadPrefixSpec(rest);
    var r := Release(e, tid);
    if e.waiting[0].perm == ReadOnly {
      assert r == Entry({e.waiting[0].tid} + TidsOf(rest[..k]), rest[k..], true);
      forall i | 1 <= i < 1 + k ensures e.waiting[i].tid in r.active {
        assert e.waiting[i] == rest[..k][i - 1];
      }
      assert e.waiting[1..1 + k] == rest[..k];
      assert e.waiting == [e.waiting[0]] + rest[..k] + rest[k..];
    }
  }

  /** Releasing by a transaction that is not the last holder just removes it. */
  lemma ReleaseKeepsOthers(e: Entry, tid: Tid)
    requires e.active - {tid} != {}
    ensures Release(e, tid) == e.(active := e.active - {tid})
  {
  }

  lemma {:induction false} WithoutTidSpec(q: seq<Lock>, tid: Tid)
    ensures tid !in TidsOf(WithoutTid(q, tid))
    ensures forall l :: l in WithoutTid(q, tid) <==> l in q && l.tid != tid
    ensures NoDuplicates(q) ==> NoDuplicates(WithoutTid(q, tid))
    ensures |WithoutTid(q, tid)| <= |q|
    decreases |q|
  {
    if q != [] {
      WithoutTidSpec(q[1..], tid);
      var w := WithoutTid(q[1..], tid);
      forall l ensures l in q <==> l == q[0] || l in q[1..] {
        assert q == [q[0]] + q[1..];
      }
      if q[0].tid != tid {
        var r := [q[0]] + w;
        assert tid !in TidsOf(r) by {
          forall i | 0 <= i < |r| ensures r[i].tid != tid {
            if i > 0 { assert r[i] == w[i - 1]; assert w[i - 1].tid in TidsOf(w); }
          }
        }
        if NoDuplicates(q) {
          assert q[0] !in q[1..] by {
            forall i | 0 <= i < |q[1..]| ensures q[1..][i] != q[0] { assert q[1..][i] == q[i + 1]; }
          }
          forall i, j | 0 <= i < j < |r| ensures r[i] != r[j] {
            assert r[j] == w[j - 1];
            if i > 0 { assert r[i] == w[i - 1]; }
            else { assert r[j] in q[1..]; }
          }
        }
      } else {
        if NoDuplicates(q) {
          assert NoDuplicates(q[1..]) by {
            forall i, j | 0 <= i < j < |q[1..]| ensures q[1..][i] != q[1..][j] {
              assert q[1..][i] == q[i + 1] && q[1..][j] == q[j + 1];
            }
          }
        }
      }
    }
  }

  lemma SuffixNoDuplicates(q: seq<Lock>, k: nat)
    requires NoDuplicates(q) && k <= |q|
    ensures NoDuplicates(q[k..])
  {
    forall i, j | 0 <= i < j < |q[k..]| ensures q[k..][i] != q[k..][j] {
      assert q[k..][i] == q[k + i] && q[k..][j] == q[k + j];
    }
  }

  lemma TidsOfSubseq(q: seq<Lock>, a: nat, b: nat)
    requires a <= b <= |q|
    ensures TidsOf(q[a..b]) <= TidsOf(q)
  {
    forall x | x in TidsOf(q[a..b]) ensures x in TidsOf(q) {
      var i :| 0 <= i < |q[a..b]| && q[a..b][i].tid == x;
      assert q[a + i].tid == x;
    }
  }

  /** Release keeps the entry invariant. */
  lemma ReleaseInv(e: Entry, tid: Tid)
    requires EntryInv(e)
    ensures EntryInv(Release(e, tid))
  {
    var e1 := e.(active := e.active - {tid});
    if e1.active == {} && e1.waiting != [] {
      ReadPrefixSpec(e1.waiting[1..]);
      SuffixNoDuplicates(e1.waiting, 1);
      SuffixNoDuplicates(e1.waiting[1..], ReadPrefix(e1.waiting[1..]));
    } else {
      assert |e1.active| <= |e.active|;
    }
  }

  /** Acquire keeps the entry invariant of every entry. */
  lemma AcquireInv(t: Table, pid: PageId, tid: Tid, perm: Permissions)
    requires TableInv(t)
    ensures TableInv(Acquire(t, pid, tid, perm).1)
  {
    if pid in t {
      var e := t[pid];
      if tid !in e.active && e.active != {} && Lock(tid, perm) !in e.waiting {
        var q := e.waiting + [Lock(tid, perm)];
        forall i, j | 0 <= i < j < |q| ensures q[i] != q[j] {
          if j == |e.waiting| { assert q[i] in e.waiting; }
        }
      }
    }
  }

  /** Releasing a transaction that waits for nothing leaves it holding
      nothing and waiting for nothing. */
  lemma ReleaseDropsTid(e: Entry, tid: Tid)
    requires tid !in TidsOf(e.waiting)
    ensures tid !in Release(e, tid).active
    ensures tid !in TidsOf(Release(e, tid).waiting)
  {
    var e1 := e.(active := e.active - {tid});
    var q := e.waiting;
    if e1.active == {} && q != [] {
      var rest := q[1..];
      var k := ReadPrefix(rest);
      assert q[0].tid in TidsOf(q);
      TidsOfSubseq(q, 1, 1 + k);
      assert rest[..k] == q[1..1 + k];
      TidsOfSubseq(q, 1 + k, |q|);
      assert rest[k..] == q[1 + k..];
    }
  }

  /** Abort of one entry keeps the entry invariant, and afterwards the
      aborted transaction neither holds the entry nor waits on it. */
  lemma AbortEntrySpec(e: Entry, tid: Tid)
    requires EntryInv(e)
    ensures EntryInv(AbortEntry(e, tid))
    ensures tid !in AbortEntry(e, tid).active
    ensures tid !in TidsOf(AbortEntry(e, tid).waiting)
  {
    WithoutTidSpec(e.waiting, tid);
    var q := WithoutTid(e.waiting, tid);
    var e1 := e.(waiting := q);
    assert e.active == {} ==> q == [];
    assert EntryInv(e1);
    if tid in e1.active {
      ReleaseInv(e1, tid);
      ReleaseDropsTid(e1, tid);
    }
  }

  /** After LockManager.abort(tid), tid holds no page and waits for none, and
      every entry still satisfies its invariant; the set of pages with an
      entry is unchanged. */
  lemma AbortAllSpec(t: Table, tid: Tid)
    requires TableInv(t)
    ensures var t' := AbortAll(t, tid);
      && t'.Keys == t.Keys
      && TableInv(t')
      && forall p :: p in t' ==> !Holds(t', tid, p) && tid !in TidsOf(t'[p].waiting)
  {
    forall p | p in t ensures EntryInv(AbortEntry(t[p], tid)) {
      AbortEntrySpec(t[p], tid);
    }
    forall p | p in t ensures tid !in AbortEntry(t[p], tid).active && tid !in TidsOf(AbortEntry(t[p], tid).waiting) {
      AbortEntrySpec(t[p], tid);
    }
  }

  /** Releasing several pages keeps every entry's invariant. */
  lemma ReleasePagesInv(t: Table, ps: set<PageId>, tid: Tid)
    requires TableInv(t)
    ensures TableInv(ReleasePages(t, ps, tid)) && ReleasePages(t, ps, tid).Keys == t.Keys
  {
    forall p | p in t && p in ps ensures EntryInv(Release(t[p], tid)) {
      ReleaseInv(t[p], tid);
    }
  }
  // ---------------------------------------------------------------------
  // The read-write request of a current holder

  /** As written, acquireLock returns for any request of a current holder
      (BufferPool.java:98-100) before its upgrade branch (122-130) is reached.
      Two transactions share a read-only entry; one asks READ_WRITE and is
      told it has the lock while the other still holds it. */
  lemma HolderWriteGrantedWhileShared()
    ensures var t := map[PageId(1, 0) := Entry({1, 2}, [], true)];
      var (granted, t') := Acquire(t, PageId(1, 0), 1, ReadWrite);
      && TableInv(t)
      && granted
      && t'[PageId(1, 0)].active == {1, 2}
      && t'[PageId(1, 0)].isReadOnly
  {
  }

  /** acquireLock as its upgrade branch evidently intends: a holder returns at
      once only when what it holds suffices; a sole read-only holder asking
      READ_WRITE is upgraded in place; a read-only co-holder asking READ_WRITE
      has its request pushed to the front of the queue (once) and is not
      granted. Every other request is handled as by Acquire. */
  function AcquireUpgrading(t: Table, pid: PageId, tid: Tid, perm: Permissions): (r: (bool, Table))
    ensures r.1.Keys == t.Keys + {pid}
    ensures forall p :: p in t && p != pid ==> r.1[p] == t[p]
    ensures r.0 ==> tid in r.1[pid].active
  {
    if pid in t && tid in t[pid].active then
      var e := t[pid];
      if perm == ReadOnly || !e.isReadOnly then (true, t)
      else if |e.active| > 1 then
        (false, if Lock(tid, perm) in e.waiting then t
                else t[pid := e.(waiting := [Lock(tid, perm)] + e.waiting)])
      else (true, t[pid := e.(isReadOnly := false)])
    else Acquire(t, pid, tid, perm)
  }

  lemma SingletonHolder(s: set<Tid>, tid: Tid)
    requires tid in s && |s| <= 1
    ensures s == {tid}
  {
    assert |s - {tid}| == |s| - 1;
  }

  /** With the upgrade in place, every entry keeps its invariant and a
      granted READ_WRITE request leaves the requester as the one and only
      holder of a read-write entry. */
  lemma UpgradingWriteGrantIsExclusive(t: Table, pid: PageId, tid: Tid, perm: Permissions)
    requires TableInv(t)
    ensures var (granted, t') := AcquireUpgrading(t, pid, tid, perm);
      && TableInv(t')
      && (granted && perm == ReadWrite ==> pid in t' && t'[pid].active == {tid} && !t'[pid].isReadOnly)
  {
    if pid in t && tid in t[pid].active {
      var e := t[pid];
      if perm == ReadOnly || !e.isReadOnly {
        if perm == ReadWrite { SingletonHolder(e.active, tid); }
      } else if |e.active| > 1 {
        if Lock(tid, perm) !in e.waiting {
          var q := [Lock(tid, perm)] + e.waiting;
          forall i, j | 0 <= i < j < |q| ensures q[i] != q[j] {
            assert q[j] == e.waiting[j - 1];
            if i == 0 { assert q[j] in e.waiting; }
            else { assert q[i] == e.waiting[i - 1]; }
          }
        }
      } else {
        SingletonHolder(e.active, tid);
      }
    } else {
      AcquireInv(t, pid, tid, perm);
    }
  }
}
