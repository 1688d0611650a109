/** BufferPool (BufferPool.java): a bounded list of cached pages, most
    recently used at the front, with the lock manager that admits each page
    request. Disk reads and writes are left to the page store: a page read
    from disk enters the list clean, and a page handed to the store's
    writePage is recorded, in order, in `written`. */
module BufferPools {
  import opened Common
  import opened LockTable
  import opened LockManagers
  import opened CacheList

  /** How getPage ends: the page is returned, the lock request is aborted
      (TransactionAbortedException), or no clean page can make room
      (DbException from evictPage). */
  datatype Fetch = Fetched | Aborted | AllDirty

  class BufferPool {
    var cache: Cache
    const maxSize: int
    const manager: LockManager
    /** Ids of the pages handed to the page store's writePage, in order. */
    var written: seq<PageId>

    /** Ids are unique in the list and every dirty page is a page the lock
        manager has an entry for (it was dirtied under a write lock). */
    ghost predicate Valid()
      reads this, manager, manager.locks.Values
    {
      manager.Valid() && CacheValid()
    }

    ghost predicate CacheValid()
      reads this, manager
    {
      && UniqueIds(cache)
      && forall x :: x in cache && x.dirtyBy.Some? ==> x.id in manager.locks
    }

    constructor (numPages: int)
      ensures Valid() && fresh(manager)
      ensures cache == [] && maxSize == numPages && written == []
      ensures manager.Table() == map[]
    {
      maxSize := numPages;
      cache := [];
      written := [];
      manager := new LockManager();
    }

    /** BufferPool.find: a hit moves the page to the front of the list, a
        miss leaves the list as it is. */
    method Find(pid: PageId) returns (hit: bool)
      requires CacheValid()
      modifies this`cache
      ensures CacheValid()
      ensures hit <==> pid in Ids(old(cache))
      ensures hit ==> cache == MoveToFront(old(cache), Position(old(cache), pid).value) && cache[0].id == pid
      ensures !hit ==> cache == old(cache)
      ensures multiset(cache) == multiset(old(cache))
    {
      var c := cache;
      var i := 0;
      while i < |c| && c[i].id != pid
        invariant 0 <= i <= |c|
        invariant forall k :: 0 <= k < i ==> c[k].id != pid
      {
        i := i + 1;
      }
      hit := i < |c|;
      if hit {
        assert pid in Ids(c) && Position(c, pid) == Some(i) by {
          assert c[i] in c;
          PositionAt(c, pid, i);
        }
        MoveToFrontFacts(c, i);
        cache := MoveToFront(c, i);
      } else {
        assert pid !in Ids(c) by {
          assert forall x :: x in c ==> x.id != pid;
        }
      }
    }

    /** BufferPool.evictPage: scanning from the back, removes the first clean
        page; fails, with the list unchanged, when every page is dirty. */
    method EvictPage() returns (ok: bool)
      requires CacheValid()
      modifies this`cache
      ensures CacheValid()
      ensures ok <==> Victim(old(cache)).Some?
      ensures ok ==> cache == RemoveAt(old(cache), Victim(old(cache)).value)
      ensures !ok ==> cache == old(cache)
    {
      var i := |cache|;
      while i > 0
        invariant 0 <= i <= |cache| && cache == old(cache)
        invariant forall k :: i <= k < |cache| ==> cache[k].dirtyBy.Some?
      {
        i := i - 1;
        if cache[i].dirtyBy.None? {
          RemoveAtFacts(cache, i);
          cache := RemoveAt(cache, i);
          return true;
        }
      }
      return false;
    }

    /** BufferPool.getPage, without the wait: the lock request goes to the
        lock manager; once granted the page is looked up, and on a miss read
        clean from disk and pushed at the front, after evicting when the list
        is full. */
    method GetPage(tid: Tid, pid: PageId, perm: Permissions) returns (r: Fetch)
      requires Valid()
      modifies this, manager, manager.locks.Values
      ensures Valid() && written == old(written)
      ensures (r == Aborted <==> !Acquire(old(manager.Table()), pid, tid, perm).0)
      ensures manager.Table() == Acquire(old(manager.Table()), pid, tid, perm).1
      ensures r == Aborted || r == AllDirty ==> cache == old(cache)
      ensures r != Aborted ==> (r == AllDirty <==> FetchInto(old(cache), pid, maxSize).None?)
      ensures r == Fetched ==> cache == FetchInto(old(cache), pid, maxSize).value
    {
      var granted := manager.AcquireLock(pid, tid, perm);
      if !granted {
        return Aborted;
      }
      var ok := Admit(pid);
      r := if ok then Fetched else AllDirty;
    }

    /** The cache part of getPage (its lines after the lock is granted): a
        hit moves the page to the front; a miss evicts when the list is full
        and pushes the page, read clean from disk, at the front. */
    method Admit(pid: PageId) returns (ok: bool)
      requires CacheValid()
      modifies this`cache
      ensures CacheValid()
      ensures ok <==> FetchInto(old(cache), pid, maxSize).Some?
      ensures ok ==> cache == FetchInto(old(cache), pid, maxSize).value
      ensures !ok ==> cache == old(cache)
    {
      FetchIntoSpec(cache, pid, maxSize);
      var hit := Find(pid);
      if !hit {
        if |cache| >= maxSize {
          ok := EvictPage();
          if !ok {
            return;
          }
        }
        cache := [CachedPage(pid, None)] + cache;
      }
      return true;
    }

    /** BufferPool.insertTuple: each page the file returns is removed from
        the list, marked dirty by tid and pushed at the front. The file
        returns pages it fetched under tid's write lock. */
    method InsertTuple(tid: Tid, pages: seq<PageId>)
      requires CacheValid()
      requires forall i :: 0 <= i < |pages| ==> Holds(manager.Table(), tid, pages[i])
      modifies this`cache
      ensures CacheValid()
      ensures cache == MarkAllDirty(old(cache), pages, tid)
    {
      var i := 0;
      while i < |pages|
        invariant 0 <= i <= |pages|
        invariant CacheValid()
        invariant MarkAllDirty(cache, pages[i..], tid) == MarkAllDirty(old(cache), pages, tid)
      {
        assert pages[i..][1..] == pages[i + 1..];
        MarkPageDirty(pages[i], tid);
        i := i + 1;
      }
    }

    /** Marking one page dirty keeps the pool valid when the page has a
        lock entry. */
    lemma MarkDirtyValid(pid: PageId, tid: Tid)
      requires CacheValid() && pid in manager.locks
      ensures UniqueIds(MarkDirty(cache, pid, tid))
      ensures forall x :: x in MarkDirty(cache, pid, tid) && x.dirtyBy.Some? ==> x.id in manager.locks
    {
      MarkDirtyUnique(cache, pid, tid);
      RemoveIdFacts(cache, pid);
    }

    /** BufferPool.deleteTuple: the tuple's page is fetched READ_WRITE
        through getPage, then removed, marked dirty by tid and pushed at the
        front. */
    method DeleteTuple(tid: Tid, pid: PageId) returns (r: Fetch)
      requires Valid()
      modifies this, manager, manager.locks.Values
      ensures Valid() && written == old(written)
      ensures (r == Aborted <==> !Acquire(old(manager.Table()), pid, tid, ReadWrite).0)
      ensures manager.Table() == Acquire(old(manager.Table()), pid, tid, ReadWrite).1
      ensures r == Aborted || r == AllDirty ==> cache == old(cache)
      ensures r == Fetched ==> FetchInto(old(cache), pid, maxSize).Some? && cache == MarkDirty(FetchInto(old(cache), pid, maxSize).value, pid, tid)
      ensures r == Fetched ==> cache[0] == CachedPage(pid, Some(tid)) && |cache| == |FetchInto(old(cache), pid, maxSize).value|
    {
      r := GetPage(tid, pid, ReadWrite);
      if r == Fetched {
        assert pid in manager.Table();
        assert cache[0] in cache;
        RemoveIdFacts(cache, pid);
        MarkPageDirty(pid, tid);
      }
    }

    /** `cache.remove(pg); pg.markDirty(true, tid); cache.push(pg)`. */
    method MarkPageDirty(pid: PageId, tid: Tid)
      requires CacheValid() && pid in manager.locks
      modifies this`cache
      ensures CacheValid() && manager.Table() == old(manager.Table())
      ensures cache == MarkDirty(old(cache), pid, tid)
    {
      MarkDirtyValid(pid, tid);
      cache := RemoveId(cache, pid);
      cache := [CachedPage(pid, Some(tid))] + cache;
    }

    /** BufferPool.flushPage: the page is looked up through find (a hit
        moves it to the front) and handed to writePage; its dirty marker is
        left as it was. */
    method FlushPage(pid: PageId)
      requires CacheValid()
      modifies this`cache, this`written
      ensures CacheValid() && manager.Table() == old(manager.Table())
      ensures written == old(written) + [pid]
      ensures pid in Ids(old(cache)) ==> cache == MoveToFront(old(cache), Position(old(cache), pid).value)
      ensures pid !in Ids(old(cache)) ==> cache == old(cache)
      ensures multiset(cache) == multiset(old(cache))
    {
      var _ := Find(pid);
      written := written + [pid];
    }

    /** BufferPool.flushPages: every page dirtied by tid is flushed once and
        its lock released; no page is cleaned and no page leaves the list.
        Each flush moves its page to the front, so the flushed pages end at
        the front, the last one written first, and the other pages follow
        in their old order. */
    method FlushPages(tid: Tid)
      requires Valid()
      modifies this`cache, this`written, manager.locks.Values
      ensures Valid() && manager.locks == old(manager.locks)
      ensures multiset(cache) == multiset(old(cache))
      ensures |written| == |old(written)| + |DirtyIds(old(cache), tid)|
      ensures written[..|old(written)|] == old(written)
      ensures forall p :: p in written[|old(written)|..] <==> p in DirtyIds(old(cache), tid)
      ensures manager.Table() == ReleasePages(old(manager.Table()), DirtyIds(old(cache), tid), tid)
      ensures FlushedFront(cache, old(cache), written[|old(written)|..], DirtyIds(old(cache), tid))
    {
      ghost var c0, w0, t0 := cache, written, manager.Table();
      var toRemove := CollectDirty(cache, tid);
      ghost var d := toRemove;
      ghost var done: set<PageId> := {};
      ghost var order: seq<PageId> := [];
      ghost var locks0 := manager.locks;
      assert d <= locks0.Keys;
      ReleasePagesNone(t0, tid);
      WithoutIdsNoop(c0, {});
      while toRemove != {}
        invariant Valid() && manager.locks == locks0
        invariant multiset(cache) == multiset(c0)
        invariant UniqueIds(c0) && FlushedFront(cache, c0, order, done)
        invariant Swept(d, toRemove, done, order) && written == w0 + order
        invariant manager.Table() == ReleasePages(t0, done, tid)
        decreases toRemove
      {
        var pid :| pid in toRemove;
        SweepStep(d, toRemove, done, order, pid);
        FlushAndRelease(pid, tid, t0, c0, done, w0, order);
        toRemove := toRemove - {pid};
        done := done + {pid};
        order := order + [pid];
      }
      assert written[|w0|..] == order && done == d;
    }

    /** One round of flushPages' loop: flush the page, then release tid's
        lock on it. Stated against the pages released so far (`done`) and
        the pages written so far (`order`). */
    method FlushAndRelease(pid: PageId, tid: Tid, ghost t0: Table, ghost c0: Cache, ghost done: set<PageId>,
                           ghost w0: seq<PageId>, ghost order: seq<PageId>)
      requires Valid() && pid in manager.locks && pid in t0 && pid !in done
      requires manager.Table() == ReleasePages(t0, done, tid) && written == w0 + order
      requires UniqueIds(c0) && FlushedFront(cache, c0, order, done) && pid in DirtyIds(c0, tid)
      requires forall p :: p in order ==> p in done
      modifies this`cache, this`written, manager.locks.Values
      ensures Valid() && manager.locks == old(manager.locks)
      ensures multiset(cache) == multiset(old(cache))
      ensures pid in Ids(old(cache)) ==> cache == MoveToFront(old(cache), Position(old(cache), pid).value)
      ensures written == w0 + (order + [pid])
      ensures manager.Table() == ReleasePages(t0, done + {pid}, tid)
      ensures FlushedFront(cache, c0, order + [pid], done + {pid})
    {
      assert pid in Ids(c0) by { var x :| x in c0 && x.dirtyBy == Some(tid) && x.id == pid; }
      FlushStep(cache, c0, order, done, pid);
      FlushPage(pid);
      AppendAssoc(w0, order, pid);
      ReleasePagesStep(t0, done, pid, tid);
      var _ := manager.ReleaseLock(pid, tid);
    }

    /** BufferPool.transactionComplete. On commit, tid's dirty pages are
        flushed and its locks released. On abort, each page tid dirtied is
        removed and its clean re-read from disk appended at the back of the
        list, its lock released, and then all of tid's locks and queued
        requests dropped. */
    method TransactionComplete(tid: Tid, commit: bool)
      requires Valid()
      modifies this`cache, this`written, manager.locks.Values
      ensures Valid() && manager.locks == old(manager.locks)
      ensures manager.Table() ==
        AbortAll(ReleasePages(old(manager.Table()), DirtyIds(old(cache), tid), tid), tid)
      ensures commit ==> multiset(cache) == multiset(old(cache))
      ensures commit ==> |written| == |old(written)| + |DirtyIds(old(cache), tid)|
      ensures commit ==> written[..|old(written)|] == old(written)
      ensures commit ==> forall p :: p in written[|old(written)|..] <==> p in DirtyIds(old(cache), tid)
      ensures commit ==> FlushedFront(cache, old(cache), written[|old(written)|..], DirtyIds(old(cache), tid))
      ensures !commit ==> written == old(written) && |cache| == |old(cache)|
      ensures !commit ==>
        var w := WithoutIds(old(cache), DirtyIds(old(cache), tid));
        && |w| <= |cache| && cache[..|w|] == w
        && Ids(cache[|w|..]) == DirtyIds(old(cache), tid)
        && forall k :: |w| <= k < |cache| ==> cache[k].dirtyBy.None?
    {
      if commit {
        FlushPages(tid);
      } else {
        DiscardDirtyPages(tid);
      }
      manager.Abort(tid);
    }

    /** The abort branch of transactionComplete before its final call to the
        lock manager's abort: every page dirtied by tid is removed, its clean
        re-read appended at the back, and tid's lock on it released. */
    method DiscardDirtyPages(tid: Tid)
      requires Valid()
      modifies this`cache, manager.locks.Values
      ensures Valid() && manager.locks == old(manager.locks) && written == old(written)
      ensures manager.Table() == ReleasePages(old(manager.Table()), DirtyIds(old(cache), tid), tid)
      ensures |cache| == |old(cache)|
      ensures var w := WithoutIds(old(cache), DirtyIds(old(cache), tid));
        && |w| <= |cache| && cache[..|w|] == w
        && Ids(cache[|w|..]) == DirtyIds(old(cache), tid)
        && forall k :: |w| <= k < |cache| ==> cache[k].dirtyBy.None?
    {
      ghost var c0, t0 := cache, manager.Table();
      var toRemove := CollectDirty(cache, tid);
      ghost var d := toRemove;
      ghost var done: set<PageId> := {};
      ghost var tail: Cache := [];
      ghost var locks0 := manager.locks;
      assert d <= locks0.Keys && d <= Ids(c0);
      ReleasePagesNone(t0, tid);
      WithoutIdsNoop(c0, {});
      while toRemove != {}
        invariant Valid() && manager.locks == locks0
        invariant toRemove + done == d && toRemove !! done
        invariant cache == WithoutIds(c0, done) + tail && |cache| == |c0|
        invariant Ids(tail) == done
        invariant forall k :: 0 <= k < |tail| ==> tail[k].dirtyBy.None?
        invariant manager.Table() == ReleasePages(t0, done, tid)
        decreases toRemove
      {
        var pid :| pid in toRemove;
        MoveOne(d, toRemove, done, pid);
        RereadAndRelease(pid, tid, c0, t0, done, tail);
        toRemove := toRemove - {pid};
        done := done + {pid};
        tail := tail + [CachedPage(pid, None)];
      }
      WithoutIdsFacts(c0, d);
      assert cache[|WithoutIds(c0, d)|..] == tail;
    }

    /** One round of the abort sweep: remove the page, append its clean
        re-read at the back of the list, release tid's lock on it. Stated
        against the pages swept so far (`done`) and the re-read pages
        appended so far (`tail`). */
    method RereadAndRelease(pid: PageId, tid: Tid, ghost c0: Cache, ghost t0: Table,
                            ghost done: set<PageId>, ghost tail: Cache)
      requires Valid() && UniqueIds(c0) && pid in Ids(c0) && pid !in done && Ids(tail) == done
      requires pid in manager.locks && pid in t0
      requires cache == WithoutIds(c0, done) + tail && manager.Table() == ReleasePages(t0, done, tid)
      requires forall k :: 0 <= k < |tail| ==> tail[k].dirtyBy.None?
      modifies this`cache, manager.locks.Values
      ensures Valid() && manager.locks == old(manager.locks)
      ensures cache == WithoutIds(c0, done + {pid}) + (tail + [CachedPage(pid, None)])
      ensures |cache| == |old(cache)|
      ensures Ids(tail + [CachedPage(pid, None)]) == done + {pid}
      ensures forall k :: 0 <= k < |tail| + 1 ==> (tail + [CachedPage(pid, None)])[k].dirtyBy.None?
      ensures manager.Table() == ReleasePages(t0, done + {pid}, tid)
    {
      Reread(pid, c0, done, tail);
      ReleasePagesStep(t0, done, pid, tid);
      var _ := manager.ReleaseLock(pid, tid);
    }

    /** The cache half of one round of the abort sweep: `cache.remove(p)`
        followed by `cache.add` of the page read back from disk. */
    method Reread(pid: PageId, ghost c0: Cache, ghost done: set<PageId>, ghost tail: Cache)
      requires CacheValid() && UniqueIds(c0) && pid in Ids(c0) && pid !in done && Ids(tail) == done
      requires cache == WithoutIds(c0, done) + tail
      modifies this`cache
      ensures CacheValid() && manager.Table() == old(manager.Table())
      ensures cache == WithoutIds(c0, done + {pid}) + (tail + [CachedPage(pid, None)])
      ensures |cache| == |old(cache)|
      ensures Ids(tail + [CachedPage(pid, None)]) == done + {pid}
    {
      AbortStep(c0, done, tail, pid);
      RemoveIdFacts(cache, pid);
      cache := RemoveId(cache, pid);
      cache := cache + [CachedPage(pid, None)];
    }

    /** BufferPool.discardPage: its body is commented out, so nothing
        changes. */
    method DiscardPage(pid: PageId)
      ensures cache == old(cache) && written == old(written)
    {
    }

    /** BufferPool.holdsLock. */
    function HoldsLock(tid: Tid, p: PageId): (r: bool)
      reads this, manager, manager.locks.Values
      ensures r <==> p in manager.Table() && tid in manager.Table()[p].active
    {
      manager.CheckLock(tid, p)
    }

    /** BufferPool.releasePage. */
    method ReleasePage(tid: Tid, pid: PageId) returns (ok: bool)
      requires Valid()
      modifies manager.locks.Values
      ensures Valid() && manager.locks == old(manager.locks)
      ensures ok <==> pid in old(manager.Table())
      ensures manager.Table() ==
        if ok then old(manager.Table())[pid := Release(old(manager.Table())[pid], tid)] else old(manager.Table())
    {
      ok := manager.ReleaseLock(pid, tid);
    }
  }

  /** The collecting loop of flushPages and transactionComplete: the ids
      of the pages whose dirty marker is tid. */
  method CollectDirty(c: Cache, tid: Tid) returns (s: set<PageId>)
    ensures s == DirtyIds(c, tid)
  {
    s := {};
    var i := 0;
    while i < |c|
      invariant 0 <= i <= |c|
      invariant s == DirtyIds(c[..i], tid)
    {
      assert c[..i + 1] == c[..i] + [c[i]];
      assert forall x :: x in c[..i + 1] <==> x in c[..i] || x == c[i];
      if c[i].dirtyBy == Some(tid) {
        s := s + {c[i].id};
      }
      i := i + 1;
    }
    assert c[..i] == c;
  }

  /** Bookkeeping of the sweep loops: moving one page from the pages to
      visit to the pages visited. */
  lemma MoveOne(d: set<PageId>, toRemove: set<PageId>, done: set<PageId>, pid: PageId)
    requires toRemove + done == d && toRemove !! done && pid in toRemove
    ensures (toRemove - {pid}) + (done + {pid}) == d && (toRemove - {pid}) !! (done + {pid})
    ensures toRemove - {pid} < toRemove && pid !in done
  {
  }

  /** flushPages' sweep also lists the visited pages in the order it
      wrote them. */
  ghost predicate Swept(d: set<PageId>, toRemove: set<PageId>, done: set<PageId>, order: seq<PageId>)
  {
    && toRemove + done == d && toRemove !! done
    && |order| == |done| && forall p :: p in order <==> p in done
  }

  /** The same bookkeeping step, for flushPages. */
  lemma SweepStep(d: set<PageId>, toRemove: set<PageId>, done: set<PageId>, order: seq<PageId>, pid: PageId)
    requires Swept(d, toRemove, done, order) && pid in toRemove
    ensures Swept(d, toRemove - {pid}, done + {pid}, order + [pid])
    ensures toRemove - {pid} < toRemove && pid !in done
  {
  }

  lemma AppendAssoc(a: seq<PageId>, b: seq<PageId>, x: PageId)
    ensures (a + b) + [x] == a + (b + [x])
  {
  }

  lemma ReleasePagesNone(t: Table, tid: Tid)
    ensures ReleasePages(t, {}, tid) == t
  {
  }

  lemma ReleasePagesStep(t: Table, done: set<PageId>, pid: PageId, tid: Tid)
    requires pid in t && pid !in done
    ensures pid in ReleasePages(t, done, tid)
    ensures ReleasePages(t, done, tid)[pid := Release(ReleasePages(t, done, tid)[pid], tid)]
      == ReleasePages(t, done + {pid}, tid)
  {
  }
}
