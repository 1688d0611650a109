/** The buffer pool's page list as a value (BufferPool.java, field `cache`):
    a LinkedList of pages whose front is the most recently used one. A page
    is seen here through its id and the transaction that last dirtied it. */
module CacheList {
  import opened Common

  datatype CachedPage = CachedPage(id: PageId, dirtyBy: Option<Tid>)

  type Cache = seq<CachedPage>

  predicate UniqueIds(c: Cache)
  {
    forall i, j :: 0 <= i < j < |c| ==> c[i].id != c[j].id
  }

  function Ids(c: Cache): set<PageId>
  {
    set x | x in c :: x.id
  }

  /** The ids of the cached pages that `tid` dirtied. */
  function DirtyIds(c: Cache, tid: Tid): set<PageId>
  {
    set x | x in c && x.dirtyBy == Some(tid) :: x.id
  }

  /** First position of page `pid`, as BufferPool.find's scan from the
      front finds it. */
  function Position(c: Cache, pid: PageId): (r: Option<nat>)
    ensures r.Some? ==> r.value < |c| && c[r.value].id == pid
    ensures r.Some? ==> forall k :: 0 <= k < r.value ==> c[k].id != pid
    ensures r.None? ==> forall k :: 0 <= k < |c| ==> c[k].id != pid
    decreases |c|
  {
    if c == [] then None
    else if c[0].id == pid then Some(0)
    else match Position(c[1..], pid)
      case None => None
      case Some(k) => Some(k + 1)
  }

  /** A front-to-back scan that first meets the page at `i` agrees with
      Position. */
  lemma PositionAt(c: Cache, pid: PageId, i: nat)
    requires i < |c| && c[i].id == pid
    requires forall k :: 0 <= k < i ==> c[k].id != pid
    ensures Position(c, pid) == Some(i)
  {
  }

  /** `cache.remove(pg); cache.push(pg)` for the page at position i. */
  function MoveToFront(c: Cache, i: nat): Cache
    requires i < |c|
  {
    [c[i]] + c[..i] + c[i + 1..]
  }

  /** `cache.remove(pg)` for the page at position i. */
  function RemoveAt(c: Cache, i: nat): Cache
    requires i < |c|
  {
    c[..i] + c[i + 1..]
  }

  /** The clean page nearest the back (least recently used end) of the
      list: the page BufferPool.evictPage's descending scan removes. */
  function Victim(c: Cache): (r: Option<nat>)
    ensures r.Some? ==> r.value < |c| && c[r.value].dirtyBy.None?
    ensures r.Some? ==> forall k :: r.value < k < |c| ==> c[k].dirtyBy.Some?
    ensures r.None? ==> forall k :: 0 <= k < |c| ==> c[k].dirtyBy.Some?
    decreases |c|
  {
    if c == [] then None
    else if c[|c| - 1].dirtyBy.None? then Some(|c| - 1)
    else Victim(c[..|c| - 1])
  }

  /** The list without the first page whose id is `pid` (`cache.remove(p)`). */
  function RemoveId(c: Cache, pid: PageId): Cache
  {
    if c == [] then []
    else if c[0].id == pid then c[1..]
    else [c[0]] + RemoveId(c[1..], pid)
  }

  /** The list without the pages whose id is in `s`. */
  function WithoutIds(c: Cache, s: set<PageId>): Cache
  {
    if c == [] then []
    else if c[0].id in s then WithoutIds(c[1..], s)
    else [c[0]] + WithoutIds(c[1..], s)
  }

  /** The cache part of BufferPool.getPage once the lock is granted: a hit
      moves the page to the front; a miss evicts first when the list is full
      and then pushes the page read from disk, clean, at the front. None when
      eviction finds every page dirty (DbException). */
  function FetchInto(c: Cache, pid: PageId, maxSize: int): (r: Option<Cache>)
    ensures r.Some? ==> |r.value| > 0 && r.value[0].id == pid
    ensures r.Some? ==> |r.value| <= |c| + 1
  {
    match Position(c, pid)
    case Some(i) => Some(MoveToFront(c, i))
    case None =>
      if |c| >= maxSize then
        match Victim(c)
        case None => None
        case Some(v) => Some([CachedPage(pid, None)] + RemoveAt(c, v))
      else Some([CachedPage(pid, None)] + c)
  }

  /** What insertTuple and deleteTuple do to one returned page: remove it,
      mark it dirty by tid and push it at the front. */
  function MarkDirty(c: Cache, pid: PageId, tid: Tid): Cache
  {
    [CachedPage(pid, Some(tid))] + RemoveId(c, pid)
  }

  /** insertTuple's loop over the returned pages, in order: the page
      marked last ends at the front of the list. */
  function MarkAllDirty(c: Cache, pages: seq<PageId>, tid: Tid): (r: Cache)
    ensures |pages| > 0 ==> |r| > 0 && r[0] == CachedPage(pages[|pages| - 1], Some(tid))
    decreases |pages|
  {
    if pages == [] then c
    else MarkAllDirty(MarkDirty(c, pages[0], tid), pages[1..], tid)
  }

  // ---------------------------------------------------------------------

  lemma MoveToFrontFacts(c: Cache, i: nat)
    requires i < |c|
    ensures |MoveToFront(c, i)| == |c|
    ensures multiset(MoveToFront(c, i)) == multiset(c)
    ensures forall x :: x in MoveToFront(c, i) <==> x in c
    ensures MoveToFront(c, i)[0] == c[i]
    ensures UniqueIds(c) ==> UniqueIds(MoveToFront(c, i))
  {
    var m := MoveToFront(c, i);
    calc {
      multiset(c);
      { assert c == c[..i] + [c[i]] + c[i + 1..]; }
      multiset(c[..i]) + multiset{c[i]} + multiset(c[i + 1..]);
      multiset(m);
    }
    forall x ensures x in m <==> x in c {
      assert x in m <==> x in multiset(m);
      assert x in c <==> x in multiset(c);
    }
    if UniqueIds(c) {
      MoveToFrontUnique(c, i);
    }
  }

  lemma MoveToFrontUnique(c: Cache, i: nat)
    requires i < |c| && UniqueIds(c)
    ensures UniqueIds(MoveToFront(c, i))
  {
    var m := MoveToFront(c, i);
    forall a, b | 0 <= a < b < |m| ensures m[a].id != m[b].id {
      var sa := if a == 0 then i else if a <= i then a - 1 else a;
      var sb := if b <= i then b - 1 else b;
      assert m[a] == c[sa] && m[b] == c[sb];
    }
  }

  lemma RemoveAtFacts(c: Cache, i: nat)
    requires i < |c|
    ensures |RemoveAt(c, i)| == |c| - 1
    ensures multiset(RemoveAt(c, i)) + multiset{c[i]} == multiset(c)
    ensures forall x :: x in RemoveAt(c, i) ==> x in c
    ensures UniqueIds(c) ==> UniqueIds(RemoveAt(c, i))
  {
    var r := RemoveAt(c, i);
    assert c == c[..i] + [c[i]] + c[i + 1..];
    forall x | x in r ensures x in c {
      assert x in multiset(r);
    }
    if UniqueIds(c) {
      forall a, b | 0 <= a < b < |r| ensures r[a].id != r[b].id {
        var sa := if a < i then a else a + 1;
        var sb := if b < i then b else b + 1;
        assert r[a] == c[sa] && r[b] == c[sb];
      }
    }
  }

  /** Eviction safety: the evicted page is clean and every other page, every
      dirty one in particular, stays; when no page is clean nothing can be
      evicted. */
  lemma EvictionKeepsDirty(c: Cache)
    ensures Victim(c).None? <==> forall k :: 0 <= k < |c| ==> c[k].dirtyBy.Some?
    ensures Victim(c).Some? ==>
      var v := Victim(c).value;
      && c[v].dirtyBy.None?
      && multiset(RemoveAt(c, v)) + multiset{c[v]} == multiset(c)
      && forall x :: x in c && x.dirtyBy.Some? ==> x in RemoveAt(c, v)
  {
    if Victim(c).Some? {
      var v := Victim(c).value;
      RemoveAtFacts(c, v);
      forall x | x in c && x.dirtyBy.Some? ensures x in RemoveAt(c, v) {
        assert x in multiset(c);
        assert x != c[v];
        assert x in multiset(RemoveAt(c, v));
      }
    }
  }

  /** getPage's cache step: the requested page ends at the front, ids stay
      unique, the list grows past maxSize never, no dirty page is lost, and
      the only failure is a miss on a full list of dirty pages. */
  lemma FetchIntoSpec(c: Cache, pid: PageId, maxSize: int)
    requires UniqueIds(c)
    ensures FetchInto(c, pid, maxSize).None? <==>
      && pid !in Ids(c) && |c| >= maxSize
      && forall k :: 0 <= k < |c| ==> c[k].dirtyBy.Some?
    ensures FetchInto(c, pid, maxSize).Some? ==>
      var r := FetchInto(c, pid, maxSize).value;
      && |r| > 0 && r[0].id == pid
      && UniqueIds(r)
      && (|c| <= maxSize ==> |r| <= maxSize)
      && (forall x :: x in c && x.dirtyBy.Some? ==> x in r)
      && (forall x :: x in r ==> x in c || x == CachedPage(pid, None))
  {
    match Position(c, pid)
    case Some(i) =>
      MoveToFrontFacts(c, i);
    case None =>
      assert pid !in Ids(c) by {
        forall x | x in c ensures x.id != pid {
          var k :| 0 <= k < |c| && c[k] == x;
        }
      }
      if |c| >= maxSize {
        EvictionKeepsDirty(c);
        if Victim(c).Some? {
          var v := Victim(c).value;
          RemoveAtFacts(c, v);
          var r := [CachedPage(pid, None)] + RemoveAt(c, v);
          forall a, b | 0 <= a < b < |r| ensures r[a].id != r[b].id {
            if a == 0 { assert r[b] in c; }
          }
        }
      } else {
        var r := [CachedPage(pid, None)] + c;
        forall a, b | 0 <= a < b < |r| ensures r[a].id != r[b].id {
          if a == 0 { assert r[b] in c; } else { assert r[a] == c[a - 1] && r[b] == c[b - 1]; }
        }
      }
  }

  lemma RemoveIdFacts(c: Cache, pid: PageId)
    ensures |RemoveId(c, pid)| <= |c|
    ensures pid in Ids(c) ==> |RemoveId(c, pid)| == |c| - 1
    ensures forall x :: x in RemoveId(c, pid) ==> x in c
    ensures UniqueIds(c) ==> UniqueIds(RemoveId(c, pid)) && pid !in Ids(RemoveId(c, pid))
    ensures UniqueIds(c) ==> RemoveId(c, pid) == WithoutIds(c, {pid})
    ensures forall x :: x in c && x.id != pid ==> x in RemoveId(c, pid)
  {
    RemoveIdMembers(c, pid);
    if UniqueIds(c) {
      RemoveIdUnique(c, pid);
      WithoutIdsFacts(c, {pid});
    }
  }

  lemma {:induction false} RemoveIdMembers(c: Cache, pid: PageId)
    ensures |RemoveId(c, pid)| <= |c|
    ensures pid in Ids(c) ==> |RemoveId(c, pid)| == |c| - 1
    ensures forall x :: x in RemoveId(c, pid) ==> x in c
    ensures forall x :: x in c && x.id != pid ==> x in RemoveId(c, pid)
    decreases |c|
  {
    if c != [] {
      RemoveIdMembers(c[1..], pid);
      assert forall x :: x in c <==> x == c[0] || x in c[1..];
      if pid in Ids(c) && c[0].id != pid {
        var x :| x in c && x.id == pid;
        assert x in c[1..];
      }
    }
  }

  /** The rest of a list with unique ids has unique ids, none equal to the
      head's. */
  lemma TailUnique(c: Cache)
    requires c != [] && UniqueIds(c)
    ensures UniqueIds(c[1..])
    ensures forall x :: x in c[1..] ==> x.id != c[0].id
  {
    forall a, b | 0 <= a < b < |c[1..]| ensures c[1..][a].id != c[1..][b].id {
      assert c[1..][a] == c[a + 1] && c[1..][b] == c[b + 1];
    }
    forall x | x in c[1..] ensures x.id != c[0].id {
      var k :| 0 <= k < |c[1..]| && c[1..][k] == x;
      assert x == c[k + 1];
    }
  }

  lemma {:induction false} RemoveIdUnique(c: Cache, pid: PageId)
    requires UniqueIds(c)
    ensures RemoveId(c, pid) == WithoutIds(c, {pid})
    decreases |c|
  {
    if c != [] {
      TailUnique(c);
      if c[0].id == pid {
        WithoutIdsNoop(c[1..], {pid});
      } else {
        RemoveIdUnique(c[1..], pid);
      }
    }
  }

  lemma {:induction false} WithoutIdsFacts(c: Cache, s: set<PageId>)
    ensures forall x :: x in WithoutIds(c, s) <==> x in c && x.id !in s
    ensures UniqueIds(c) ==> UniqueIds(WithoutIds(c, s))
    ensures |WithoutIds(c, s)| <= |c|
    decreases |c|
  {
    if c != [] {
      WithoutIdsFacts(c[1..], s);
      assert forall x :: x in c <==> x == c[0] || x in c[1..];
      if UniqueIds(c) {
        assert UniqueIds(c[1..]) by {
          forall a, b | 0 <= a < b < |c[1..]| ensures c[1..][a].id != c[1..][b].id {
            assert c[1..][a] == c[a + 1] && c[1..][b] == c[b + 1];
          }
        }
        if c[0].id !in s {
          var w := WithoutIds(c[1..], s);
          var r := [c[0]] + w;
          forall a, b | 0 <= a < b < |r| ensures r[a].id != r[b].id {
            assert r[b] == w[b - 1];
            if a == 0 {
              assert r[b] in c[1..];
              var k :| 0 <= k < |c[1..]| && c[1..][k] == r[b];
              assert r[b] == c[k + 1];
            } else {
              assert r[a] == w[a - 1];
            }
          }
        }
      }
    }
  }

  lemma {:induction false} WithoutIdsNoop(c: Cache, s: set<PageId>)
    requires forall x :: x in c ==> x.id !in s
    ensures WithoutIds(c, s) == c
    decreases |c|
  {
    if c != [] {
      assert c[0] in c;
      assert forall x :: x in c[1..] ==> x in c;
      WithoutIdsNoop(c[1..], s);
    }
  }

  lemma {:induction false} WithoutIdsAppend(a: Cache, b: Cache, s: set<PageId>)
    ensures WithoutIds(a + b, s) == WithoutIds(a, s) + WithoutIds(b, s)
    decreases |a|
  {
    if a != [] {
      assert (a + b)[0] == a[0];
      assert (a + b)[1..] == a[1..] + b;
      WithoutIdsAppend(a[1..], b, s);
    } else {
      assert a + b == b;
    }
  }

  lemma {:induction false} WithoutIdsTwice(c: Cache, s: set<PageId>, t: set<PageId>)
    ensures WithoutIds(WithoutIds(c, s), t) == WithoutIds(c, s + t)
    decreases |c|
  {
    if c != [] {
      WithoutIdsTwice(c[1..], s, t);
    }
  }

  lemma {:induction false} RemoveIdAppend(a: Cache, b: Cache, pid: PageId)
    requires pid in Ids(a)
    ensures RemoveId(a + b, pid) == RemoveId(a, pid) + b
    decreases |a|
  {
    if a[0].id != pid {
      var x :| x in a && x.id == pid;
      assert x in a[1..] by { assert a == [a[0]] + a[1..]; }
      assert (a + b)[1..] == a[1..] + b;
      RemoveIdAppend(a[1..], b, pid);
    } else {
      assert (a + b)[1..] == a[1..] + b;
    }
  }

  /** Marking one page keeps ids unique. */
  lemma MarkDirtyUnique(c: Cache, pid: PageId, tid: Tid)
    requires UniqueIds(c)
    ensures UniqueIds(MarkDirty(c, pid, tid))
  {
    var m := MarkDirty(c, pid, tid);
    var rest := RemoveId(c, pid);
    assert UniqueIds(rest) && pid !in Ids(rest) by {
      RemoveIdFacts(c, pid);
    }
    forall a, b | 0 <= a < b < |m| ensures m[a].id != m[b].id {
      assert m[b] == rest[b - 1] && m[b] in rest;
      if a > 0 { assert m[a] == rest[a - 1]; }
    }
  }

  /** insertTuple's marking: every returned page ends in the list dirty by
      tid, the last one at the front, no other page is dropped or changed,
      ids stay unique, and the list grows by at most the number of returned
      pages. */
  lemma {:induction false} MarkAllDirtySpec(c: Cache, pages: seq<PageId>, tid: Tid)
    requires UniqueIds(c)
    ensures var r := MarkAllDirty(c, pages, tid);
      && UniqueIds(r)
      && |r| <= |c| + |pages|
      && (forall i :: 0 <= i < |pages| ==> CachedPage(pages[i], Some(tid)) in r)
      && (forall x :: x in c && x.id !in pages ==> x in r)
      && (forall x :: x in r ==> x in c || (x.id in pages && x.dirtyBy == Some(tid)))
      && (|pages| > 0 ==> r[0] == CachedPage(pages[|pages| - 1], Some(tid)))
    decreases |pages|
  {
    if pages != [] {
      var m := MarkDirty(c, pages[0], tid);
      RemoveIdFacts(c, pages[0]);
      MarkDirtyUnique(c, pages[0], tid);
      MarkAllDirtySpec(m, pages[1..], tid);
      var r := MarkAllDirty(m, pages[1..], tid);
      forall i | 0 <= i < |pages| ensures CachedPage(pages[i], Some(tid)) in r {
        if i > 0 {
          assert pages[i] == pages[1..][i - 1];
        } else if pages[0] !in pages[1..] {
          assert m[0] == CachedPage(pages[0], Some(tid));
        } else {
          var j :| 0 <= j < |pages[1..]| && pages[1..][j] == pages[0];
        }
      }
      forall x | x in c && x.id !in pages ensures x in r {
        assert x.id != pages[0];
        assert x in m;
        assert x.id !in pages[1..];
      }
    }
  }

  /** Removing the first page with a given id is removing it at its
      position. */
  lemma {:induction false} RemoveAtFirst(c: Cache, i: nat)
    requires i < |c| && forall k :: 0 <= k < i ==> c[k].id != c[i].id
    ensures RemoveId(c, c[i].id) == RemoveAt(c, i)
    decreases i
  {
    if i > 0 {
      RemoveAtFirst(c[1..], i - 1);
      assert c[1..][i - 1] == c[i];
      assert c[1..][..i - 1] + c[1..][i..] == c[1..i] + c[i + 1..];
      assert [c[0]] + (c[1..i] + c[i + 1..]) == c[..i] + c[i + 1..];
    }
  }

  /** The list while flushPages runs: the pages flushed so far are at the
      front, the most recently flushed first, and the other pages follow in
      their old order. */
  predicate FlushedFront(c: Cache, c0: Cache, order: seq<PageId>, done: set<PageId>)
  {
    && |order| <= |c|
    && c[|order|..] == WithoutIds(c0, done)
    && forall k :: 0 <= k < |order| ==> c[k].id == order[|order| - 1 - k]
  }

  /** Read against the write log `w`, whose tail is `order`: the flushed
      pages at the front are the last ones written, the latest first. */
  lemma FlushedWritten(c: Cache, c0: Cache, order: seq<PageId>, done: set<PageId>, w: seq<PageId>)
    requires FlushedFront(c, c0, order, done)
    requires |order| <= |w| && w[|w| - |order|..] == order
    ensures forall k :: 0 <= k < |order| ==> c[k].id == w[|w| - 1 - k]
  {
  }

  /** One flush: find moves the page, which is not yet flushed, from the
      unflushed part to the front. */
  lemma FlushStep(c: Cache, c0: Cache, order: seq<PageId>, done: set<PageId>, pid: PageId)
    requires UniqueIds(c) && UniqueIds(c0) && FlushedFront(c, c0, order, done)
    requires forall p :: p in order ==> p in done
    requires pid in Ids(c0) && pid !in done
    ensures pid in Ids(c) && Position(c, pid).Some?
    ensures FlushedFront(MoveToFront(c, Position(c, pid).value), c0, order + [pid], done + {pid})
  {
    var n := |order|;
    FlushStepFound(c, c0, order, done, pid);
    var p := Position(c, pid).value;
    FlushStepRest(c, c0, n, done, pid, p);
    var m := MoveToFront(c, p);
    forall k | 0 <= k < n + 1 ensures m[k].id == (order + [pid])[n - k] {
      if k > 0 { assert m[k] == c[k - 1]; }
    }
  }

  /** The page to flush is found, in the unflushed part of the list. */
  lemma FlushStepFound(c: Cache, c0: Cache, order: seq<PageId>, done: set<PageId>, pid: PageId)
    requires FlushedFront(c, c0, order, done)
    requires forall p :: p in order ==> p in done
    requires pid in Ids(c0) && pid !in done
    ensures pid in Ids(c) && Position(c, pid).Some? && Position(c, pid).value >= |order|
  {
    var n := |order|;
    var w := WithoutIds(c0, done);
    WithoutIdsFacts(c0, done);
    var x :| x in c0 && x.id == pid;
    assert x in w;
    var j :| 0 <= j < |w| && w[j] == x;
    assert c[n + j] == x;
    assert forall k :: 0 <= k < n ==> c[k].id != pid by {
      forall k | 0 <= k < n ensures c[k].id != pid {
        assert order[n - 1 - k] in order;
      }
    }
  }

  /** After the move the unflushed part is the old one without the page. */
  lemma FlushStepRest(c: Cache, c0: Cache, n: nat, done: set<PageId>, pid: PageId, p: nat)
    requires UniqueIds(c0) && n <= p < |c| && c[n..] == WithoutIds(c0, done) && c[p].id == pid
    ensures MoveToFront(c, p)[n + 1..] == WithoutIds(c0, done + {pid})
  {
    var w := WithoutIds(c0, done);
    assert UniqueIds(w) by {
      WithoutIdsFacts(c0, done);
    }
    MoveBehind(c, n, p);
    assert w[p - n] == c[p];
    RemoveAtUnique(w, p - n);
    WithoutIdsTwice(c0, done, {pid});
  }

  /** Moving a page at or behind position n to the front shifts the part
      from n on by one and takes the page out of it. */
  lemma MoveBehind(c: Cache, n: nat, p: nat)
    requires n <= p < |c|
    ensures MoveToFront(c, p)[n + 1..] == RemoveAt(c[n..], p - n)
  {
  }

  /** With unique ids, removing the page at position i removes its id. */
  lemma RemoveAtUnique(w: Cache, i: nat)
    requires UniqueIds(w) && i < |w|
    ensures RemoveAt(w, i) == WithoutIds(w, {w[i].id})
  {
    assert forall k :: 0 <= k < i ==> w[k].id != w[i].id;
    RemoveAtFirst(w, i);
    RemoveIdUnique(w, w[i].id);
  }

  lemma AppendFreshUnique(c: Cache, x: CachedPage)
    requires UniqueIds(c) && x.id !in Ids(c)
    ensures UniqueIds(c + [x])
    ensures Ids(c + [x]) == Ids(c) + {x.id}
  {
    var r := c + [x];
    forall a, b | 0 <= a < b < |r| ensures r[a].id != r[b].id {
      if b == |c| { assert r[a] == c[a]; assert r[a] in c; } else { assert r[a] == c[a] && r[b] == c[b]; }
    }
    assert forall y :: y in r <==> y in c || y == x;
  }

  /** One step of the abort sweep in BufferPool.transactionComplete: remove
      the dirty page `pid` from the list and append its clean re-read at the
      back. The list keeps its length and its unique ids, and its shape stays
      "pages not yet swept, then the re-read pages". */
  lemma AbortStep(c0: Cache, done: set<PageId>, tail: Cache, pid: PageId)
    requires UniqueIds(c0) && UniqueIds(WithoutIds(c0, done) + tail)
    requires pid in Ids(c0) && pid !in done && Ids(tail) == done
    ensures var c := WithoutIds(c0, done) + tail;
      var c' := RemoveId(c, pid) + [CachedPage(pid, None)];
      && c' == WithoutIds(c0, done + {pid}) + (tail + [CachedPage(pid, None)])
      && |c'| == |c|
      && UniqueIds(c')
      && Ids(tail + [CachedPage(pid, None)]) == done + {pid}
  {
    var w := WithoutIds(c0, done);
    var c := w + tail;
    WithoutIdsFacts(c0, done);
    var x :| x in c0 && x.id == pid;
    assert x in w;
    assert pid in Ids(w);
    RemoveIdAppend(w, tail, pid);
    RemoveIdFacts(w, pid);
    WithoutIdsTwice(c0, done, {pid});
    assert x in c;
    assert pid in Ids(c);
    RemoveIdFacts(c, pid);
    AppendFreshUnique(RemoveId(c, pid), CachedPage(pid, None));
    assert (RemoveId(w, pid) + tail) + [CachedPage(pid, None)] == RemoveId(w, pid) + (tail + [CachedPage(pid, None)]);
    assert forall y :: y in tail + [CachedPage(pid, None)] <==> y in tail || y == CachedPage(pid, None);
  }

  /** With unique ids, dropping the ids a transaction dirtied removes exactly
      the pages it dirtied: every other page stays and none of its pages is
      left. */
  lemma WithoutDirtyKeepsOthers(c: Cache, tid: Tid)
    requires UniqueIds(c)
    ensures forall x :: x in WithoutIds(c, DirtyIds(c, tid)) <==> x in c && x.dirtyBy != Some(tid)
  {
    WithoutIdsFacts(c, DirtyIds(c, tid));
    forall x | x in c && x.dirtyBy != Some(tid) ensures x.id !in DirtyIds(c, tid) {
      forall y | y in c && y.dirtyBy == Some(tid) ensures y.id != x.id {
        var i :| 0 <= i < |c| && c[i] == x;
        var j :| 0 <= j < |c| && c[j] == y;
        assert i != j;
        if i < j { assert c[i].id != c[j].id; } else { assert c[j].id != c[i].id; }
      }
    }
  }
}
