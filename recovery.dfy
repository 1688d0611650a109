/** Log-based recovery: a forward pass that rebuilds the set of loser
    transactions and repeats history by reinstalling every after-image,
    followed by a backward pass that undoes the losers' updates, writing
    their before-images back and logging a compensation record (CLR) for
    each. The page store is a map from page id to image; the log is the
    sequence of records laid out as in module LogFormat. */
module Recovery {
  import opened Common
  import opened LogFormat

  /** The on-disk page store the recovery passes write to. */
  type Store = map<PageId, PageImage>

  function Lookup(store: Store, pid: PageId): Option<PageImage>
  {
    if pid in store then Some(store[pid]) else None
  }

  /** How a pass ends. `CommittedLoser` and `MissingBegin` are the errors
      of the backward pass, `BadHeader` a header that does not point at a
      checkpoint record. */
  datatype Outcome = Completed | CommittedLoser(tid: Tid) | MissingBegin | BadHeader

  // ---------------------------------------------------------------------
  // Forward pass: analysis and redo
  // ---------------------------------------------------------------------

  /** State of the forward pass: the loser set, the page store, the pages
      whose cached copies were discarded (in order), and whether a
      checkpoint record ended the pass. */
  datatype Scan = Scan(losers: set<Tid>, store: Store, discarded: seq<PageId>, stopped: bool)

  /** A BEGIN, COMMIT or ABORT record of t: the records that move t into or
      out of the loser set. */
  predicate IsMark(r: LogRecord, t: Tid)
  {
    (r.Begin? || r.Commit? || r.Abort?) && r.tid == t
  }

  /** An UPDATE or CLR whose after-image is a page of `pid`. */
  predicate WritesPage(r: LogRecord, pid: PageId)
  {
    (r.Update? || r.Clr?) && r.after.id == pid
  }

  /** The effect of one record other than a checkpoint on the forward pass. */
  function RedoRecord(s: Scan, r: LogRecord): Scan
  {
    match r
    case Begin(t) => s.(losers := s.losers + {t})
    case Commit(t) => s.(losers := s.losers - {t})
    case Abort(t) => s.(losers := s.losers - {t})
    case Update(_, _, after) => s.(store := s.store[after.id := after], discarded := s.discarded + [after.id])
    case Clr(_, after) => s.(store := s.store[after.id := after], discarded := s.discarded + [after.id])
    case Checkpoint(_, _) => s
  }

  /** The forward pass over records i.. of the log: a checkpoint record ends
      it at once. */
  function Forward(rs: seq<LogRecord>, i: nat, s: Scan): (r: Scan)
    requires i <= |rs|
    ensures |s.discarded| <= |r.discarded| && r.discarded[..|s.discarded|] == s.discarded
    ensures s.stopped ==> r.stopped
    decreases |rs| - i
  {
    if i == |rs| then s
    else if rs[i].Checkpoint? then s.(stopped := true)
    else Forward(rs, i + 1, RedoRecord(s, rs[i]))
  }

  /** Index of the first checkpoint record at or after i, or |rs|: the end
      of the part of the log the forward pass reads. */
  function ScanEnd(rs: seq<LogRecord>, i: nat): (e: nat)
    requires i <= |rs|
    ensures i <= e <= |rs|
    ensures forall j :: i <= j < e ==> !rs[j].Checkpoint?
    ensures e < |rs| ==> rs[e].Checkpoint?
    decreases |rs| - i
  {
    if i == |rs| || rs[i].Checkpoint? then i else ScanEnd(rs, i + 1)
  }

  /** The index of the last mark of t among records [lo, hi). */
  function LastMark(rs: seq<LogRecord>, lo: nat, hi: nat, t: Tid): (r: Option<nat>)
    requires hi <= |rs|
    ensures r.Some? ==> lo <= r.value < hi && IsMark(rs[r.value], t)
    ensures r.Some? ==> forall m :: r.value < m < hi ==> !IsMark(rs[m], t)
    ensures r.None? ==> forall m :: lo <= m < hi ==> !IsMark(rs[m], t)
    decreases hi
  {
    if hi <= lo then None
    else if IsMark(rs[hi - 1], t) then Some(hi - 1)
    else LastMark(rs, lo, hi - 1, t)
  }

  /** The index of the last record among [lo, hi) that writes page pid. */
  function LastWrite(rs: seq<LogRecord>, lo: nat, hi: nat, pid: PageId): (r: Option<nat>)
    requires hi <= |rs|
    ensures r.Some? ==> lo <= r.value < hi && WritesPage(rs[r.value], pid)
    ensures r.Some? ==> forall m :: r.value < m < hi ==> !WritesPage(rs[m], pid)
    ensures r.None? ==> forall m :: lo <= m < hi ==> !WritesPage(rs[m], pid)
    decreases hi
  {
    if hi <= lo then None
    else if WritesPage(rs[hi - 1], pid) then Some(hi - 1)
    else LastWrite(rs, lo, hi - 1, pid)
  }

  /** Whether t is a loser after the records [lo, hi), starting from the
      set `seed`: its last mark there is a BEGIN, or it has no mark there
      and was in the seed. */
  predicate LoserAfter(rs: seq<LogRecord>, lo: nat, hi: nat, t: Tid, seed: set<Tid>)
    requires hi <= |rs|
  {
    var m := LastMark(rs, lo, hi, t);
    if m.None? then t in seed else rs[m.value].Begin?
  }

  /** The image page pid holds after the records [lo, hi), starting from
      `store`: the after-image of the last record there that writes it, or
      else what the store held. */
  function ImageAfter(rs: seq<LogRecord>, lo: nat, hi: nat, pid: PageId, store: Store): Option<PageImage>
    requires hi <= |rs|
  {
    var m := LastWrite(rs, lo, hi, pid);
    if m.None? then Lookup(store, pid) else Some(rs[m.value].after)
  }

  lemma {:induction false} LastMarkFront(rs: seq<LogRecord>, lo: nat, hi: nat, t: Tid)
    requires lo < hi <= |rs|
    ensures LastMark(rs, lo, hi, t) ==
      if LastMark(rs, lo + 1, hi, t).Some? then LastMark(rs, lo + 1, hi, t)
      else if IsMark(rs[lo], t) then Some(lo) else None
    decreases hi
  {
    if lo + 1 < hi && !IsMark(rs[hi - 1], t) {
      LastMarkFront(rs, lo, hi - 1, t);
    }
  }

  lemma {:induction false} LastWriteFront(rs: seq<LogRecord>, lo: nat, hi: nat, pid: PageId)
    requires lo < hi <= |rs|
    ensures LastWrite(rs, lo, hi, pid) ==
      if LastWrite(rs, lo + 1, hi, pid).Some? then LastWrite(rs, lo + 1, hi, pid)
      else if WritesPage(rs[lo], pid) then Some(lo) else None
    decreases hi
  {
    if lo + 1 < hi && !WritesPage(rs[hi - 1], pid) {
      LastWriteFront(rs, lo, hi - 1, pid);
    }
  }

  /** The loser set after the forward pass: t is a loser exactly when its
      last BEGIN/COMMIT/ABORT record before the pass ends is a BEGIN, or it
      has none there and was in the starting set (the checkpoint's list). */
  lemma {:induction false} ForwardLosers(rs: seq<LogRecord>, i: nat, s: Scan)
    requires i <= |rs|
    ensures forall t :: t in Forward(rs, i, s).losers <==> LoserAfter(rs, i, ScanEnd(rs, i), t, s.losers)
    decreases |rs| - i
  {
    if i < |rs| && !rs[i].Checkpoint? {
      var e := ScanEnd(rs, i);
      var s' := RedoRecord(s, rs[i]);
      ForwardLosers(rs, i + 1, s');
      forall t ensures t in Forward(rs, i, s).losers <==> LoserAfter(rs, i, e, t, s.losers) {
        LastMarkFront(rs, i, e, t);
      }
    }
  }

  /** The store after the forward pass: every page holds the after-image of
      the last UPDATE or CLR on it before the pass ends, whatever its
      transaction, and pages never written keep their image. */
  lemma {:induction false} ForwardStore(rs: seq<LogRecord>, i: nat, s: Scan)
    requires i <= |rs|
    ensures forall pid :: Lookup(Forward(rs, i, s).store, pid) == ImageAfter(rs, i, ScanEnd(rs, i), pid, s.store)
    decreases |rs| - i
  {
    if i < |rs| && !rs[i].Checkpoint? {
      var e := ScanEnd(rs, i);
      var s' := RedoRecord(s, rs[i]);
      ForwardStore(rs, i + 1, s');
      forall pid ensures Lookup(Forward(rs, i, s).store, pid) == ImageAfter(rs, i, e, pid, s.store) {
        LastWriteFront(rs, i, e, pid);
      }
    }
  }

  /** Redo is idempotent: repeating the forward pass over the same records,
      starting from the store the first pass left, leaves that store. */
  lemma RedoIdempotent(rs: seq<LogRecord>, i: nat, s: Scan)
    requires i <= |rs|
    ensures Forward(rs, i, s.(store := Forward(rs, i, s).store)).store == Forward(rs, i, s).store
  {
    var once := Forward(rs, i, s).store;
    var twice := Forward(rs, i, s.(store := once)).store;
    ForwardStore(rs, i, s);
    ForwardStore(rs, i, s.(store := once));
    forall pid ensures (pid in twice <==> pid in once) && (pid in once ==> twice[pid] == once[pid]) {
      var e := ScanEnd(rs, i);
      assert Lookup(twice, pid) == ImageAfter(rs, i, e, pid, once);
      assert Lookup(twice, pid) == Lookup(once, pid);
    }
  }

  /** A checkpoint record in the scanned part of the log ends the pass,
      and only then is it marked stopped. */
  lemma {:induction false} ForwardStops(rs: seq<LogRecord>, i: nat, s: Scan)
    requires i <= |rs| && !s.stopped
    ensures Forward(rs, i, s).stopped <==> exists j :: i <= j < |rs| && rs[j].Checkpoint?
    decreases |rs| - i
  {
    if i < |rs| && !rs[i].Checkpoint? {
      ForwardStops(rs, i + 1, RedoRecord(s, rs[i]));
      if exists j :: i <= j < |rs| && rs[j].Checkpoint? {
        var j :| i <= j < |rs| && rs[j].Checkpoint?;
        assert i + 1 <= j;
      }
    }
  }

  // ---------------------------------------------------------------------
  // Backward pass: undo with compensation records
  // ---------------------------------------------------------------------

  /** State of the backward pass: transactions still to undo, the page
      store, the discarded pages and the CLRs appended so far. */
  datatype Undo = Undo(tids: set<Tid>, store: Store, discarded: seq<PageId>, clrs: seq<LogRecord>)

  /** The backward pass over records [0, k), newest first. It ends when no
      transaction is left to undo; a COMMIT of one of them is an error, and
      so is reaching the log header with some left. */
  function UndoFrom(rs: seq<LogRecord>, k: nat, s: Undo): (r: (Outcome, Undo))
    requires k <= |rs|
    ensures r.1.tids <= s.tids
    ensures r.0 == Completed <==> r.1.tids == {}
    decreases k
  {
    if s.tids == {} then (Completed, s)
    else if k == 0 then (MissingBegin, s)
    else
      var r := rs[k - 1];
      if r.tid !in s.tids then UndoFrom(rs, k - 1, s)
      else match r
        case Commit(t) => (CommittedLoser(t), s)
        case Begin(t) => UndoFrom(rs, k - 1, s.(tids := s.tids - {t}))
        case Update(t, before, _) =>
          UndoFrom(rs, k - 1, s.(store := s.store[before.id := before],
                                 discarded := s.discarded + [before.id],
                                 clrs := s.clrs + [Clr(t, before)]))
        case _ => UndoFrom(rs, k - 1, s)
  }

  /** How the backward pass ends: it completes only with every transaction
      undone, fails for want of a BEGIN only with some left, and fails on a
      COMMIT only for a transaction of the set that has a COMMIT record. It
      appends exactly one CLR per discarded page, for that page. */
  lemma {:induction false} UndoOutcome(rs: seq<LogRecord>, k: nat, s: Undo)
    requires k <= |rs|
    requires |s.clrs| == |s.discarded|
    ensures var (o, u) := UndoFrom(rs, k, s);
      (o == Completed <==> u.tids == {}) &&
      u.tids <= s.tids &&
      (o.CommittedLoser? ==> o.tid in s.tids && exists j :: 0 <= j < k && rs[j] == Commit(o.tid)) &&
      |s.clrs| <= |u.clrs| == |u.discarded| && u.clrs[..|s.clrs|] == s.clrs && u.discarded[..|s.discarded|] == s.discarded &&
      (forall i :: |s.clrs| <= i < |u.clrs| ==> u.clrs[i].Clr? && u.clrs[i].after.id == u.discarded[i])
    decreases k
  {
    if s.tids != {} && k > 0 {
      var r := rs[k - 1];
      if r.tid !in s.tids {
        UndoOutcome(rs, k - 1, s);
      } else {
        match r
        case Commit(t) =>
        case Begin(t) => UndoOutcome(rs, k - 1, s.(tids := s.tids - {t}));
        case Update(t, before, _) =>
          var s' := s.(store := s.store[before.id := before],
                       discarded := s.discarded + [before.id],
                       clrs := s.clrs + [Clr(t, before)]);
          UndoOutcome(rs, k - 1, s');
          var u := UndoFrom(rs, k - 1, s').1;
          assert u.clrs[..|s.clrs|] == u.clrs[..|s'.clrs|][..|s.clrs|];
          assert u.discarded[..|s.discarded|] == u.discarded[..|s'.discarded|][..|s.discarded|];
          assert u.clrs[|s.clrs|] == u.clrs[..|s'.clrs|][|s.clrs|];
          assert u.discarded[|s.clrs|] == u.discarded[..|s'.discarded|][|s.clrs|];
        case _ => UndoOutcome(rs, k - 1, s);
      }
    }
  }

  /** Termination of the backward pass: when every transaction of the set
      has a BEGIN record in the scanned log, the pass never runs past the
      first record. */
  lemma {:induction false} UndoReachesBegin(rs: seq<LogRecord>, k: nat, s: Undo)
    requires k <= |rs|
    requires forall t :: t in s.tids ==> exists j :: 0 <= j < k && rs[j] == Begin(t)
    ensures UndoFrom(rs, k, s).0 != MissingBegin
    decreases k
  {
    if k == 0 {
      assert forall t :: t !in s.tids;
      assert s.tids == {};
    } else if s.tids != {} {
      var r := rs[k - 1];
      var s' := if r.Begin? && r.tid in s.tids then s.(tids := s.tids - {r.tid}) else s;
      forall t | t in s'.tids ensures exists j :: 0 <= j < k - 1 && rs[j] == Begin(t) {
        var j :| 0 <= j < k && rs[j] == Begin(t);
        assert j != k - 1;
      }
      if r.tid !in s.tids {
        UndoReachesBegin(rs, k - 1, s');
      } else {
        match r
        case Commit(_) =>
        case Update(t, before, _) =>
          UndoReachesBegin(rs, k - 1, s'.(store := s.store[before.id := before],
                                          discarded := s.discarded + [before.id],
                                          clrs := s.clrs + [Clr(t, before)]));
        case _ => UndoReachesBegin(rs, k - 1, s');
      }
    }
  }

  /** Only the set's own updates are undone: every CLR the pass appends
      carries the before-image of an UPDATE record of a transaction in the
      set. */
  lemma {:induction false} UndoClrsFromSet(rs: seq<LogRecord>, k: nat, s: Undo)
    requires k <= |rs|
    ensures var u := UndoFrom(rs, k, s).1;
      forall c :: c in u.clrs ==>
        c in s.clrs || (c.Clr? && c.tid in s.tids && exists j, a :: 0 <= j < k && rs[j] == Update(c.tid, c.after, a))
    decreases k
  {
    if s.tids != {} && k > 0 {
      var r := rs[k - 1];
      if r.tid !in s.tids {
        UndoClrsFromSet(rs, k - 1, s);
      } else {
        match r
        case Commit(t) =>
        case Begin(t) => UndoClrsFromSet(rs, k - 1, s.(tids := s.tids - {t}));
        case Update(t, before, after) =>
          var s' := s.(store := s.store[before.id := before],
                       discarded := s.discarded + [before.id],
                       clrs := s.clrs + [Clr(t, before)]);
          UndoClrsFromSet(rs, k - 1, s');
          assert rs[k - 1] == Update(t, before, after);
        case _ => UndoClrsFromSet(rs, k - 1, s);
      }
    }
  }

  /** Every update of a transaction in the set that is newer than that
      transaction's last BEGIN is compensated when the pass completes: its
      before-image goes back into the store's history as a CLR. */
  lemma {:induction false} UndoCovers(rs: seq<LogRecord>, k: nat, s: Undo, j: nat)
    requires k <= |rs| && j < k
    requires rs[j].Update? && rs[j].tid in s.tids
    requires forall m :: j < m < k ==> rs[m] != Begin(rs[j].tid)
    requires UndoFrom(rs, k, s).0 == Completed
    ensures Clr(rs[j].tid, rs[j].before) in UndoFrom(rs, k, s).1.clrs
    decreases k
  {
    var t := rs[j].tid;
    var r := rs[k - 1];
    if r.tid !in s.tids {
      UndoCovers(rs, k - 1, s, j);
    } else {
      match r
      case Commit(_) =>
      case Begin(t') =>
        UndoCovers(rs, k - 1, s.(tids := s.tids - {t'}), j);
      case Update(t', before, _) =>
        var s' := s.(store := s.store[before.id := before],
                     discarded := s.discarded + [before.id],
                     clrs := s.clrs + [Clr(t', before)]);
        if j == k - 1 {
          ClrsKept(rs, k - 1, s');
        } else {
          UndoCovers(rs, k - 1, s', j);
        }
      case _ => UndoCovers(rs, k - 1, s, j);
    }
  }

  /** CLRs already appended stay appended. */
  lemma {:induction false} ClrsKept(rs: seq<LogRecord>, k: nat, s: Undo)
    requires k <= |rs|
    ensures forall c :: c in s.clrs ==> c in UndoFrom(rs, k, s).1.clrs
    decreases k
  {
    if s.tids != {} && k > 0 {
      var r := rs[k - 1];
      if r.tid !in s.tids {
        ClrsKept(rs, k - 1, s);
      } else {
        match r
        case Commit(_) =>
        case Begin(t) => ClrsKept(rs, k - 1, s.(tids := s.tids - {t}));
        case Update(t, before, _) =>
          ClrsKept(rs, k - 1, s.(store := s.store[before.id := before],
                                 discarded := s.discarded + [before.id],
                                 clrs := s.clrs + [Clr(t, before)]));
        case _ => ClrsKept(rs, k - 1, s);
      }
    }
  }

  /** A committed transaction is never undone: when a transaction of the
      set has a COMMIT record with no BEGIN of it after it, the pass does not
      complete, and every CLR it appends compensates an UPDATE newer than
      that COMMIT. */
  lemma {:induction false} CommitBlocksCompletion(rs: seq<LogRecord>, k: nat, s: Undo, j: nat)
    requires k <= |rs| && j < k
    requires rs[j].Commit? && rs[j].tid in s.tids
    requires forall m :: j < m < k ==> rs[m] != Begin(rs[j].tid)
    ensures var (o, u) := UndoFrom(rs, k, s);
      && o != Completed
      && forall c :: c in u.clrs ==> c in s.clrs || (c.Clr? && exists m, a :: j < m < k && rs[m] == Update(c.tid, c.after, a))
    decreases k
  {
    var t := rs[j].tid;
    var r := rs[k - 1];
    if k - 1 > j && r.tid !in s.tids {
      CommitBlocksCompletion(rs, k - 1, s, j);
    } else if k - 1 > j {
      match r
      case Commit(_) =>
      case Begin(t') =>
        CommitBlocksCompletion(rs, k - 1, s.(tids := s.tids - {t'}), j);
      case Update(t', before, after) =>
        var s' := s.(store := s.store[before.id := before],
                     discarded := s.discarded + [before.id],
                     clrs := s.clrs + [Clr(t', before)]);
        CommitBlocksCompletion(rs, k - 1, s', j);
        assert rs[k - 1] == Update(t', before, after);
      case _ => CommitBlocksCompletion(rs, k - 1, s, j);
    }
  }

  /** What the backward pass leaves in the page store: the CLRs it appends
      write their images in the order they are appended, so each page holds
      the image of the last CLR appended for it, or keeps its old image when
      none is. */
  lemma {:induction false} UndoStore(rs: seq<LogRecord>, k: nat, s: Undo)
    requires k <= |rs|
    ensures var u := UndoFrom(rs, k, s).1;
      && |s.clrs| <= |u.clrs| && u.clrs[..|s.clrs|] == s.clrs
      && forall pid :: Lookup(u.store, pid) == ImageAfter(u.clrs, |s.clrs|, |u.clrs|, pid, s.store)
    decreases k
  {
    if s.tids != {} && k > 0 {
      var r := rs[k - 1];
      if r.tid !in s.tids {
        UndoStore(rs, k - 1, s);
      } else {
        match r
        case Commit(_) =>
        case Begin(t) => UndoStore(rs, k - 1, s.(tids := s.tids - {t}));
        case Update(t, before, _) =>
          var s' := s.(store := s.store[before.id := before],
                       discarded := s.discarded + [before.id],
                       clrs := s.clrs + [Clr(t, before)]);
          UndoStore(rs, k - 1, s');
          var u := UndoFrom(rs, k - 1, s').1;
          assert u.clrs[..|s'.clrs|] == s'.clrs;
          assert u.clrs[..|s.clrs|] == u.clrs[..|s'.clrs|][..|s.clrs|];
          assert u.clrs[|s.clrs|] == u.clrs[..|s'.clrs|][|s.clrs|];
          assert s'.clrs[|s.clrs|] == Clr(t, before);
          forall pid ensures Lookup(u.store, pid) == ImageAfter(u.clrs, |s.clrs|, |u.clrs|, pid, s.store) {
            LastWriteFront(u.clrs, |s.clrs|, |u.clrs|, pid);
          }
        case _ => UndoStore(rs, k - 1, s);
      }
    }
  }

  /** `idx` lists, newest first, the UPDATE records below k that the CLRs
      `clrs` compensate, one per CLR and in the same order. */
  predicate NewestFirst(rs: seq<LogRecord>, k: nat, clrs: seq<LogRecord>, idx: seq<nat>)
  {
    && k <= |rs| && |idx| == |clrs|
    && (forall n :: 0 <= n < |idx| ==> idx[n] < k && rs[idx[n]].Update? && clrs[n] == Clr(rs[idx[n]].tid, rs[idx[n]].before))
    && (forall a, b :: 0 <= a < b < |idx| ==> idx[a] > idx[b])
  }

  /** A list of compensated positions below k - 1 stays one below k. */
  lemma NewestFirstWiden(rs: seq<LogRecord>, k: nat, clrs: seq<LogRecord>, idx: seq<nat>)
    requires 0 < k <= |rs| && NewestFirst(rs, k - 1, clrs, idx)
    ensures NewestFirst(rs, k, clrs, idx)
  {
  }

  /** Compensating record k - 1 first extends a list of positions below
      k - 1. */
  lemma NewestFirstCons(rs: seq<LogRecord>, k: nat, clrs: seq<LogRecord>, idx: seq<nat>)
    requires 0 < k <= |rs| && rs[k - 1].Update? && NewestFirst(rs, k - 1, clrs, idx)
    ensures NewestFirst(rs, k, [Clr(rs[k - 1].tid, rs[k - 1].before)] + clrs, [k - 1] + idx)
  {
    var clrs' := [Clr(rs[k - 1].tid, rs[k - 1].before)] + clrs;
    var idx' := [k - 1] + idx;
    forall n | 0 <= n < |idx'|
      ensures idx'[n] < k && rs[idx'[n]].Update? && clrs'[n] == Clr(rs[idx'[n]].tid, rs[idx'[n]].before)
    {
      if n > 0 { assert idx'[n] == idx[n - 1] && clrs'[n] == clrs[n - 1]; }
    }
  }

  /** The backward pass compensates UPDATE records from the newest to the
      oldest: the CLRs it appends follow strictly decreasing log positions.
      With UndoStore, each page ends with the before-image of the oldest
      UPDATE of it that the pass undoes. */
  lemma {:induction false} UndoNewestFirst(rs: seq<LogRecord>, k: nat, s: Undo)
    requires k <= |rs|
    ensures var u := UndoFrom(rs, k, s).1;
      |s.clrs| <= |u.clrs| && exists idx :: NewestFirst(rs, k, u.clrs[|s.clrs|..], idx)
    decreases k
  {
    UndoStore(rs, k, s);
    var u := UndoFrom(rs, k, s).1;
    if s.tids == {} || k == 0 || (rs[k - 1].Commit? && rs[k - 1].tid in s.tids) {
      assert NewestFirst(rs, k, u.clrs[|s.clrs|..], []);
    } else {
      var r := rs[k - 1];
      var s' := if r.tid !in s.tids || !(r.Begin? || r.Update?) then s
        else if r.Begin? then s.(tids := s.tids - {r.tid})
        else s.(store := s.store[r.before.id := r.before],
                discarded := s.discarded + [r.before.id],
                clrs := s.clrs + [Clr(r.tid, r.before)]);
      assert UndoFrom(rs, k, s) == UndoFrom(rs, k - 1, s');
      UndoNewestFirst(rs, k - 1, s');
      var idx :| NewestFirst(rs, k - 1, u.clrs[|s'.clrs|..], idx);
      if r.tid in s.tids && r.Update? {
        UndoStore(rs, k - 1, s');
        assert u.clrs[|s.clrs|] == u.clrs[..|s'.clrs|][|s.clrs|];
        assert u.clrs[|s.clrs|..] == [Clr(r.tid, r.before)] + u.clrs[|s'.clrs|..];
        NewestFirstCons(rs, k, u.clrs[|s'.clrs|..], idx);
      } else {
        NewestFirstWiden(rs, k, u.clrs[|s.clrs|..], idx);
      }
    }
  }

  /** ABORT records appended after the scanned log change nothing in the
      backward pass: the pass over the longer log equals the pass over the
      original one. */
  lemma {:induction false} UndoSkipsAborts(rs: seq<LogRecord>, aborts: seq<LogRecord>, s: Undo)
    requires forall i :: 0 <= i < |aborts| ==> aborts[i].Abort?
    ensures UndoFrom(rs + aborts, |rs + aborts|, s) == UndoFrom(rs, |rs|, s)
    decreases |aborts|
  {
    if aborts == [] {
      assert rs + aborts == rs;
    } else {
      var shorter := aborts[..|aborts| - 1];
      assert (rs + aborts)[..|rs + shorter|] == rs + shorter;
      UndoSkipsAborts(rs, shorter, s);
      UndoPrefix(rs + shorter, [aborts[|aborts| - 1]], |rs + shorter|, s);
      assert rs + shorter + [aborts[|aborts| - 1]] == rs + aborts;
    }
  }

  /** The backward pass over records [0, k) reads nothing beyond them. */
  lemma {:induction false} UndoPrefix(rs: seq<LogRecord>, more: seq<LogRecord>, k: nat, s: Undo)
    requires k <= |rs|
    ensures UndoFrom(rs + more, k, s) == UndoFrom(rs, k, s)
    decreases k
  {
    if s.tids != {} && k > 0 {
      assert (rs + more)[k - 1] == rs[k - 1];
      var r := rs[k - 1];
      if r.tid !in s.tids {
        UndoPrefix(rs, more, k - 1, s);
      } else {
        match r
        case Commit(_) =>
        case Begin(t) => UndoPrefix(rs, more, k - 1, s.(tids := s.tids - {t}));
        case Update(t, before, _) =>
          UndoPrefix(rs, more, k - 1, s.(store := s.store[before.id := before],
                                          discarded := s.discarded + [before.id],
                                          clrs := s.clrs + [Clr(t, before)]));
        case _ => UndoPrefix(rs, more, k - 1, s);
      }
    }
  }

  // ---------------------------------------------------------------------
  // The recovery helper over a log file, a page store and a page cache
  // ---------------------------------------------------------------------

  /** Where the forward pass starts, as the log header says: with no
      checkpoint, from the first record with no losers; otherwise from the
      record after the checkpoint, with its list of active transactions as
      the losers. None when the header is not the start of a checkpoint
      record. */
  function Seed(rs: seq<LogRecord>, header: int): (r: Option<(set<Tid>, nat)>)
    ensures r.Some? ==> r.value.1 <= |rs|
    ensures header == NO_CHECKPOINT ==> r == Some(({}, 0))
    ensures r.Some? && header != NO_CHECKPOINT ==>
      0 < r.value.1 && Start(rs, r.value.1 - 1) == header && rs[r.value.1 - 1].Checkpoint? &&
      r.value.0 == TidSet(rs[r.value.1 - 1].active)
  {
    if header == NO_CHECKPOINT then Some(({}, 0))
    else
      var at := RecordStarting(rs, header);
      if at.Some? && rs[at.value].Checkpoint? then Some((TidSet(rs[at.value].active), at.value + 1))
      else None
  }

  /** The transaction ids listed in a checkpoint record. */
  function TidSet(active: seq<Tid>): set<Tid>
  {
    set t | t in active
  }

  /** `aborts` holds one ABORT record for each transaction of `losers` and
      nothing else. */
  predicate AbortsFor(aborts: seq<LogRecord>, losers: set<Tid>)
  {
    (forall i :: 0 <= i < |aborts| ==> aborts[i].Abort? && aborts[i].tid in losers) &&
    (forall i, j :: 0 <= i < j < |aborts| ==> aborts[i].tid != aborts[j].tid) &&
    (forall t :: t in losers ==> exists i :: 0 <= i < |aborts| && aborts[i] == Abort(t))
  }

  class LogRecovery {
    /** The records of the log file; the passes only append to it. */
    var records: seq<LogRecord>
    /** The header: offset of the last checkpoint record, or NO_CHECKPOINT. */
    const header: int
    /** The page store the passes write images to. */
    var store: Store
    /** Pages whose cached copy the passes asked the buffer pool to discard. */
    var discarded: seq<PageId>

    constructor(header: int, records: seq<LogRecord>, store: Store)
      ensures this.header == header && this.records == records && this.store == store
      ensures discarded == []
    {
      this.header := header;
      this.records := records;
      this.store := store;
      discarded := [];
    }

    /** Undo every transaction of `tids`, walking the log backwards from
        its end through the trailing start offsets. */
    method RollbackSets(tids: set<Tid>) returns (outcome: Outcome)
      modifies this
      ensures var (o, u) := UndoFrom(old(records), |old(records)|, Undo(tids, old(store), old(discarded), []));
        outcome == o && store == u.store && discarded == u.discarded && records == old(records) + u.clrs
    {
      var rs := records;
      ghost var goal := UndoFrom(rs, |rs|, Undo(tids, store, discarded, []));
      ghost var k: nat := |rs|;
      ghost var appended: seq<LogRecord> := [];
      var pending := tids;
      StartAtEnd(rs);
      var pointer := Length(rs) - LONG_SIZE;
      while pending != {}
        invariant k <= |rs| && pointer == Start(rs, k) - LONG_SIZE
        invariant records == rs + appended
        invariant UndoFrom(rs, k, Undo(pending, store, discarded, appended)) == goal
        decreases k
      {
        TrailerOwnerAt(rs, k);
        var owner := TrailerOwner(rs, pointer);
        if owner.None? {
          return MissingBegin;
        }
        // the long at `pointer` is the start offset of the previous record
        var start := Start(rs, owner.value);
        RecordStartingAt(rs, owner.value);
        var at := RecordStarting(rs, start).value;
        var r := rs[at];
        if r.tid in pending {
          match r {
            case Commit(t) =>
              return CommittedLoser(t);
            case Begin(t) =>
              pending := pending - {t};
            case Update(t, before, _) =>
              store := store[before.id := before];
              discarded := discarded + [before.id];
              records := records + [Clr(t, before)];
              appended := appended + [Clr(t, before)];
            case _ =>
          }
        }
        pointer := start - LONG_SIZE;
        k := at;
      }
      outcome := Completed;
    }

    /** Undo one transaction: the same pass over the set {tid}. */
    method Rollback(tid: Tid) returns (outcome: Outcome)
      modifies this
      ensures var (o, u) := UndoFrom(old(records), |old(records)|, Undo({tid}, old(store), old(discarded), []));
        outcome == o && store == u.store && discarded == u.discarded && records == old(records) + u.clrs
    {
      outcome := RollbackSets({tid});
    }

    /** Recover after a crash: the forward pass from the last checkpoint
        (or the first record), then one ABORT record per loser and a
        single backward pass over all losers. A checkpoint record met by
        the forward pass ends recovery there. */
    method Recover() returns (outcome: Outcome)
      modifies this
      ensures Seed(old(records), header).None? ==>
        outcome == BadHeader && records == old(records) && store == old(store) && discarded == old(discarded)
      ensures Seed(old(records), header).Some? ==>
        var a := Forward(old(records), Seed(old(records), header).value.1,
                         Scan(Seed(old(records), header).value.0, old(store), old(discarded), false));
        a.stopped ==>
          outcome == Completed && records == old(records) && store == a.store && discarded == a.discarded
      ensures Seed(old(records), header).Some? ==>
        var a := Forward(old(records), Seed(old(records), header).value.1,
                         Scan(Seed(old(records), header).value.0, old(store), old(discarded), false));
        var (o, u) := UndoFrom(old(records), |old(records)|, Undo(a.losers, a.store, a.discarded, []));
        !a.stopped ==>
          outcome == o && store == u.store && discarded == u.discarded &&
          exists m :: |old(records)| <= m <= |records| && records[..|old(records)|] == old(records) &&
            AbortsFor(records[|old(records)|..m], a.losers) && records[m..] == u.clrs
    {
      var rs := records;
      var ok, losers, pointer, from := ReadHeader();
      if !ok {
        return BadHeader;
      }
      var stopped;
      losers, stopped := RedoPass(pointer, losers, from);
      if stopped {
        return Completed;
      }
      LogAborts(losers);
      ghost var aborts := records[|rs|..];
      assert records == rs + aborts;
      UndoSkipsAborts(rs, aborts, Undo(losers, store, discarded, []));
      ghost var m := |records|;
      outcome := RollbackSets(losers);
      assert records[..|rs|] == rs && records[|rs|..m] == aborts;
    }

    /** Read the header and, when it names a checkpoint, that record's list
        of active transactions: the starting loser set and the offset at
        which the forward pass begins. Fails when the header is not the
        start of a checkpoint record. */
    method ReadHeader() returns (ok: bool, losers: set<Tid>, pointer: int, ghost from: nat)
      ensures ok <==> Seed(records, header).Some?
      ensures ok ==> losers == Seed(records, header).value.0 && from == Seed(records, header).value.1
      ensures ok ==> pointer == Start(records, from)
    {
      var rs := records;
      losers := {};
      pointer := HEADER_SIZE;
      from := 0;
      ok := true;
      if header != NO_CHECKPOINT {
        var at := RecordStarting(rs, header);
        if at.None? || !rs[at.value].Checkpoint? {
          ok := false;
          return;
        }
        var active := rs[at.value].active;
        for i := 0 to |active|
          invariant losers == TidSet(active[..i])
        {
          assert active[..i + 1] == active[..i] + [active[i]];
          losers := losers + {active[i]};
        }
        assert active[..|active|] == active;
        // type, tid, count, the tids, and the trailing start offset
        pointer := header + INT_SIZE + LONG_SIZE + INT_SIZE + LONG_SIZE * |active| + LONG_SIZE;
        from := at.value + 1;
        StartNext(rs, at.value);
      }
    }

    /** The forward pass from the record at `pointer` (record number
        `from`) to the end of the log or the first checkpoint record. */
    method RedoPass(pointer: int, losers: set<Tid>, ghost from: nat) returns (losers': set<Tid>, stopped: bool)
      requires from <= |records| && pointer == Start(records, from)
      modifies this`store, this`discarded
      ensures var a := Forward(records, from, Scan(losers, old(store), old(discarded), false));
        losers' == a.losers && stopped == a.stopped && store == a.store && discarded == a.discarded
    {
      var rs := records;
      var p := pointer;
      ghost var k := from;
      losers' := losers;
      stopped := false;
      ghost var a := Forward(rs, k, Scan(losers', store, discarded, false));
      while p < Length(rs)
        invariant k <= |rs| && p == Start(rs, k)
        invariant Forward(rs, k, Scan(losers', store, discarded, false)) == a
        decreases |rs| - k
      {
        StartBelowLength(rs, k);
        StartNext(rs, k);
        RecordStartingAt(rs, k);
        // the record at the file pointer
        var r := rs[RecordStarting(rs, p).value];
        match r {
          case Abort(t) =>
            losers' := losers' - {t};
          case Begin(t) =>
            losers' := losers' + {t};
          case Checkpoint(_, _) =>
            stopped := true;
            return;
          case Clr(_, after) =>
            store := store[after.id := after];
            discarded := discarded + [after.id];
          case Commit(t) =>
            losers' := losers' - {t};
          case Update(_, _, after) =>
            store := store[after.id := after];
            discarded := discarded + [after.id];
        }
        p := p + RecordSize(r);
        k := k + 1;
      }
      StartBelowLength(rs, k);
    }

    /** Append one ABORT record per transaction of `losers`, in whatever
        order the set is visited. */
    method LogAborts(losers: set<Tid>)
      modifies this`records
      ensures |records| >= |old(records)| && records[..|old(records)|] == old(records)
      ensures AbortsFor(records[|old(records)|..], losers)
    {
      ghost var rs := records;
      ghost var aborts: seq<LogRecord> := [];
      var toWrite := set t | t in losers :: Abort(t);
      while toWrite != {}
        invariant records == rs + aborts
        invariant forall r :: r in toWrite ==> r.Abort? && r.tid in losers
        invariant forall i :: 0 <= i < |aborts| ==> aborts[i].Abort? && aborts[i].tid in losers && aborts[i] !in toWrite
        invariant forall i, j :: 0 <= i < j < |aborts| ==> aborts[i].tid != aborts[j].tid
        invariant forall t :: t in losers ==> Abort(t) in toWrite || exists i :: 0 <= i < |aborts| && aborts[i] == Abort(t)
        decreases toWrite
      {
        var r :| r in toWrite;
        records := records + [r];
        ghost var before := aborts;
        aborts := aborts + [r];
        toWrite := toWrite - {r};
        forall t | t in losers && Abort(t) !in toWrite
          ensures exists i :: 0 <= i < |aborts| && aborts[i] == Abort(t)
        {
          if Abort(t) == r {
            assert aborts[|before|] == Abort(t);
          } else {
            var i :| 0 <= i < |before| && before[i] == Abort(t);
            assert aborts[i] == Abort(t);
          }
        }
      }
      assert records[|rs|..] == aborts;
    }
  }
}
