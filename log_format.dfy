/** The layout of the write-ahead log as the recovery code reads it: an
    8-byte header holding the offset of the last checkpoint record (or -1),
    followed by records, each of the form

      int type | long tid | payload | long start-of-this-record

    where the payload is two page images for UPDATE, one for CLR, and an
    int count followed by that many longs for CHECKPOINT. A record's
    offset is therefore a function of the sizes of the records before it. */
module LogFormat {
  import opened Common

  const INT_SIZE := 4
  const LONG_SIZE := 8

  /** Header value meaning that no checkpoint has been written. */
  const NO_CHECKPOINT := -1

  /** The header is one long. */
  const HEADER_SIZE := LONG_SIZE

  /** The smallest record: type, tid and trailer, no payload. */
  const MIN_RECORD_SIZE := INT_SIZE + 2 * LONG_SIZE

  /** A page image as the log stores it; `bytes` stands for its whole
      serialised form, so only its length matters to the layout. */
  datatype PageImage = PageImage(id: PageId, bytes: seq<bv8>)

  /** One log record; every kind carries the id of its transaction. */
  datatype LogRecord =
    | Begin(tid: Tid)
    | Commit(tid: Tid)
    | Abort(tid: Tid)
    | Update(tid: Tid, before: PageImage, after: PageImage)
    | Clr(tid: Tid, after: PageImage)
    | Checkpoint(tid: Tid, active: seq<Tid>)

  function PayloadSize(r: LogRecord): nat
  {
    match r
    case Begin(_) => 0
    case Commit(_) => 0
    case Abort(_) => 0
    case Update(_, before, after) => |before.bytes| + |after.bytes|
    case Clr(_, after) => |after.bytes|
    case Checkpoint(_, active) => INT_SIZE + LONG_SIZE * |active|
  }

  /** Bytes taken by one record: type, tid, payload, trailing start offset. */
  function RecordSize(r: LogRecord): nat
  {
    INT_SIZE + LONG_SIZE + PayloadSize(r) + LONG_SIZE
  }

  /** Bytes taken by a run of records. */
  function Span(rs: seq<LogRecord>): nat
    decreases |rs|
  {
    if rs == [] then 0 else Span(rs[..|rs| - 1]) + RecordSize(rs[|rs| - 1])
  }

  /** File offset at which record k starts (for k == |rs|, the file length). */
  function Start(rs: seq<LogRecord>, k: nat): nat
    requires k <= |rs|
  {
    HEADER_SIZE + Span(rs[..k])
  }

  /** Length of the log file. */
  function Length(rs: seq<LogRecord>): nat
  {
    HEADER_SIZE + Span(rs)
  }

  /** The record whose trailing long sits at offset p, searching records
      [0, k). Reading the long at p yields that record's start. */
  function TrailerSearch(rs: seq<LogRecord>, p: int, k: nat): (r: Option<nat>)
    requires k <= |rs|
    ensures r.Some? ==> r.value < k && Start(rs, r.value + 1) - LONG_SIZE == p
    ensures r.None? ==> forall j :: 0 < j <= k ==> Start(rs, j) - LONG_SIZE != p
    decreases k
  {
    if k == 0 then None
    else if Start(rs, k) - LONG_SIZE == p then Some(k - 1)
    else TrailerSearch(rs, p, k - 1)
  }

  function TrailerOwner(rs: seq<LogRecord>, p: int): (r: Option<nat>)
    ensures r.Some? ==> r.value < |rs| && Start(rs, r.value + 1) - LONG_SIZE == p
    ensures r.None? ==> forall j :: 0 < j <= |rs| ==> Start(rs, j) - LONG_SIZE != p
  {
    TrailerSearch(rs, p, |rs|)
  }

  /** The record that starts at offset s, searching records [0, k). */
  function StartSearch(rs: seq<LogRecord>, s: int, k: nat): (r: Option<nat>)
    requires k <= |rs|
    ensures r.Some? ==> r.value < k && Start(rs, r.value) == s
    ensures r.None? ==> forall j :: 0 <= j < k ==> Start(rs, j) != s
    decreases k
  {
    if k == 0 then None
    else if Start(rs, k - 1) == s then Some(k - 1)
    else StartSearch(rs, s, k - 1)
  }

  function RecordStarting(rs: seq<LogRecord>, s: int): (r: Option<nat>)
    ensures r.Some? ==> r.value < |rs| && Start(rs, r.value) == s
    ensures r.None? ==> forall j :: 0 <= j < |rs| ==> Start(rs, j) != s
  {
    StartSearch(rs, s, |rs|)
  }

  /** Record k ends where record k + 1 begins. */
  lemma StartNext(rs: seq<LogRecord>, k: nat)
    requires k < |rs|
    ensures Start(rs, k + 1) == Start(rs, k) + RecordSize(rs[k])
  {
    assert rs[..k + 1][..k] == rs[..k];
  }

  /** The offset of the end of the last record is the file length. */
  lemma StartAtEnd(rs: seq<LogRecord>)
    ensures Start(rs, |rs|) == Length(rs)
  {
    assert rs[..|rs|] == rs;
  }

  /** Offsets grow by at least the smallest record size per record. */
  lemma {:induction false} StartMonotone(rs: seq<LogRecord>, j: nat, k: nat)
    requires j <= k <= |rs|
    ensures Start(rs, j) + MIN_RECORD_SIZE * (k - j) <= Start(rs, k)
    decreases k - j
  {
    if j < k {
      StartMonotone(rs, j, k - 1);
      StartNext(rs, k - 1);
    }
  }

  /** Appending records never moves an existing one. */
  lemma StartOfAppend(rs: seq<LogRecord>, more: seq<LogRecord>, k: nat)
    requires k <= |rs|
    ensures Start(rs + more, k) == Start(rs, k)
  {
    assert (rs + more)[..k] == rs[..k];
  }

  /** The forward scan's test `pointer < length` holds exactly while
      records remain. */
  lemma StartBelowLength(rs: seq<LogRecord>, k: nat)
    requires k <= |rs|
    ensures Start(rs, k) < Length(rs) <==> k < |rs|
  {
    StartAtEnd(rs);
    if k < |rs| {
      StartMonotone(rs, k, |rs|);
    }
  }

  /** The backward step: the long just before the start of record k is the
      trailer of record k - 1 and so holds that record's start; just before
      record 0 lies the header, which is no record's trailer. */
  lemma TrailerOwnerAt(rs: seq<LogRecord>, k: nat)
    requires k <= |rs|
    ensures k == 0 ==> TrailerOwner(rs, Start(rs, k) - LONG_SIZE).None?
    ensures k > 0 ==> TrailerOwner(rs, Start(rs, k) - LONG_SIZE) == Some(k - 1)
  {
    var p := Start(rs, k) - LONG_SIZE;
    var r := TrailerOwner(rs, p);
    if r.Some? {
      var j := r.value;
      if j + 1 < k {
        StartMonotone(rs, j + 1, k);
      } else if k < j + 1 {
        StartMonotone(rs, k, j + 1);
      }
    }
  }

  /** Seeking to a record's start offset finds that record and no other. */
  lemma RecordStartingAt(rs: seq<LogRecord>, k: nat)
    requires k < |rs|
    ensures RecordStarting(rs, Start(rs, k)) == Some(k)
  {
    var r := RecordStarting(rs, Start(rs, k));
    if r.Some? {
      var j := r.value;
      if j < k {
        StartMonotone(rs, j, k);
      } else if k < j {
        StartMonotone(rs, k, j);
      }
    }
  }
}
