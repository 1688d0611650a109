/** Identifiers and small helpers shared by the lock table, the page cache,
    the recovery passes and the schema/tuple values. */
module Common {

  datatype Option<T> = None | Some(value: T)

  /** A heap page identifier: the table it belongs to and its page number. */
  datatype PageId = PageId(tableId: int, pageNo: int)

  /** A transaction identifier; the log stores it as its numeric id (a long). */
  type Tid = int

  /** The two lock modes a transaction can ask for. */
  datatype Permissions = ReadOnly | ReadWrite

  /** The parts in order, with `sep` between each two consecutive parts
      and none after the last. */
  function Joined(parts: seq<string>, sep: string): string
    decreases |parts|
  {
    if |parts| == 0 then ""
    else if |parts| == 1 then parts[0]
    else parts[0] + sep + Joined(parts[1..], sep)
  }

  /** Appending one more part adds one separator and the part, at the end. */
  lemma {:induction false} JoinedSnoc(parts: seq<string>, p: string, sep: string)
    requires |parts| >= 1
    ensures Joined(parts + [p], sep) == Joined(parts, sep) + sep + p
    decreases |parts|
  {
    if |parts| == 1 {
      assert parts + [p] == [parts[0], p];
      assert ([parts[0], p])[1..] == [p];
    } else {
      assert (parts + [p])[1..] == parts[1..] + [p];
      JoinedSnoc(parts[1..], p, sep);
    }
  }
}
