/** A tuple: a schema, one slot per field of the schema holding a field
    value or nothing yet, and an optional record id saying where the tuple
    is stored. The slots are a fixed-size array updated in place. */
module Tuples {
  import opened Common
  import opened Schema

  /** A field value: its type and its printed text. */
  datatype Field = Field(fieldType: Type, text: string)

  /** Where a tuple lives: a page and a slot on it. */
  datatype RecordId = RecordId(pid: PageId, tupleNo: int)

  /** How a field update ends: stored, no field at that index
      (NoSuchElementException from the schema) or a value of the wrong
      type (RuntimeException). */
  datatype SetOutcome = Stored | NoSuchField | TypeMismatch

  /** Every slot holds nothing or a value of its field's type. */
  predicate WellTyped(td: TupleDesc, fs: seq<Option<Field>>)
  {
    |fs| == NumFields(td) &&
    forall i :: 0 <= i < |fs| && fs[i].Some? ==> fs[i].value.fieldType == td.items[i].fieldType
  }

  /** The effect of storing `f` at index i of the slots `fs`. */
  function SetFieldSpec(td: TupleDesc, fs: seq<Option<Field>>, i: int, f: Field): (SetOutcome, seq<Option<Field>>)
    requires |fs| == NumFields(td)
  {
    match GetFieldType(td, i)
    case NoSuchElement => (NoSuchField, fs)
    case Found(t) => if t == f.fieldType then (Stored, fs[i := Some(f)]) else (TypeMismatch, fs)
  }

  /** A value is stored exactly when i is a field index and the value has
      that field's type; it then occupies slot i and every other slot is
      unchanged; otherwise nothing changes. */
  lemma SetFieldCases(td: TupleDesc, fs: seq<Option<Field>>, i: int, f: Field)
    requires |fs| == NumFields(td)
    ensures var (o, fs') := SetFieldSpec(td, fs, i, f);
      && (o == Stored <==> 0 <= i < |fs| && td.items[i].fieldType == f.fieldType)
      && (o == NoSuchField <==> !(0 <= i < |fs|))
      && |fs'| == |fs|
      && (o == Stored ==> fs'[i] == Some(f))
      && (forall j :: 0 <= j < |fs| && j != i ==> fs'[j] == fs[j])
      && (o != Stored ==> fs' == fs)
  {
  }

  /** Storing a field never breaks well-typedness. */
  lemma SetFieldWellTyped(td: TupleDesc, fs: seq<Option<Field>>, i: int, f: Field)
    requires WellTyped(td, fs)
    ensures WellTyped(td, SetFieldSpec(td, fs, i, f).1)
  {
    SetFieldCases(td, fs, i, f);
  }

  /** Java's rendering of a slot: the field's text, or "null" when unset. */
  function SlotText(slot: Option<Field>): string
  {
    if slot.None? then "null" else slot.value.text
  }

  function SlotTexts(fs: seq<Option<Field>>): seq<string>
  {
    seq(|fs|, i requires 0 <= i < |fs| => SlotText(fs[i]))
  }

  class Tuple {
    const td: TupleDesc
    const fields: array<Option<Field>>
    var rid: Option<RecordId>

    ghost predicate Valid()
      reads this, fields
    {
      WellTyped(td, fields[..])
    }

    /** A tuple of schema `td` with every field unset and no record id. */
    constructor(td: TupleDesc)
      ensures Valid() && this.td == td && fresh(fields)
      ensures forall i :: 0 <= i < fields.Length ==> fields[i].None?
      ensures rid.None?
    {
      this.td := td;
      this.fields := new Option<Field>[NumFields(td)](_ => None);
      this.rid := None;
    }

    function GetTupleDesc(): TupleDesc
    {
      td
    }

    function GetRecordId(): Option<RecordId>
      reads this
    {
      rid
    }

    method SetRecordId(rid: Option<RecordId>)
      modifies this
      ensures this.rid == rid && GetRecordId() == rid
    {
      this.rid := rid;
    }

    /** Store `f` in field i when i is a field index of the schema and `f`
        has that field's type; report the failure otherwise. */
    method SetField(i: int, f: Field) returns (outcome: SetOutcome)
      requires Valid()
      modifies fields
      ensures Valid()
      ensures (outcome, fields[..]) == SetFieldSpec(td, old(fields[..]), i, f)
    {
      var t := GetFieldType(td, i);
      if t.NoSuchElement? {
        return NoSuchField;
      }
      if t.value == f.fieldType {
        fields[i] := Some(f);
        outcome := Stored;
      } else {
        outcome := TypeMismatch;
      }
      SetFieldWellTyped(td, old(fields[..]), i, f);
    }

    /** The value of field i, or None when it has not been set; a value
        that is there has the schema's type for that field. */
    function GetField(i: int): (r: Option<Field>)
      requires Valid() && 0 <= i < fields.Length
      reads this, fields
      ensures r.Some? ==> r.value.fieldType == td.items[i].fieldType
    {
      assert fields[..][i] == fields[i];
      fields[i]
    }

    /** The fields' texts in order, separated by tabs. */
    method ToString() returns (s: string)
      ensures s == Joined(SlotTexts(fields[..]), "\t")
    {
      var n := fields.Length;
      ghost var texts := SlotTexts(fields[..]);
      s := "";
      for i := 0 to n
        invariant i == 0 ==> s == ""
        invariant 0 < i ==> s == Joined(texts[..i], "\t") + (if i != n then "\t" else "")
      {
        assert texts[i] == SlotText(fields[i]);
        if i > 0 {
          JoinedSnoc(texts[..i], texts[i], "\t");
          assert texts[..i] + [texts[i]] == texts[..i + 1];
        } else {
          assert texts[..1] == [texts[0]];
        }
        s := s + SlotText(fields[i]);
        if i != n - 1 {
          s := s + "\t";
        }
      }
      if n > 0 {
        assert texts[..n] == texts;
      }
    }
  }
}
