/** Tuple schemas: an ordered list of typed, optionally named fields.
    A schema never changes once built, so it is a value; its constructors
    and `Merge` fill arrays field by field. */
module Schema {
  import opened Common

  /** A column type, known by its printed name and the fixed number of
      bytes a value of it occupies. */
  datatype Type = Type(name: string, len: nat)

  /** One field of a schema; the name may be absent (null). */
  datatype TDItem = TDItem(fieldType: Type, fieldName: Option<string>)

  datatype TupleDesc = TupleDesc(items: seq<TDItem>)

  /** Outcome of an index lookup that throws NoSuchElementException. */
  datatype Found<T> = Found(value: T) | NoSuchElement

  function NumFields(td: TupleDesc): nat
  {
    |td.items|
  }

  /** The schema with types `typeAr` and names `fieldAr`. The names array
      is read at every index of the types array, so a shorter one fails
      (an index out of bounds); extra names are ignored. */
  method Make(typeAr: seq<Type>, fieldAr: seq<Option<string>>) returns (td: Option<TupleDesc>)
    ensures td.Some? <==> |fieldAr| >= |typeAr|
    ensures td.Some? ==> NumFields(td.value) == |typeAr|
    ensures td.Some? ==> forall i :: 0 <= i < |typeAr| ==>
      td.value.items[i].fieldType == typeAr[i] && td.value.items[i].fieldName == fieldAr[i]
  {
    var items: seq<TDItem> := [];
    for i := 0 to |typeAr|
      invariant |items| == i && i <= |fieldAr|
      invariant forall j :: 0 <= j < i ==> items[j] == TDItem(typeAr[j], fieldAr[j])
    {
      if i >= |fieldAr| {
        return None;
      }
      items := items + [TDItem(typeAr[i], fieldAr[i])];
    }
    if |typeAr| > |fieldAr| {
      return None;
    }
    td := Some(TupleDesc(items));
  }

  /** The schema with types `typeAr` and no field names. */
  method MakeAnonymous(typeAr: seq<Type>) returns (td: TupleDesc)
    ensures NumFields(td) == |typeAr|
    ensures forall i :: 0 <= i < |typeAr| ==> td.items[i] == TDItem(typeAr[i], None)
  {
    var items: seq<TDItem> := [];
    for i := 0 to |typeAr|
      invariant |items| == i
      invariant forall j :: 0 <= j < i ==> items[j] == TDItem(typeAr[j], None)
    {
      items := items + [TDItem(typeAr[i], None)];
    }
    td := TupleDesc(items);
  }

  /** The name of field i, or NoSuchElement when i is not a field index. */
  function GetFieldName(td: TupleDesc, i: int): (r: Found<Option<string>>)
    ensures r.Found? <==> 0 <= i < NumFields(td)
    ensures r.Found? ==> r.value == td.items[i].fieldName
  {
    if i > |td.items| - 1 || i < 0 then NoSuchElement else Found(td.items[i].fieldName)
  }

  /** The type of field i, or NoSuchElement when i is not a field index. */
  function GetFieldType(td: TupleDesc, i: int): (r: Found<Type>)
    ensures r.Found? <==> 0 <= i < NumFields(td)
    ensures r.Found? ==> r.value == td.items[i].fieldType
  {
    if i > |td.items| - 1 || i < 0 then NoSuchElement else Found(td.items[i].fieldType)
  }

  /** Scan from field i for the first field named `name`; unnamed fields
      never match. */
  function FindName(items: seq<TDItem>, name: string, i: nat): (r: Found<nat>)
    requires i <= |items|
    ensures r.Found? ==> i <= r.value < |items| && items[r.value].fieldName == Some(name)
    ensures r.Found? ==> forall j :: i <= j < r.value ==> items[j].fieldName != Some(name)
    ensures r.NoSuchElement? ==> forall j :: i <= j < |items| ==> items[j].fieldName != Some(name)
    decreases |items| - i
  {
    if i == |items| then NoSuchElement
    else if items[i].fieldName.None? then FindName(items, name, i + 1)
    else if items[i].fieldName.value == name then Found(i)
    else FindName(items, name, i + 1)
  }

  /** The smallest index whose field is named `name`, or NoSuchElement
      when no field has that name. */
  function FieldNameToIndex(td: TupleDesc, name: string): (r: Found<nat>)
    ensures r.Found? ==> r.value < NumFields(td) && td.items[r.value].fieldName == Some(name)
    ensures r.Found? ==> forall j :: 0 <= j < r.value ==> td.items[j].fieldName != Some(name)
    ensures r.NoSuchElement? <==> forall j :: 0 <= j < NumFields(td) ==> td.items[j].fieldName != Some(name)
  {
    FindName(td.items, name, 0)
  }

  /** Total byte length of the field types of `items`. */
  function SizeOf(items: seq<TDItem>): (r: nat)
    ensures forall i :: 0 <= i < |items| ==> items[i].fieldType.len <= r
  {
    if items == [] then 0 else items[0].fieldType.len + SizeOf(items[1..])
  }

  /** The fixed size in bytes of a tuple of this schema: every field fits
      in it. */
  function GetSize(td: TupleDesc): (r: nat)
    ensures forall i :: 0 <= i < NumFields(td) ==> td.items[i].fieldType.len <= r
  {
    SizeOf(td.items)
  }

  /** The size of a concatenation of fields is the sum of the sizes. */
  lemma {:induction false} SizeOfAppend(a: seq<TDItem>, b: seq<TDItem>)
    ensures SizeOf(a + b) == SizeOf(a) + SizeOf(b)
    decreases |a|
  {
    if a != [] {
      assert (a + b)[0] == a[0];
      assert (a + b)[1..] == a[1..] + b;
      SizeOfAppend(a[1..], b);
    } else {
      assert a + b == b;
    }
  }

  /** The schema with td1's fields followed by td2's, types and names. */
  method Merge(td1: TupleDesc, td2: TupleDesc) returns (td: TupleDesc)
    ensures td.items == td1.items + td2.items
  {
    var n1 := NumFields(td1);
    var n2 := NumFields(td2);
    var newFields := new Type[n1 + n2];
    var newNames := new Option<string>[n1 + n2];
    for i := 0 to n1
      invariant forall j :: 0 <= j < i ==> newFields[j] == td1.items[j].fieldType && newNames[j] == td1.items[j].fieldName
    {
      newFields[i] := GetFieldType(td1, i).value;
      newNames[i] := GetFieldName(td1, i).value;
    }
    for i := 0 to n2
      invariant forall j :: 0 <= j < n1 ==> newFields[j] == td1.items[j].fieldType && newNames[j] == td1.items[j].fieldName
      invariant forall j :: 0 <= j < i ==> newFields[n1 + j] == td2.items[j].fieldType && newNames[n1 + j] == td2.items[j].fieldName
    {
      newFields[i + n1] := GetFieldType(td2, i).value;
      newNames[i + n1] := GetFieldName(td2, i).value;
    }
    var made := Make(newFields[..], newNames[..]);
    td := made.value;
    forall j | 0 <= j < n1 + n2 ensures td.items[j] == (td1.items + td2.items)[j] {
      if j >= n1 {
        assert newFields[n1 + (j - n1)] == td2.items[j - n1].fieldType;
        assert newNames[n1 + (j - n1)] == td2.items[j - n1].fieldName;
      }
    }
  }

  /** A merged schema's size is the sum of both sizes. */
  lemma MergeSize(td1: TupleDesc, td2: TupleDesc)
    ensures GetSize(TupleDesc(td1.items + td2.items)) == GetSize(td1) + GetSize(td2)
  {
    SizeOfAppend(td1.items, td2.items);
  }

  /** Fields i.. of a and b have the same types, compared one by one. */
  function SameTypesFrom(a: seq<TDItem>, b: seq<TDItem>, i: nat): bool
    requires |a| == |b| && i <= |a|
    decreases |a| - i
  {
    i == |a| || (a[i].fieldType == b[i].fieldType && SameTypesFrom(a, b, i + 1))
  }

  /** Schemas are equal when they have the same number of fields and the
      same type at every position; names do not take part. */
  function Equals(td1: TupleDesc, td2: TupleDesc): bool
  {
    NumFields(td1) == NumFields(td2) && SameTypesFrom(td1.items, td2.items, 0)
  }

  function Types(td: TupleDesc): seq<Type>
  {
    seq(|td.items|, i requires 0 <= i < |td.items| => td.items[i].fieldType)
  }

  lemma {:induction false} SameTypesFromSpec(a: seq<TDItem>, b: seq<TDItem>, i: nat)
    requires |a| == |b| && i <= |a|
    ensures SameTypesFrom(a, b, i) <==> forall j :: i <= j < |a| ==> a[j].fieldType == b[j].fieldType
    decreases |a| - i
  {
    if i < |a| {
      SameTypesFromSpec(a, b, i + 1);
    }
  }

  /** Equality is exactly equality of the type sequences. */
  lemma EqualsSpec(td1: TupleDesc, td2: TupleDesc)
    ensures Equals(td1, td2) <==> Types(td1) == Types(td2)
  {
    if NumFields(td1) == NumFields(td2) {
      SameTypesFromSpec(td1.items, td2.items, 0);
      if Types(td1) == Types(td2) {
        forall j | 0 <= j < |td1.items| ensures td1.items[j].fieldType == td2.items[j].fieldType {
          assert Types(td1)[j] == Types(td2)[j];
        }
      }
    } else {
      assert |Types(td1)| != |Types(td2)|;
    }
  }

  lemma EqualsReflexive(td: TupleDesc)
    ensures Equals(td, td)
  {
    EqualsSpec(td, td);
  }

  lemma EqualsSymmetric(td1: TupleDesc, td2: TupleDesc)
    ensures Equals(td1, td2) == Equals(td2, td1)
  {
    EqualsSpec(td1, td2);
    EqualsSpec(td2, td1);
  }

  lemma EqualsTransitive(td1: TupleDesc, td2: TupleDesc, td3: TupleDesc)
    requires Equals(td1, td2) && Equals(td2, td3)
    ensures Equals(td1, td3)
  {
    EqualsSpec(td1, td2);
    EqualsSpec(td2, td3);
    EqualsSpec(td1, td3);
  }

  /** Renaming fields does not affect equality. */
  lemma EqualsIgnoresNames(td: TupleDesc, names: seq<Option<string>>)
    requires |names| == NumFields(td)
    ensures Equals(td, TupleDesc(seq(|names|, i requires 0 <= i < |names| => TDItem(td.items[i].fieldType, names[i]))))
  {
    var renamed := TupleDesc(seq(|names|, i requires 0 <= i < |names| => TDItem(td.items[i].fieldType, names[i])));
    assert Types(renamed) == Types(td);
    EqualsSpec(td, renamed);
  }

  /** Java's rendering of a possibly null name. */
  function NameText(name: Option<string>): string
  {
    if name.None? then "null" else name.value
  }

  /** One field rendered as `name(type)`. */
  function ItemText(item: TDItem): string
  {
    NameText(item.fieldName) + "(" + item.fieldType.name + ")"
  }

  /** Render fields i.. as the string loop does: each field, followed by
      ", " unless it is the last field. */
  function DescribeFrom(items: seq<TDItem>, i: nat): string
    requires i <= |items|
    decreases |items| - i
  {
    if i == |items| then ""
    else ItemText(items[i]) + (if i != |items| - 1 then ", " else "") + DescribeFrom(items, i + 1)
  }

  function ToString(td: TupleDesc): string
  {
    DescribeFrom(td.items, 0)
  }

  function ItemTexts(items: seq<TDItem>): seq<string>
  {
    seq(|items|, i requires 0 <= i < |items| => ItemText(items[i]))
  }

  lemma {:induction false} DescribeFromJoined(items: seq<TDItem>, i: nat)
    requires i <= |items|
    ensures DescribeFrom(items, i) == Joined(ItemTexts(items)[i..], ", ")
    decreases |items| - i
  {
    if i < |items| {
      DescribeFromJoined(items, i + 1);
      var ts := ItemTexts(items)[i..];
      assert ts[0] == ItemText(items[i]);
      assert ts[1..] == ItemTexts(items)[i + 1..];
    }
  }

  /** The description lists every field as `name(type)`, in order, with
      ", " between consecutive fields and no trailing separator. */
  lemma ToStringJoined(td: TupleDesc)
    ensures ToString(td) == Joined(ItemTexts(td.items), ", ")
  {
    DescribeFromJoined(td.items, 0);
    assert ItemTexts(td.items)[0..] == ItemTexts(td.items);
  }
}
