/**
 * The six entry fields the document window shows (CSField and CSFields):
 * each field's dictionary key with its table column and cell identifiers,
 * and the lookups by position, by column and by key.
 */
module Fields {
  import opened Common

  /** A CSField: the entry key and the identifiers of its table column and cell. */
  datatype Field = Field(column: string, cell: string, key: string)

  /**
   * CSField(withKey:): the column is the key plus "Column", the cell the key
   * plus "Cell", so a field's column and cell identifiers never coincide.
   */
  function FieldWithKey(key: string): (f: Field)
    ensures f.key == key
    ensures f.column == key + "Column" && f.cell == key + "Cell"
    ensures f.column != f.cell
  {
    Field(key + "Column", key + "Cell", key)
  }

  /** The keys of CSFields.fields, in table order. */
  const FieldKeys: seq<string> := ["name", "account", "password", "url", "category", "notes"]

  /** CSFields.fields: one field per key, in table order, no key twice. */
  function AllFields(): (fields: seq<Field>)
    ensures |fields| == |FieldKeys|
    ensures forall i :: 0 <= i < |fields| ==> fields[i] == FieldWithKey(FieldKeys[i])
    ensures forall i, j :: 0 <= i < j < |fields| ==> fields[i].key != fields[j].key
  {
    [
      FieldWithKey("name"),
      FieldWithKey("account"),
      FieldWithKey("password"),
      FieldWithKey("url"),
      FieldWithKey("category"),
      FieldWithKey("notes")
    ]
  }

  /** `Array.first(where:)`: the earliest field satisfying p, or None when none does. */
  function FirstWhere(fields: seq<Field>, p: Field -> bool): (r: Option<Field>)
    ensures r.None? <==> forall i :: 0 <= i < |fields| ==> !p(fields[i])
    ensures r.Some? ==> exists i :: 0 <= i < |fields| && fields[i] == r.value && p(r.value)
                                    && forall j :: 0 <= j < i ==> !p(fields[j])
  {
    if fields == [] then None
    else if p(fields[0]) then Some(fields[0])
    else
      var r := FirstWhere(fields[1..], p);
      assert forall i :: 1 <= i < |fields| ==> fields[i] == fields[1..][i - 1];
      assert r.Some? ==> exists i :: 0 <= i < |fields| && fields[i] == r.value && p(r.value)
                                      && forall j :: 0 <= j < i ==> !p(fields[j]) by {
        if r.Some? {
          var i :| 0 <= i < |fields[1..]| && fields[1..][i] == r.value && p(r.value)
                   && forall j :: 0 <= j < i ==> !p(fields[1..][j]);
          assert fields[i + 1] == r.value;
          assert forall j :: 0 <= j < i + 1 ==> !p(fields[j]);
        }
      }
      r
  }

  /** CSFields.byIndex: the field at a position, None outside 0..<6. */
  function ByIndex(index: int): (r: Option<Field>)
    ensures r.Some? <==> 0 <= index < |FieldKeys|
    ensures r.Some? ==> r.value == FieldWithKey(FieldKeys[index])
  {
    if index < 0 || index >= |AllFields()| then None else Some(AllFields()[index])
  }

  /** CSFields.byKey: the field with that key, None for any other key. */
  function ByKey(key: string): (r: Option<Field>)
    ensures r.Some? <==> key in FieldKeys
    ensures r.Some? ==> r.value == FieldWithKey(key)
  {
    var r := FirstWhere(AllFields(), (field: Field) => field.key == key);
    assert forall i :: 0 <= i < |AllFields()| ==> AllFields()[i].key == FieldKeys[i];
    r
  }

  /** CSFields.byColumn: the field with that column identifier; None for no identifier. */
  function ByColumn(column: Option<string>): (r: Option<Field>)
    ensures column.None? ==> r.None?
    ensures r.Some? ==> r.value in AllFields() && column == Some(r.value.column)
  {
    match column
    case None => None
    case Some(c) => FirstWhere(AllFields(), (field: Field) => field.column == c)
  }

  /** The field keys are distinct, so looking up the key of the field at a position finds that field. */
  lemma {:induction false} ByKeyOfByIndex(index: int)
    requires 0 <= index < |FieldKeys|
    ensures ByKey(ByIndex(index).value.key) == ByIndex(index)
  {
    var k := FieldKeys[index];
    assert ByIndex(index).value.key == k;
  }

  /** Two keys with the same column identifier are the same key. */
  lemma ColumnDeterminesKey(a: string, b: string)
    requires a + "Column" == b + "Column"
    ensures a == b
  {
    assert |a| == |b|;
    assert forall i :: 0 <= i < |a| ==> a[i] == (a + "Column")[i] == (b + "Column")[i] == b[i];
  }

  /** first(where:) depends only on which fields satisfy the predicate. */
  lemma {:induction false} FirstWhereAgrees(fields: seq<Field>, p: Field -> bool, q: Field -> bool)
    requires forall i :: 0 <= i < |fields| ==> p(fields[i]) == q(fields[i])
    ensures FirstWhere(fields, p) == FirstWhere(fields, q)
  {
    if fields != [] && !p(fields[0]) {
      assert forall i :: 0 <= i < |fields[1..]| ==> fields[1..][i] == fields[i + 1];
      FirstWhereAgrees(fields[1..], p, q);
    }
  }

  /** Looking a field up by its column identifier agrees with looking it up by key. */
  lemma ByColumnOfKey(key: string)
    ensures ByColumn(Some(key + "Column")) == ByKey(key)
  {
    var byColumn := (field: Field) => field.column == key + "Column";
    var byKey := (field: Field) => field.key == key;
    forall i | 0 <= i < |AllFields()|
      ensures byColumn(AllFields()[i]) == byKey(AllFields()[i])
    {
      assert AllFields()[i] == FieldWithKey(FieldKeys[i]);
      if byColumn(AllFields()[i]) {
        ColumnDeterminesKey(FieldKeys[i], key);
      }
    }
    FirstWhereAgrees(AllFields(), byColumn, byKey);
    assert ByColumn(Some(key + "Column")) == FirstWhere(AllFields(), byColumn);
  }
}
