/**
 * The field descriptors the form edits: one `SchemaField` record per row,
 * nested rows under a field of type `Nested`.
 */
module SchemaFields {

  /** The six type tags a row can select. */
  datatype FieldType = String | Number | Boolean | Array | Object | Nested

  /**
   * The optional `nested?` list of a field. It is kept as its own datatype
   * (rather than a generic option) so that Dafny sees the nested fields as
   * structurally smaller than the field that holds them.
   */
  datatype NestedList = Absent | Present(items: seq<Field>)

  /** A `SchemaField`; `id` is the row's opaque key, supplied by the caller. */
  datatype Field = Field(id: string, name: string, kind: FieldType, nested: NestedList)

  /** The nested fields as the row's field array sees them: an absent list is empty. */
  function Children(f: Field): (c: seq<Field>)
    ensures f.nested.Present? ==> c == f.nested.items
    ensures f.nested.Absent? ==> c == []
  {
    match f.nested
    case Present(items) => items
    case Absent => []
  }

  /** A fresh row: empty name, type `String`, no nested list. */
  function CreateDefaultField(id: string): (f: Field)
    ensures f.id == id && f.name == "" && f.kind == String
    ensures f.nested.Absent? && Children(f) == []
  {
    Field(id, "", String, Absent)
  }

  /**
   * The shape every row keeps under the editing operations: a `Nested`
   * field has at least one nested field, and its nested fields are
   * well-formed in turn.
   */
  predicate FieldOk(f: Field)
    decreases f
  {
    && (f.kind == Nested ==> f.nested.Present? && |f.nested.items| >= 1)
    && (f.nested.Present? ==> ListOk(f.nested.items))
  }

  /** Every field of the list is well-formed. */
  predicate ListOk(fs: seq<Field>)
    decreases fs
  {
    forall i :: 0 <= i < |fs| ==> FieldOk(fs[i])
  }
}
