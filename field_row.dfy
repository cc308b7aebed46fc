/**
 * A row of the editor. Its handlers change the shared form store at the
 * row's own path: the type select, the "Add Nested" button, and the delete
 * buttons of its nested rows.
 */
module FieldRow {
  import opened SchemaFields
  import opened FieldTree
  import opened JsonSchemaBuilder

  /** `append(createDefaultField())` on the row's nested array (an absent array starts empty). */
  function WithChildAdded(f: Field, id: string): (r: Field)
    ensures r.id == f.id && r.name == f.name && r.kind == f.kind
    ensures r.nested.Present? && |r.nested.items| == |Children(f)| + 1
    ensures r.nested.items[..|Children(f)|] == Children(f)
    ensures r.nested.items[|Children(f)|] == CreateDefaultField(id)
    ensures FieldOk(f) ==> FieldOk(r)
  {
    f.(nested := Present(AppendDefault(Children(f), id)))
  }

  /** `removeNestedField(j)`: the guarded remove on the row's nested array. */
  function WithChildRemoved(f: Field, j: nat): (r: Field)
    ensures r.id == f.id && r.name == f.name && r.kind == f.kind
    ensures Children(r) == GuardedRemove(Children(f), j)
    ensures |Children(f)| <= 1 ==> r == f
    ensures FieldOk(f) ==> FieldOk(r)
  {
    match f.nested
    case Present(items) => f.(nested := Present(GuardedRemove(items, j)))
    case Absent => f
  }

  /**
   * The row after `handleTypeChange(t)`: the type is always the chosen one;
   * choosing `Nested` seeds one default nested row when there is none and
   * otherwise keeps the nested rows; any other type clears them.
   */
  function Retyped(f: Field, t: FieldType, id: string): (r: Field)
    ensures r.kind == t && r.id == f.id && r.name == f.name
    ensures t == Nested && Children(f) == [] ==> r.nested == Present([CreateDefaultField(id)])
    ensures t == Nested && Children(f) != [] ==> r.nested == f.nested
    ensures t != Nested ==> r.nested == Present([])
    ensures FieldOk(f) ==> FieldOk(r)
  {
    if t == Nested && Children(f) == [] then WithChildAdded(f.(kind := t), id)
    else if t != Nested then f.(kind := t, nested := Present([]))
    else f.(kind := t)
  }

  /** Leaving `Nested` and coming back starts over from a single default nested row. */
  lemma RetypeAwayAndBack(f: Field, t: FieldType, id1: string, id2: string)
    requires t != Nested
    ensures Children(Retyped(Retyped(f, t, id1), Nested, id2)) == [CreateDefaultField(id2)]
  {
  }

  /** `handleTypeChange`: set the type, then seed or clear the nested array. */
  method HandleTypeChange(form: SchemaForm, path: Path, value: FieldType, id: string)
    requires form.Valid() && ValidPath(form.fields, path)
    modifies form
    ensures form.fields == ReplaceAt(old(form.fields), path, Retyped(FieldAt(old(form.fields), path), value, id))
    ensures form.Valid() && ValidPath(form.fields, path)
  {
    ghost var before := form.fields;
    var f := FieldAt(form.fields, path);
    FieldAtOk(form.fields, path);
    var nestedCount := |Children(f)|;
    form.fields := ReplaceAt(form.fields, path, f.(kind := value));
    ReplaceAtFieldAt(before, path, f.(kind := value));
    var g := f.(kind := value);
    if value == Nested && nestedCount == 0 {
      g := WithChildAdded(FieldAt(form.fields, path), id);
      form.fields := ReplaceAt(form.fields, path, g);
    } else if value != Nested {
      g := FieldAt(form.fields, path).(nested := Present([]));
      form.fields := ReplaceAt(form.fields, path, g);
    }
    ReplaceAtTwice(before, path, f.(kind := value), g);
    assert g == Retyped(f, value, id);
    ReplaceAtKeepsOk(before, path, g);
    ReplaceAtFieldAt(before, path, g);
  }

  /** `addNestedField`: one default row appended to the row's nested array. */
  method AddNestedField(form: SchemaForm, path: Path, id: string)
    requires form.Valid() && ValidPath(form.fields, path)
    modifies form
    ensures form.fields == ReplaceAt(old(form.fields), path, WithChildAdded(FieldAt(old(form.fields), path), id))
    ensures form.Valid() && ValidPath(form.fields, path)
  {
    var g := WithChildAdded(FieldAt(form.fields, path), id);
    FieldAtOk(form.fields, path);
    ReplaceAtKeepsOk(form.fields, path, g);
    ReplaceAtFieldAt(form.fields, path, g);
    form.fields := ReplaceAt(form.fields, path, g);
  }

  /** `removeNestedField(j)`: removes nested row `j` unless it is the only one. */
  method RemoveNestedField(form: SchemaForm, path: Path, j: nat)
    requires form.Valid() && ValidPath(form.fields, path)
    modifies form
    ensures form.fields == ReplaceAt(old(form.fields), path, WithChildRemoved(FieldAt(old(form.fields), path), j))
    ensures |Children(FieldAt(old(form.fields), path))| <= 1 ==> form.fields == old(form.fields)
    ensures form.Valid() && ValidPath(form.fields, path)
  {
    var f := FieldAt(form.fields, path);
    FieldAtOk(form.fields, path);
    if |Children(f)| > 1 {
      var g := f.(nested := Present(RemoveAt(Children(f), j)));
      ReplaceAtKeepsOk(form.fields, path, g);
      ReplaceAtFieldAt(form.fields, path, g);
      form.fields := ReplaceAt(form.fields, path, g);
    } else {
      ReplaceAtSame(form.fields, path);
    }
  }

  /** The name input, bound to the row's `name`: any string is accepted. */
  method HandleNameInput(form: SchemaForm, path: Path, name: string)
    requires form.Valid() && ValidPath(form.fields, path)
    modifies form
    ensures form.fields == ReplaceAt(old(form.fields), path, FieldAt(old(form.fields), path).(name := name))
    ensures form.Valid() && ValidPath(form.fields, path)
  {
    var g := FieldAt(form.fields, path).(name := name);
    FieldAtOk(form.fields, path);
    ReplaceAtKeepsOk(form.fields, path, g);
    ReplaceAtFieldAt(form.fields, path, g);
    form.fields := ReplaceAt(form.fields, path, g);
  }

  /** The `canRemove` flag the row passes to each of its nested rows. */
  function CanRemoveChild(form: SchemaForm, path: Path): (b: bool)
    requires ValidPath(form.fields, path)
    reads form
    ensures b <==> |Children(FieldAt(form.fields, path))| > 1
    ensures !b ==> forall j: nat :: WithChildRemoved(FieldAt(form.fields, path), j) == FieldAt(form.fields, path)
    ensures b ==> forall j :: 0 <= j < |Children(FieldAt(form.fields, path))| ==>
      |Children(WithChildRemoved(FieldAt(form.fields, path), j))| == |Children(FieldAt(form.fields, path))| - 1
  {
    CanRemoveAmong(Children(FieldAt(form.fields, path)))
  }
}
