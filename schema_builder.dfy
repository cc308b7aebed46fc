/**
 * The builder page: it owns the form store whose `fields` array is the root
 * list of rows, adds rows at the end and removes them behind a guard.
 */
module JsonSchemaBuilder {
  import opened SchemaFields
  import opened FieldTree

  /** The form store created by `useForm`; `fields` is the root row list. */
  class SchemaForm {
    var fields: seq<Field>

    /** What the editing operations keep: at least one root row, every row well-formed. */
    ghost predicate Valid()
      reads this
    {
      |fields| >= 1 && ListOk(fields)
    }

    /** `defaultValues`: the form starts with one default row. */
    constructor (id: string)
      ensures fields == [CreateDefaultField(id)]
      ensures Valid()
    {
      fields := [CreateDefaultField(id)];
    }

    /** `addField`: one default row appended after the existing ones. */
    method AddField(id: string)
      requires Valid()
      modifies this
      ensures fields == AppendDefault(old(fields), id)
      ensures Valid()
    {
      fields := AppendDefault(fields, id);
    }

    /** `removeField`: removes row `index` unless it is the only row. */
    method RemoveField(index: nat)
      requires Valid()
      modifies this
      ensures fields == GuardedRemove(old(fields), index)
      ensures |old(fields)| == 1 ==> fields == old(fields)
      ensures Valid()
    {
      if |fields| > 1 {
        fields := RemoveAt(fields, index);
      }
    }

    /** The `canRemove` flag every root row receives. */
    function CanRemove(): (b: bool)
      reads this
      ensures b <==> |fields| > 1
      ensures b ==> forall i :: 0 <= i < |fields| ==> |GuardedRemove(fields, i)| == |fields| - 1
      ensures !b ==> forall i: nat :: GuardedRemove(fields, i) == fields
    {
      CanRemoveAmong(fields)
    }
  }

  /** The two actions of the root list: the "Add Field" button and a row's delete button. */
  datatype RootEdit = AddRow(id: string) | RemoveRow(index: nat)

  function ApplyRoot(fs: seq<Field>, e: RootEdit): seq<Field>
  {
    match e
    case AddRow(id) => AppendDefault(fs, id)
    case RemoveRow(i) => GuardedRemove(fs, i)
  }

  /** The root list after a sequence of root actions. */
  function Replay(fs: seq<Field>, es: seq<RootEdit>): seq<Field>
    decreases es
  {
    if es == [] then fs else Replay(ApplyRoot(fs, es[0]), es[1..])
  }

  /**
   * However the root actions are interleaved, the root list never becomes
   * empty and its rows stay well-formed; in particular from the initial
   * one-row list.
   */
  lemma {:induction false} RootNeverEmpty(fs: seq<Field>, es: seq<RootEdit>)
    requires |fs| >= 1 && ListOk(fs)
    ensures |Replay(fs, es)| >= 1 && ListOk(Replay(fs, es))
    decreases es
  {
    if es != [] {
      RootNeverEmpty(ApplyRoot(fs, es[0]), es[1..]);
    }
  }

  /** The initial list satisfies the invariant, so every replay from it keeps one row. */
  lemma InitialNeverEmpty(id: string, es: seq<RootEdit>)
    ensures |Replay([CreateDefaultField(id)], es)| >= 1
  {
    RootNeverEmpty([CreateDefaultField(id)], es);
  }
}
