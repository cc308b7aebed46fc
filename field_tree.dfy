/**
 * Addressing rows in the field tree. The form library names a row by a
 * string path `fields.i.nested.j...`; here a path is the sequence of indexes
 * `[i, j, ...]`, one per level.
 */
module FieldTree {
  import opened SchemaFields

  type Path = seq<nat>

  /** The path names an existing row: each index is in range at its level. */
  predicate ValidPath(fs: seq<Field>, p: Path)
    decreases p
  {
    && |p| >= 1
    && p[0] < |fs|
    && (|p| == 1 || ValidPath(Children(fs[p[0]]), p[1..]))
  }

  /** The row a valid path names. */
  function FieldAt(fs: seq<Field>, p: Path): Field
    requires ValidPath(fs, p)
    decreases p
  {
    if |p| == 1 then fs[p[0]] else FieldAt(Children(fs[p[0]]), p[1..])
  }

  /**
   * Writing a new value for the row at `p` (what `setValue` and the field
   * array helpers do at a path): the list keeps its length and every other
   * top-level entry; the top-level row the path runs through keeps its id,
   * name and type, and only its nested list is rewritten.
   */
  function ReplaceAt(fs: seq<Field>, p: Path, g: Field): (r: seq<Field>)
    requires ValidPath(fs, p)
    ensures |r| == |fs|
    ensures forall i :: 0 <= i < |fs| && i != p[0] ==> r[i] == fs[i]
    ensures |p| == 1 ==> r[p[0]] == g
    ensures |p| > 1 ==> r[p[0]].id == fs[p[0]].id && r[p[0]].name == fs[p[0]].name && r[p[0]].kind == fs[p[0]].kind
    decreases p
  {
    if |p| == 1 then fs[p[0] := g]
    else
      var f := fs[p[0]];
      fs[p[0] := f.(nested := Present(ReplaceAt(Children(f), p[1..], g)))]
  }

  /** After the write the path still names a row, and that row is the new value. */
  lemma {:induction false} ReplaceAtFieldAt(fs: seq<Field>, p: Path, g: Field)
    requires ValidPath(fs, p)
    ensures ValidPath(ReplaceAt(fs, p, g), p) && FieldAt(ReplaceAt(fs, p, g), p) == g
    decreases p
  {
    if |p| > 1 {
      ReplaceAtFieldAt(Children(fs[p[0]]), p[1..], g);
    }
  }

  /** Two writes at one path: the later one wins. */
  lemma {:induction false} ReplaceAtTwice(fs: seq<Field>, p: Path, g: Field, h: Field)
    requires ValidPath(fs, p)
    ensures ValidPath(ReplaceAt(fs, p, g), p)
    ensures ReplaceAt(ReplaceAt(fs, p, g), p, h) == ReplaceAt(fs, p, h)
    decreases p
  {
    ReplaceAtFieldAt(fs, p, g);
    if |p| > 1 {
      ReplaceAtTwice(Children(fs[p[0]]), p[1..], g, h);
    }
  }

  /** Writing back the row that is already there changes nothing. */
  lemma {:induction false} ReplaceAtSame(fs: seq<Field>, p: Path)
    requires ValidPath(fs, p)
    ensures ReplaceAt(fs, p, FieldAt(fs, p)) == fs
    decreases p
  {
    if |p| > 1 {
      ReplaceAtSame(Children(fs[p[0]]), p[1..]);
    }
  }

  /** Neither path is a prefix of the other: they name rows in separate subtrees. */
  predicate Disjoint(p: Path, q: Path)
  {
    exists k :: 0 <= k < |p| && k < |q| && p[k] != q[k]
  }

  /** A write at `p` leaves every row whose path diverges from `p` (neither above nor below it) as it was. */
  lemma {:induction false} ReplaceAtElsewhere(fs: seq<Field>, p: Path, g: Field, q: Path)
    requires ValidPath(fs, p) && ValidPath(fs, q) && Disjoint(p, q)
    ensures ValidPath(ReplaceAt(fs, p, g), q) && FieldAt(ReplaceAt(fs, p, g), q) == FieldAt(fs, q)
    decreases p
  {
    var r := ReplaceAt(fs, p, g);
    if p[0] != q[0] {
      assert r[q[0]] == fs[q[0]];
    } else {
      var k :| 0 <= k < |p| && k < |q| && p[k] != q[k];
      assert p[1..][k - 1] != q[1..][k - 1];
      ReplaceAtElsewhere(Children(fs[p[0]]), p[1..], g, q[1..]);
    }
  }

  /**
   * A write at `p` keeps every row above the written one, at any depth,
   * apart from its nested list: the id, name and type of each ancestor
   * stay as they were.
   */
  lemma {:induction false} AncestorKept(fs: seq<Field>, p: Path, g: Field, q: Path)
    requires ValidPath(fs, p) && 1 <= |q| < |p| && q == p[..|q|]
    ensures ValidPath(fs, q) && ValidPath(ReplaceAt(fs, p, g), q)
    ensures FieldAt(ReplaceAt(fs, p, g), q).id == FieldAt(fs, q).id
    ensures FieldAt(ReplaceAt(fs, p, g), q).name == FieldAt(fs, q).name
    ensures FieldAt(ReplaceAt(fs, p, g), q).kind == FieldAt(fs, q).kind
    decreases p
  {
    if |q| > 1 {
      assert p[1..][..|q| - 1] == q[1..];
      AncestorKept(Children(fs[p[0]]), p[1..], g, q[1..]);
    }
  }

  /** Every row of a well-formed tree is well-formed. */
  lemma {:induction false} FieldAtOk(fs: seq<Field>, p: Path)
    requires ValidPath(fs, p) && ListOk(fs)
    ensures FieldOk(FieldAt(fs, p))
    decreases p
  {
    if |p| > 1 {
      assert FieldOk(fs[p[0]]);
      FieldAtOk(Children(fs[p[0]]), p[1..]);
    }
  }

  /** A well-formed row written into a well-formed tree keeps the tree well-formed. */
  lemma {:induction false} ReplaceAtKeepsOk(fs: seq<Field>, p: Path, g: Field)
    requires ValidPath(fs, p) && ListOk(fs) && FieldOk(g)
    ensures ListOk(ReplaceAt(fs, p, g))
    decreases p
  {
    if |p| > 1 {
      var f := fs[p[0]];
      assert FieldOk(f);
      ReplaceAtKeepsOk(Children(f), p[1..], g);
      var r := ReplaceAt(fs, p, g);
      assert r[p[0]] == f.(nested := Present(ReplaceAt(Children(f), p[1..], g)));
    }
  }

  /** `append(createDefaultField())`: one default row after the existing ones. */
  function AppendDefault(fs: seq<Field>, id: string): (r: seq<Field>)
    ensures |r| == |fs| + 1 && r[..|fs|] == fs
    ensures r[|fs|].name == "" && r[|fs|].kind == String && r[|fs|].nested.Absent? && r[|fs|].id == id
    ensures ListOk(fs) ==> ListOk(r)
  {
    fs + [CreateDefaultField(id)]
  }

  /**
   * The field array's `remove(i)`: the row at `i` leaves, the others keep
   * their order. An index past the end removes nothing.
   */
  function RemoveAt(fs: seq<Field>, i: nat): (r: seq<Field>)
    ensures i >= |fs| ==> r == fs
    ensures i < |fs| ==> |r| == |fs| - 1
    ensures i < |fs| ==> forall k :: 0 <= k < i ==> r[k] == fs[k]
    ensures i < |fs| ==> forall k :: i <= k < |r| ==> r[k] == fs[k + 1]
    ensures ListOk(fs) ==> ListOk(r)
  {
    if i < |fs| then fs[..i] + fs[i + 1..] else fs
  }

  /**
   * `if (list.length > 1) remove(i)`, the guard shared by root and nested
   * rows: a list never drops below one row this way.
   */
  function GuardedRemove(fs: seq<Field>, i: nat): (r: seq<Field>)
    ensures |fs| <= 1 ==> r == fs
    ensures |fs| > 1 ==> r == RemoveAt(fs, i)
    ensures |fs| >= 1 ==> |r| >= 1
    ensures ListOk(fs) ==> ListOk(r)
  {
    if |fs| > 1 then RemoveAt(fs, i) else fs
  }

  /**
   * The `canRemove` rule of a row: its siblings number more than one. The
   * remove action is offered exactly when using it would remove a row.
   */
  function CanRemoveAmong(siblings: seq<Field>): (b: bool)
    ensures b ==> forall i :: 0 <= i < |siblings| ==> |GuardedRemove(siblings, i)| == |siblings| - 1
    ensures !b ==> forall i: nat :: GuardedRemove(siblings, i) == siblings
  {
    |siblings| > 1
  }
}
