/**
 * The example document the preview shows: `buildSchema` walks the field
 * list and writes one placeholder value per named field into a plain
 * object, recursing for `Nested` fields.
 */
module JsonPreview {
  import opened Wrappers
  import opened SchemaFields

  /** The JSON values the derivation can produce. */
  datatype Json =
    | JString(str: string)
    | JNumber(num: int)
    | JBool(b: bool)
    | JArray(elems: seq<Json>)
    | JObject(entries: Entries)

  /**
   * A JavaScript object as an ordered list of (key, value) entries, in the
   * order the object enumerates its keys.
   */
  type Entries = seq<(string, Json)>

  const StringPlaceholder: Json := JString("string_value")
  const NumberPlaceholder: Json := JNumber(0)
  const BooleanPlaceholder: Json := JBool(true)
  const ArrayPlaceholder: Json := JArray([JString("array_item_1"), JString("array_item_2")])
  const ObjectPlaceholder: Json := JObject([("property1", JString("value1")), ("property2", JString("value2"))])

  // ---------------------------------------------------------------- trim

  /**
   * The code points `String.prototype.trim` removes: the ECMAScript
   * WhiteSpace set (TAB, VT, FF, ZWNBSP and the Unicode space separators)
   * and the LineTerminator set (LF, CR, LS, PS).
   */
  predicate IsWhitespace(c: char)
  {
    || c == '\t' || c == '\U{000B}' || c == '\U{000C}' || c == '\U{FEFF}'
    || c == ' ' || c == '\U{00A0}' || c == '\U{1680}' || '\U{2000}' <= c <= '\U{200A}'
    || c == '\U{202F}' || c == '\U{205F}' || c == '\U{3000}'
    || c == '\n' || c == '\r' || c == '\U{2028}' || c == '\U{2029}'
  }

  /** Drops leading whitespace: the result is the suffix of `s` after it. */
  function TrimStart(s: string): (r: string)
    ensures |r| <= |s| && r == s[|s| - |r|..]
    ensures r == [] || !IsWhitespace(r[0])
    ensures forall i :: 0 <= i < |s| - |r| ==> IsWhitespace(s[i])
  {
    if s != [] && IsWhitespace(s[0]) then TrimStart(s[1..]) else s
  }

  /** Drops trailing whitespace: the result is the prefix of `s` before it. */
  function TrimEnd(s: string): (r: string)
    ensures |r| <= |s| && r == s[..|r|]
    ensures r == [] || !IsWhitespace(r[|r| - 1])
    ensures forall i :: |r| <= i < |s| ==> IsWhitespace(s[i])
  {
    if s != [] && IsWhitespace(s[|s| - 1]) then TrimEnd(s[..|s| - 1]) else s
  }

  function Trim(s: string): string
  {
    TrimEnd(TrimStart(s))
  }

  /** A name that `trim` empties: all of its characters are whitespace. */
  predicate IsBlank(s: string)
  {
    forall i :: 0 <= i < |s| ==> IsWhitespace(s[i])
  }

  /** A name trims to the empty string exactly when all its characters are whitespace. */
  lemma TrimEmptyIff(s: string)
    ensures Trim(s) == [] <==> IsBlank(s)
  {
  }

  // ------------------------------------------------------- object entries

  /** The object's keys. */
  function Keys(m: Entries): set<string>
  {
    set i | 0 <= i < |m| :: m[i].0
  }

  /** No key occurs twice, as in every JavaScript object. */
  predicate DistinctKeys(m: Entries)
  {
    forall i, j :: 0 <= i < j < |m| ==> m[i].0 != m[j].0
  }

  /** Position of the first entry with key `k`. */
  function KeyIndex(m: Entries, k: string): (r: Option<nat>)
    ensures r.Some? ==> r.value < |m| && m[r.value].0 == k
    ensures r.Some? ==> forall j :: 0 <= j < r.value ==> m[j].0 != k
    ensures r.None? <==> k !in Keys(m)
  {
    if m == [] then None
    else if m[0].0 == k then Some(0)
    else
      match KeyIndex(m[1..], k)
      case Some(j) => (assert m[1..][j] == m[j + 1]; Some(j + 1))
      case None =>
        assert forall j :: 1 <= j < |m| ==> m[j] == m[1..][j - 1];
        None
  }

  /** Reading `obj[k]`: the value stored under `k`, if any. */
  function Lookup(m: Entries, k: string): (r: Option<Json>)
    ensures r.Some? <==> k in Keys(m)
  {
    match KeyIndex(m, k)
    case Some(i) => Some(m[i].1)
    case None => None
  }

  /**
   * The assignment `obj[k] = v`: an existing key keeps its position and
   * takes the new value; a new key is added after all others.
   */
  function Assign(m: Entries, k: string, v: Json): (r: Entries)
    ensures Keys(r) == Keys(m) + {k}
    ensures Lookup(r, k) == Some(v)
    ensures forall k' :: k' != k ==> Lookup(r, k') == Lookup(m, k')
    ensures DistinctKeys(m) ==> DistinctKeys(r)
    ensures k in Keys(m) ==> |r| == |m| && forall j :: 0 <= j < |m| ==> r[j].0 == m[j].0
    ensures k !in Keys(m) ==> |r| == |m| + 1 && r[..|m|] == m && r[|m|] == (k, v)
  {
    match KeyIndex(m, k)
    case Some(i) =>
      var r := m[i := (k, v)];
      assert forall j :: 0 <= j < |m| ==> r[j].0 == m[j].0;
      assert Keys(r) == Keys(m) by {
        forall x ensures x in Keys(r) <==> x in Keys(m) {
          if x in Keys(r) { var j :| 0 <= j < |r| && r[j].0 == x; assert m[j].0 == x; }
          if x in Keys(m) { var j :| 0 <= j < |m| && m[j].0 == x; assert r[j].0 == x; }
        }
      }
      LookupSameKeys(m, r, k);
      r
    case None =>
      var r := m + [(k, v)];
      assert r[|m|].0 == k;
      assert Keys(r) == Keys(m) + {k} by {
        forall x ensures x in Keys(r) <==> x in Keys(m) + {k} {
          if x in Keys(m) { var j :| 0 <= j < |m| && m[j].0 == x; assert r[j].0 == x; }
        }
      }
      LookupAppended(m, k, v);
      r
  }

  /** Rewriting one entry in place leaves the lookups of the other keys alone. */
  lemma LookupSameKeys(m: Entries, r: Entries, k: string)
    requires |r| == |m|
    requires forall j :: 0 <= j < |m| ==> r[j].0 == m[j].0
    requires forall j :: 0 <= j < |m| && m[j].0 != k ==> r[j] == m[j]
    ensures forall k' :: k' != k ==> Lookup(r, k') == Lookup(m, k')
  {
  }

  /** Appending a key that is not yet present puts it last and moves nothing else. */
  lemma {:induction false} KeyIndexAppended(m: Entries, k: string, v: Json, k': string)
    requires k !in Keys(m)
    ensures KeyIndex(m + [(k, v)], k') == if k' in Keys(m) then KeyIndex(m, k') else if k' == k then Some(|m|) else None
    decreases m
  {
    var r := m + [(k, v)];
    if m != [] {
      assert r[1..] == m[1..] + [(k, v)];
      assert Keys(m[1..]) <= Keys(m) by {
        forall x | x in Keys(m[1..]) ensures x in Keys(m) {
          var j :| 0 <= j < |m[1..]| && m[1..][j].0 == x;
          assert m[j + 1].0 == x;
        }
      }
      assert m[0].0 in Keys(m);
      KeyIndexAppended(m[1..], k, v, k');
      if k' in Keys(m) && m[0].0 != k' {
        var j :| 0 <= j < |m| && m[j].0 == k';
        assert m[1..][j - 1].0 == k';
      }
    }
  }

  /** Appending a new key leaves the lookups of the other keys alone. */
  lemma LookupAppended(m: Entries, k: string, v: Json)
    requires k !in Keys(m)
    ensures Lookup(m + [(k, v)], k) == Some(v)
    ensures forall k' :: k' != k ==> Lookup(m + [(k, v)], k') == Lookup(m, k')
  {
    KeyIndexAppended(m, k, v, k);
    forall k' | k' != k ensures Lookup(m + [(k, v)], k') == Lookup(m, k') {
      KeyIndexAppended(m, k, v, k');
    }
  }

  // ---------------------------------------------------------- derivation

  /**
   * The value a named field contributes: a fixed placeholder per leaf type,
   * the derived object of the nested list for `Nested`, and nothing for a
   * `Nested` field whose nested list is absent.
   */
  function ValueOf(f: Field): (r: Option<Json>)
    decreases f, 0
  {
    match f.kind
    case String => Some(StringPlaceholder)
    case Number => Some(NumberPlaceholder)
    case Boolean => Some(BooleanPlaceholder)
    case Array => Some(ArrayPlaceholder)
    case Object => Some(ObjectPlaceholder)
    case Nested =>
      match f.nested
      case Present(items) => Some(JObject(FillFrom([], items)))
      case Absent => None
  }

  /** Whether the field writes a key: its name is not blank and it has a value. */
  predicate Emits(f: Field)
  {
    !IsBlank(f.name) && ValueOf(f).Some?
  }

  /** One iteration of the walk: write the field's value under its untrimmed name. */
  function Emit(acc: Entries, f: Field): Entries
    decreases f, 1
  {
    if !IsBlank(f.name) then
      match ValueOf(f)
      case Some(v) => Assign(acc, f.name, v)
      case None => acc
    else acc
  }

  /** The walk over `fs` in order, starting from the object `acc`. */
  function FillFrom(acc: Entries, fs: seq<Field>): Entries
    decreases fs
  {
    if fs == [] then acc else FillFrom(Emit(acc, fs[0]), fs[1..])
  }

  /** The example object derived from a field list. */
  function SchemaOf(fs: seq<Field>): Entries
  {
    FillFrom([], fs)
  }

  /**
   * `buildSchema` as written: a loop that fills a fresh object field by
   * field, calling itself for the nested list of a `Nested` field.
   */
  method BuildSchema(fields: seq<Field>) returns (schema: Entries)
    ensures schema == SchemaOf(fields)
    decreases fields
  {
    schema := [];
    var i := 0;
    while i < |fields|
      invariant i <= |fields|
      invariant FillFrom(schema, fields[i..]) == SchemaOf(fields)
    {
      var field := fields[i];
      ghost var before := schema;
      TrimEmptyIff(field.name);
      if Trim(field.name) != "" {
        if field.kind == String {
          schema := Assign(schema, field.name, StringPlaceholder);
          assert ValueOf(field) == Some(StringPlaceholder);
        } else if field.kind == Number {
          schema := Assign(schema, field.name, NumberPlaceholder);
          assert ValueOf(field) == Some(NumberPlaceholder);
        } else if field.kind == Boolean {
          schema := Assign(schema, field.name, BooleanPlaceholder);
          assert ValueOf(field) == Some(BooleanPlaceholder);
        } else if field.kind == Array {
          schema := Assign(schema, field.name, ArrayPlaceholder);
          assert ValueOf(field) == Some(ArrayPlaceholder);
        } else if field.kind == Object {
          schema := Assign(schema, field.name, ObjectPlaceholder);
          assert ValueOf(field) == Some(ObjectPlaceholder);
        } else if field.kind == Nested && field.nested.Present? {
          var sub := BuildSchema(field.nested.items);
          schema := Assign(schema, field.name, JObject(sub));
          assert ValueOf(field) == Some(JObject(sub));
        }
      }
      assert schema == Emit(before, field);
      FillFromStep(before, fields[i..]);
      assert fields[i..][1..] == fields[i + 1..];
      i := i + 1;
    }
  }

  lemma FillFromStep(acc: Entries, fs: seq<Field>)
    requires fs != []
    ensures FillFrom(acc, fs) == FillFrom(Emit(acc, fs[0]), fs[1..])
  {
  }

  /** The empty-state overlay: the derived object has no keys. */
  predicate ShowsEmptyState(schema: Entries)
  {
    |schema| == 0
  }

  // -------------------------------------------------------------- lemmas

  /** The placeholder each type contributes, and the recursion for `Nested`. */
  lemma ValueOfByType(f: Field)
    ensures f.kind == String ==> ValueOf(f) == Some(JString("string_value"))
    ensures f.kind == Number ==> ValueOf(f) == Some(JNumber(0))
    ensures f.kind == Boolean ==> ValueOf(f) == Some(JBool(true))
    ensures f.kind == Array ==> ValueOf(f) == Some(JArray([JString("array_item_1"), JString("array_item_2")]))
    ensures f.kind == Object ==> ValueOf(f) == Some(JObject([("property1", JString("value1")), ("property2", JString("value2"))]))
    ensures f.kind == Nested && f.nested.Present? ==> ValueOf(f) == Some(JObject(SchemaOf(f.nested.items)))
    ensures ValueOf(f).None? <==> f.kind == Nested && f.nested.Absent?
  {
  }

  /** The value of the last emitting field named `k`, scanning the whole list. */
  function LastValue(fs: seq<Field>, k: string): Option<Json>
  {
    if fs == [] then None
    else
      var later := LastValue(fs[1..], k);
      if later.Some? then later
      else if Emits(fs[0]) && fs[0].name == k then ValueOf(fs[0])
      else None
  }

  lemma {:induction false} FillFromLookup(acc: Entries, fs: seq<Field>, k: string)
    ensures Lookup(FillFrom(acc, fs), k) == if LastValue(fs, k).Some? then LastValue(fs, k) else Lookup(acc, k)
    decreases fs
  {
    if fs != [] {
      FillFromLookup(Emit(acc, fs[0]), fs[1..], k);
    }
  }

  /** Every key of the derived object holds the value of the last field that wrote it. */
  lemma LookupSchemaOf(fs: seq<Field>, k: string)
    ensures Lookup(SchemaOf(fs), k) == LastValue(fs, k)
  {
    FillFromLookup([], fs, k);
  }

  lemma {:induction false} LastValueIsLast(fs: seq<Field>, i: nat)
    requires i < |fs| && Emits(fs[i])
    requires forall j :: i < j < |fs| ==> !Emits(fs[j]) || fs[j].name != fs[i].name
    ensures LastValue(fs, fs[i].name) == ValueOf(fs[i])
    decreases i
  {
    var k := fs[i].name;
    LastValueNone(fs[i + 1..], k);
    if i > 0 {
      assert fs[1..][i - 1] == fs[i];
      LastValueIsLast(fs[1..], i - 1);
    }
  }

  lemma {:induction false} LastValueNone(fs: seq<Field>, k: string)
    ensures LastValue(fs, k).None? <==> forall j :: 0 <= j < |fs| ==> !Emits(fs[j]) || fs[j].name != k
    decreases fs
  {
    if fs != [] {
      LastValueNone(fs[1..], k);
      assert forall j :: 1 <= j < |fs| ==> fs[j] == fs[1..][j - 1];
    }
  }

  /**
   * Duplicate names: the field written last wins. If field `i` emits and no
   * later field emits under the same name, its value is the one stored.
   */
  lemma LastWriteWins(fs: seq<Field>, i: nat)
    requires i < |fs| && Emits(fs[i])
    requires forall j :: i < j < |fs| ==> !Emits(fs[j]) || fs[j].name != fs[i].name
    ensures Lookup(SchemaOf(fs), fs[i].name) == ValueOf(fs[i])
  {
    LastValueIsLast(fs, i);
    LookupSchemaOf(fs, fs[i].name);
  }

  /** The keys are exactly the untrimmed names of the fields that emit. */
  lemma KeysOfSchemaOf(fs: seq<Field>)
    ensures Keys(SchemaOf(fs)) == set i | 0 <= i < |fs| && Emits(fs[i]) :: fs[i].name
  {
    var emitted := set i | 0 <= i < |fs| && Emits(fs[i]) :: fs[i].name;
    forall k ensures k in Keys(SchemaOf(fs)) <==> k in emitted {
      LookupSchemaOf(fs, k);
      LastValueNone(fs, k);
    }
  }

  lemma {:induction false} FillFromDistinct(acc: Entries, fs: seq<Field>)
    requires DistinctKeys(acc)
    ensures DistinctKeys(FillFrom(acc, fs))
    decreases fs
  {
    if fs != [] {
      FillFromDistinct(Emit(acc, fs[0]), fs[1..]);
    }
  }

  /** The derived object never lists a key twice, whatever the duplicates among names. */
  lemma SchemaOfDistinct(fs: seq<Field>)
    ensures DistinctKeys(SchemaOf(fs))
  {
    FillFromDistinct([], fs);
  }

  /** The overlay shows exactly when no field emits a key; in particular for an empty list. */
  lemma EmptyStateIff(fs: seq<Field>)
    ensures SchemaOf([]) == []
    ensures ShowsEmptyState(SchemaOf(fs)) <==> forall i :: 0 <= i < |fs| ==> !Emits(fs[i])
  {
    KeysOfSchemaOf(fs);
    var m := SchemaOf(fs);
    if |m| > 0 {
      assert m[0].0 in Keys(m);
    }
    if i :| 0 <= i < |fs| && Emits(fs[i]) {
      assert fs[i].name in Keys(m);
    }
  }

  lemma {:induction false} FillFromAppend(acc: Entries, a: seq<Field>, b: seq<Field>)
    ensures FillFrom(acc, a + b) == FillFrom(FillFrom(acc, a), b)
    decreases a
  {
    if a != [] {
      assert (a + b)[0] == a[0] && (a + b)[1..] == a[1..] + b;
      FillFromAppend(Emit(acc, a[0]), a[1..], b);
    } else {
      assert a + b == b;
    }
  }

  /**
   * A field that emits nothing — a blank name, or a `Nested` field without
   * a nested list — can be dropped from the list without changing the output.
   */
  lemma SilentFieldIgnored(fs: seq<Field>, k: nat)
    requires k < |fs| && !Emits(fs[k])
    ensures SchemaOf(fs[..k] + fs[k + 1..]) == SchemaOf(fs)
  {
    assert fs == fs[..k] + ([fs[k]] + fs[k + 1..]);
    FillFromAppend([], fs[..k], [fs[k]] + fs[k + 1..]);
    FillFromAppend([], fs[..k], fs[k + 1..]);
  }

  /** A field whose name is all whitespace contributes nothing, whatever its type or children. */
  lemma BlankFieldIgnored(fs: seq<Field>, k: nat)
    requires k < |fs|
    ensures Trim(fs[k].name) == "" ==> SchemaOf(fs[..k] + fs[k + 1..]) == SchemaOf(fs)
  {
    TrimEmptyIff(fs[k].name);
    if Trim(fs[k].name) == "" {
      SilentFieldIgnored(fs, k);
    }
  }

  /** Running the walk further never moves or renames a key already written. */
  lemma {:induction false} FillFromKeepsPositions(acc: Entries, fs: seq<Field>)
    ensures |FillFrom(acc, fs)| >= |acc|
    ensures forall p :: 0 <= p < |acc| ==> FillFrom(acc, fs)[p].0 == acc[p].0
    decreases fs
  {
    if fs != [] {
      FillFromKeepsPositions(Emit(acc, fs[0]), fs[1..]);
    }
  }

  /** The derived object of `fs` is the walk over its tail resumed from the object of its first `n` rows. */
  lemma SchemaOfSplit(fs: seq<Field>, n: nat)
    requires n <= |fs|
    ensures SchemaOf(fs) == FillFrom(SchemaOf(fs[..n]), fs[n..])
    ensures n < |fs| ==> SchemaOf(fs[..n + 1]) == Emit(SchemaOf(fs[..n]), fs[n])
  {
    assert fs == fs[..n] + fs[n..];
    FillFromAppend([], fs[..n], fs[n..]);
    if n < |fs| {
      assert fs[..n + 1] == fs[..n] + [fs[n]];
      FillFromAppend([], fs[..n], [fs[n]]);
      FillFromStep(SchemaOf(fs[..n]), [fs[n]]);
      assert [fs[n]][1..] == [];
    }
  }

  /**
   * An object that extends `before` with `b` in the next position: a key
   * already in `before` is found ahead of `b`.
   */
  lemma KeyIndexBefore(before: Entries, whole: Entries, a: string, b: string)
    requires a in Keys(before) && b !in Keys(before)
    requires |whole| > |before| && whole[|before|].0 == b
    requires forall p :: 0 <= p < |before| ==> whole[p].0 == before[p].0
    ensures KeyIndex(whole, a).Some? && KeyIndex(whole, b).Some?
    ensures KeyIndex(whole, a).value < KeyIndex(whole, b).value
  {
  }

  /**
   * Keys appear in encounter order: of two names, the one whose first
   * emitting row comes earlier sits earlier in the derived object, which is
   * the order `JSON.stringify` prints them in.
   */
  lemma KeysInEncounterOrder(fs: seq<Field>, i: nat, j: nat)
    requires i < j < |fs| && Emits(fs[i]) && Emits(fs[j]) && fs[i].name != fs[j].name
    requires forall k :: 0 <= k < i ==> !Emits(fs[k]) || fs[k].name != fs[i].name
    requires forall k :: 0 <= k < j ==> !Emits(fs[k]) || fs[k].name != fs[j].name
    ensures KeyIndex(SchemaOf(fs), fs[i].name).Some? && KeyIndex(SchemaOf(fs), fs[j].name).Some?
    ensures KeyIndex(SchemaOf(fs), fs[i].name).value < KeyIndex(SchemaOf(fs), fs[j].name).value
  {
    var a, b := fs[i].name, fs[j].name;
    var before := SchemaOf(fs[..j]);
    var after := SchemaOf(fs[..j + 1]);
    assert a in Keys(before) && b !in Keys(before) by {
      KeysOfSchemaOf(fs[..j]);
      assert forall k :: 0 <= k < j ==> fs[..j][k] == fs[k];
    }
    assert |after| == |before| + 1 && after[..|before|] == before && after[|before|].0 == b by {
      SchemaOfSplit(fs, j);
      assert after == Assign(before, b, ValueOf(fs[j]).value);
    }
    assert SchemaOf(fs) == FillFrom(after, fs[j + 1..]) by {
      SchemaOfSplit(fs, j + 1);
    }
    FillFromKeepsPositions(after, fs[j + 1..]);
    KeyIndexBefore(before, SchemaOf(fs), a, b);
  }

  // ------------------------------------------------------------- examples

  /** A blank-named field is skipped; the others keep their order. */
  lemma ExampleTitleAndTags()
    ensures SchemaOf([Field("a", "title", String, Absent), Field("b", "", Number, Absent), Field("c", "tags", Array, Absent)])
            == [("title", JString("string_value")), ("tags", JArray([JString("array_item_1"), JString("array_item_2")]))]
  {
    var title, blank, tags := Field("a", "title", String, Absent), Field("b", "", Number, Absent), Field("c", "tags", Array, Absent);
    var one := [("title", StringPlaceholder)];
    var two := one + [("tags", ArrayPlaceholder)];
    assert Emit([], title) == one by {
      assert !IsBlank("title") by { assert !IsWhitespace("title"[0]); }
    }
    assert Emit(one, blank) == one;
    assert Emit(one, tags) == two by {
      assert !IsBlank("tags") by { assert !IsWhitespace("tags"[0]); }
      assert KeyIndex(one, "tags") == None by { assert one[0].0 != "tags"; }
    }
    assert FillFrom(one, [tags]) == two by {
      FillFromStep(one, [tags]);
      assert [tags][1..] == [];
    }
    assert FillFrom(one, [blank, tags]) == two by {
      FillFromStep(one, [blank, tags]);
      assert [blank, tags][1..] == [tags];
    }
    FillFromStep([], [title, blank, tags]);
    assert [title, blank, tags][1..] == [blank, tags];
  }

  /** A `Nested` field derives to the object of its nested fields. */
  lemma ExampleAddress()
    ensures SchemaOf([Field("a", "address", Nested, Present([Field("b", "city", String, Absent)]))])
            == [("address", JObject([("city", JString("string_value"))]))]
  {
    var city := Field("b", "city", String, Absent);
    var address := Field("a", "address", Nested, Present([city]));
    var inner := [("city", StringPlaceholder)];
    assert FillFrom([], [city]) == inner by {
      assert !IsBlank("city") by { assert !IsWhitespace("city"[0]); }
      assert Emit([], city) == inner;
      FillFromStep([], [city]);
      assert [city][1..] == [];
    }
    assert Emit([], address) == [("address", JObject(inner))] by {
      assert !IsBlank("address") by { assert !IsWhitespace("address"[0]); }
      assert ValueOf(address) == Some(JObject(inner));
    }
    FillFromStep([], [address]);
    assert [address][1..] == [];
  }

  /** The key is the name as typed, surrounding spaces included. */
  lemma ExampleUntrimmedKey()
    ensures SchemaOf([Field("a", " title ", Boolean, Absent)]) == [(" title ", JBool(true))]
  {
    assert !IsBlank(" title ") by { assert !IsWhitespace(" title "[1]); }
  }

  /** Two fields with one name: one key, the later value, the earlier position. */
  lemma ExampleDuplicateName()
    ensures SchemaOf([Field("a", "x", String, Absent), Field("b", "y", Number, Absent), Field("c", "x", Boolean, Absent)])
            == [("x", JBool(true)), ("y", JNumber(0))]
  {
    var x1, y, x2 := Field("a", "x", String, Absent), Field("b", "y", Number, Absent), Field("c", "x", Boolean, Absent);
    var one := [("x", StringPlaceholder)];
    var two := one + [("y", NumberPlaceholder)];
    var three := [("x", BooleanPlaceholder), ("y", NumberPlaceholder)];
    assert Emit([], x1) == one by {
      assert !IsBlank("x") by { assert !IsWhitespace("x"[0]); }
    }
    assert Emit(one, y) == two by {
      assert !IsBlank("y") by { assert !IsWhitespace("y"[0]); }
      assert KeyIndex(one, "y") == None by { assert one[0].0 != "y"; }
    }
    assert Emit(two, x2) == three by {
      assert !IsBlank("x") by { assert !IsWhitespace("x"[0]); }
      assert KeyIndex(two, "x") == Some(0);
    }
    assert FillFrom(two, [x2]) == three by {
      FillFromStep(two, [x2]);
      assert [x2][1..] == [];
    }
    assert FillFrom(one, [y, x2]) == three by {
      FillFromStep(one, [y, x2]);
      assert [y, x2][1..] == [x2];
    }
    FillFromStep([], [x1, y, x2]);
    assert [x1, y, x2][1..] == [y, x2];
  }
}
