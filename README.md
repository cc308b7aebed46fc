# JSON Schema Builder — a Dafny model of its field tree and example derivation

The application is a form for sketching the shape of a JSON document. The
user edits a list of rows (`SchemaField` records: an id, a name, one of six
type tags, and an optional `nested` list of rows), and a preview panel shows
an example JSON object derived from the rows. This project models the two
pieces of logic under the UI and proves their properties:

* **The example derivation** (`buildSchema`, module `JsonPreview`). The walk
  over the rows is modelled twice: the method `BuildSchema` is the loop as
  written, filling an object entry by entry and calling itself for nested
  rows; the function `SchemaOf` is a left fold that specifies it. The
  lemmas about `SchemaOf` cover what the preview relies on. Blank names are
  skipped, and keys are the untrimmed names. Each type has its fixed
  placeholder, and `Nested` rows recurse. The key set is exactly the names
  of the rows that emit a value. With duplicate names the last row wins and
  no key is listed twice. Keys appear in the order their first emitting
  row is met. The empty-state overlay shows exactly when no row
  emits. A JavaScript object is modelled as an ordered list of entries.
  Assigning to an existing key keeps its position and replaces the value;
  a new key goes last.
* **The field-tree editing operations** (modules `FieldTree`,
  `JsonSchemaBuilder`, `FieldRow`). The form store is the class
  `SchemaForm`, whose `fields` is the root row list. The builder's handlers
  are its methods (`AddField`, `RemoveField`). A row's handlers
  (`HandleTypeChange`, `AddNestedField`, `RemoveNestedField`,
  `HandleNameInput`) change the store at the row's path. A path is a
  sequence of indexes `[i, j, ...]` standing for the form library's string
  path `fields.i.nested.j...`. Each method states the new tree as a
  function of the old one. Every method keeps the invariant `Valid()`: the
  root list is never empty, and a `Nested` row always has at least one
  nested row.

Source paths below are relative to the repository root.

## Model

| member | source | states |
|---|---|---|
| `SchemaFields.CreateDefaultField` | src/components/JsonSchemaBuilder.tsx:23-27 | a new row has an empty name, type `String`, no nested list, and the id it was given |
| `JsonPreview.TrimStart` | src/components/JsonPreview.tsx:20 | the result is the suffix of the name after its leading whitespace, and it starts with a non-whitespace character or is empty |
| `JsonPreview.TrimEnd` | src/components/JsonPreview.tsx:20 | the result is the prefix of the name before its trailing whitespace, and it ends with a non-whitespace character or is empty |
| `JsonPreview.TrimEmptyIff` | src/components/JsonPreview.tsx:20 | `name.trim()` is empty exactly when every character of the name is whitespace |
| `JsonPreview.Assign` | src/components/JsonPreview.tsx:22-35 | `schema[name] = v` adds `name` to the key set and makes it read back `v`. Other keys keep their values. Keys stay distinct. An existing key keeps its position; a new key is appended |
| `JsonPreview.BuildSchema` | src/components/JsonPreview.tsx:16-41 | the loop, with its recursive call for nested rows, returns exactly the derived object `SchemaOf(fields)` |
| `JsonPreview.ValueOfByType` | src/components/JsonPreview.tsx:21-35 | the placeholder for each type: `"string_value"`, `0`, `true`, `["array_item_1","array_item_2"]`, `{"property1":"value1","property2":"value2"}`. A `Nested` row with a list gets the derived object of that list. Only a `Nested` row without a list has no value |
| `JsonPreview.LookupSchemaOf` | src/components/JsonPreview.tsx:19-38 | reading any key of the derived object gives the value of the last row that emits under that name, and reads nothing when no row does |
| `JsonPreview.LastWriteWins` | src/components/JsonPreview.tsx:19-38 | if row `i` emits and no later row emits under the same name, the key holds row `i`'s value |
| `JsonPreview.KeysOfSchemaOf` | src/components/JsonPreview.tsx:19-38 | the keys are exactly the untrimmed names of the rows that emit a value |
| `JsonPreview.FillFromKeepsPositions` | src/components/JsonPreview.tsx:18-37 | later rows never move or rename a key already written: the object only grows at the end |
| `JsonPreview.KeysInEncounterOrder` | src/components/JsonPreview.tsx:18-46 | of two names, the one whose first emitting row comes earlier is the earlier key of the derived object, the order `JSON.stringify` prints |
| `JsonPreview.SchemaOfDistinct` | src/components/JsonPreview.tsx:17-38 | the derived object never lists a key twice, whatever the duplicates among names |
| `JsonPreview.EmptyStateIff` | src/components/JsonPreview.tsx:116 | an empty row list derives the empty object, and the empty-state overlay shows exactly when no row emits a key |
| `JsonPreview.SilentFieldIgnored` | src/components/JsonPreview.tsx:20-36 | a row that emits nothing can be dropped from the list without changing the derived object. That covers a blank name and a `Nested` row without a list |
| `JsonPreview.BlankFieldIgnored` | src/components/JsonPreview.tsx:20 | a row whose name trims to empty contributes nothing, whatever its type or nested rows |
| `JsonPreview.ExampleTitleAndTags` | src/components/JsonPreview.tsx:19-38 | `[title:String, "":Number, tags:Array]` derives `{"title":"string_value","tags":["array_item_1","array_item_2"]}` |
| `JsonPreview.ExampleAddress` | src/components/JsonPreview.tsx:34-35 | `[address:Nested[city:String]]` derives `{"address":{"city":"string_value"}}` |
| `JsonPreview.ExampleUntrimmedKey` | src/components/JsonPreview.tsx:20-26 | the name `" title "` is emitted with its spaces as the key |
| `JsonPreview.ExampleDuplicateName` | src/components/JsonPreview.tsx:19-38 | `[x:String, y:Number, x:Boolean]` derives `{"x":true,"y":0}`: the later value sits at the earlier position |
| `FieldTree.ReplaceAt` | src/components/FieldRow.tsx:37-44 | a write at a row's path keeps the length of the root list and every other root row; the root row the path runs through is the written row itself, or keeps its id, name and type with only its nested list rewritten |
| `FieldTree.AncestorKept` | src/components/FieldRow.tsx:37-44 | every row above the written one, at any depth, is still addressed by its path and keeps its id, name and type; only its nested list changes |
| `FieldTree.ReplaceAtFieldAt` | src/components/FieldRow.tsx:37-44 | after a write at a path, the path still names a row and that row is the written value |
| `FieldTree.ReplaceAtTwice` | src/components/FieldRow.tsx:46-53 | two writes at one path amount to the later write |
| `FieldTree.ReplaceAtSame` | src/components/FieldRow.tsx:59-63 | writing back the row already at a path leaves the whole tree unchanged |
| `FieldTree.ReplaceAtElsewhere` | src/components/FieldRow.tsx:37-44 | a write at one path leaves unchanged every row whose path diverges from the written one, that is, a row neither above nor below it |
| `FieldTree.FieldAtOk` | src/components/FieldRow.tsx:46-63 | every row of a well-formed tree is well-formed |
| `FieldTree.ReplaceAtKeepsOk` | src/components/FieldRow.tsx:37-44 | writing a well-formed row into a well-formed tree keeps the tree well-formed |
| `FieldTree.AppendDefault` | src/components/JsonSchemaBuilder.tsx:45-47 | `append(createDefaultField())` adds exactly one default row at the end and leaves the earlier rows unchanged |
| `FieldTree.RemoveAt` | src/components/JsonSchemaBuilder.tsx:51 | `remove(i)` on a list with an index `i` shortens it by one and removes exactly row `i`; the other rows keep their order |
| `FieldTree.GuardedRemove` | src/components/JsonSchemaBuilder.tsx:49-53 | the `length > 1` guard makes removal a no-op on a one-row list, so a non-empty list stays non-empty |
| `FieldTree.CanRemoveAmong` | src/components/FieldRow.tsx:152 | a row is offered for removal exactly when removing it would shorten its list |
| `JsonSchemaBuilder.SchemaForm.constructor` | src/components/JsonSchemaBuilder.tsx:30-33 | the form starts with exactly one default root row, and that state satisfies the invariant |
| `JsonSchemaBuilder.SchemaForm.AddField` | src/components/JsonSchemaBuilder.tsx:45-47 | the root list gains one default row at the end, and the invariant is kept |
| `JsonSchemaBuilder.SchemaForm.RemoveField` | src/components/JsonSchemaBuilder.tsx:49-53 | nothing changes when the root list has one row. Otherwise row `index` is removed and the rest keep their order. The invariant is kept |
| `JsonSchemaBuilder.SchemaForm.CanRemove` | src/components/JsonSchemaBuilder.tsx:95 | root rows are removable exactly when the root list has more than one row, that is, exactly when removal has an effect |
| `JsonSchemaBuilder.RootNeverEmpty` | src/components/JsonSchemaBuilder.tsx:49-53 | any sequence of add and remove actions on a non-empty, well-formed root list leaves it non-empty and well-formed |
| `JsonSchemaBuilder.InitialNeverEmpty` | src/components/JsonSchemaBuilder.tsx:30-33 | from the initial one-row state, every sequence of root actions keeps at least one row |
| `FieldRow.WithChildAdded` | src/components/FieldRow.tsx:55-57 | the row's nested list (empty when absent) gains one default row at the end; the earlier nested rows and the row's own id, name and type are unchanged |
| `FieldRow.WithChildRemoved` | src/components/FieldRow.tsx:59-63 | the nested list becomes the guarded removal of index `j`. A row with at most one nested row is unchanged. Well-formedness is kept |
| `FieldRow.Retyped` | src/components/FieldRow.tsx:46-53 | the type becomes the chosen one. Choosing `Nested` with no nested rows seeds exactly one default row; with nested rows it keeps them. Any other type sets `nested` to the empty list |
| `FieldRow.RetypeAwayAndBack` | src/components/FieldRow.tsx:46-53 | switching away from `Nested` and back starts over with exactly one default nested row |
| `FieldRow.HandleTypeChange` | src/components/FieldRow.tsx:46-53 | the two writes (type, then nested list) leave the tree with `Retyped` at the row's path and nothing else changed; the invariant is kept |
| `FieldRow.AddNestedField` | src/components/FieldRow.tsx:55-57 | the row at the path becomes `WithChildAdded`, and the invariant is kept |
| `FieldRow.RemoveNestedField` | src/components/FieldRow.tsx:59-63 | the row at the path becomes `WithChildRemoved`. The tree is unchanged when the row has at most one nested row. The invariant is kept |
| `FieldRow.HandleNameInput` | src/components/FieldRow.tsx:80 | the name input writes any string, the empty one included, into the row's `name`; the invariant is kept |
| `FieldRow.CanRemoveChild` | src/components/FieldRow.tsx:152 | nested rows are removable exactly when the nested list has more than one row, that is, exactly when removal has an effect |

Points where the model follows the code's exact behaviour:

* The type tags are the code's `String`, `Number`, `Boolean`, `Array`,
  `Object` and `Nested`.
* Changing a row away from `Nested` sets `nested` to an empty list. The
  list is not deleted, so a non-`Nested` row may carry `Present([])`.
* A `Nested` row whose `nested` is absent emits no key at all.

`createDefaultField` is defined identically in
src/components/JsonSchemaBuilder.tsx:23-27 and
src/components/FieldRow.tsx:21-25. It is modelled once, as
`SchemaFields.CreateDefaultField`.

## Left out

- Rendering: JSX, CSS classes, indentation, tabs and cards.
- The expand/collapse flag `isExpanded`: it is presentation-local state, not part of the data.
- Clipboard copy, the `schema.json` download and the toasts: asynchronous browser I/O.
- `JSON.stringify(..., null, 4)`: the model stops at the abstract JSON value.
- `generateId` (`Math.random`): ids are parameters of the operations. Nothing is claimed about their uniqueness, because a random generator does not guarantee it.
- The form library's internals: `watch`, `useFieldArray` keys, string-path parsing and `useMemo` recomputation. Their effect is modelled as a write of a new value at an index path.
- JavaScript object quirks: integer-like keys enumerate before other keys, and `__proto__` is a special key. Entries are kept in insertion order with last-write-wins.
- `IsWhitespace` lists the ECMAScript WhiteSpace and LineTerminator code points explicitly. The Unicode space-separator category is taken as the code points listed there.
- `RemoveAt` on an index past the end removes nothing. The UI only ever passes the index of an existing row.
- `src/App.tsx`: it only composes the components.
