# gameshopui core: schema hierarchy resolver and query-filter encoding

A Dafny model of the two self-contained pieces of logic in the gameshopui client.

- **Schema hierarchy resolver** (`src/table.rs`). This part turns the flat list of table schemas fetched from the service into `TableEntry` values. A base table is a table whose first primary-key column has no foreign keys. `into_trees` extracts the base tables from a working list. `construct_leaves` then repeatedly extracts the tables whose primary key refers to the current node, and recurses on each one. `pop_outer_leaves` collapses every tree to its childless descendants. `from_vec` wraps each tree as `Single(root)` or `Family { base, leaves }`. `Table::pretty_name` turns a table identifier into a display name.
- **Query-filter encoding** (`src/api.rs`). This part covers the nine comparison operators `Comp<T>`, their wire tokens, and their JSON encoding as a `[token, operand]` pair. It also covers the column→comparison `Filter` and the endpoint/body that `Client::get` picks for a `Selection`.

Files:

- `common.dfy`: `Option`.
- `schema.dfy` (module `Schema`): the `Table`, `TableColumn` and `TableColumnForeignKey` records, the primary-key lookup, the base/child classification, and `pretty_name`.
- `hierarchy.dfy` (module `Hierarchy`): `extract_if`, `construct_leaves`, `into_trees`, `pop_outer_leaves` and `from_vec`.
- `query.dfy` (module `Query`): `Comp`, `operator`, `serialize`, `Filter`, `Selection` and the request choice.

How the model is built:

- `construct_leaves`, `into_trees` and `pop_outer_leaves` mutate a working list or a tree step by step. They are modelled as methods with loops, and each is proved equal to a specification function (`Grow`/`GrowAll`/`Forest`, `PopOuter`/`PopEach`). The resolver's properties are then proved as lemmas about those functions.
- The `&mut Vec<Table>` working list is passed in and handed back.
- `TableNode` is an owned Rust value that nothing else shares. So `pop_outer_leaves(&mut self)` returns the popped leaves together with the node as it is left.
- `Filter` wraps a `HashMap` that `insert` updates in place, so it is a class with a `map` field.
- The operand conversion `T → serde_json::Value` is a parameter `enc`. `Deserialize`/`DeserializeFilter` are reference readers of the wire format. They are not in the source: they serve as the inverse against which the encoding is proved lossless.

Two consequences of the code are worth stating:

- A table with no primary-key column is not a base (`src/table.rs:104-106`, `map_or(false, …)`) and never a child (`src/table.rs:83-84`). So it always ends up in the discarded leftover list (`KeylessTablesLeftOver`).
- Roots keep input order and children keep working-list order (`IntoTreesRoots`, `ChildrenInPoolOrder`).

Flattening drops intermediate nodes: a chain root ← mid ← leaf becomes `Family { base: root, leaves: [leaf] }` (`ChainCollapses`). This may not be what the authors wanted. The model reproduces it as written and does not treat it as a defect.

## Model

| member | source | states |
|---|---|---|
| `Schema.FirstPrimaryKey` | src/table.rs:104-105 | the primary-key column found is the first column flagged `primary_key`; `None` exactly when no column is flagged |
| `Schema.FirstKeyAtFacts` | src/table.rs:74-75 | the lookup finds a column exactly when some column is the first one flagged `primary_key`, and then it finds that column |
| `Schema.IsBase` | src/table.rs:103-107 | a table is a base exactly when its first primary-key column exists and has no foreign keys; a table with no such column is not a base |
| `Schema.IsChildOf` | src/table.rs:73-86 | a table is a child of `parent` exactly when its first primary-key column exists and one of that column's foreign keys names `parent`; `ChildOf` is this test as the closure handed to `extract_if` |
| `Schema.ClassificationNeedsKey` | src/table.rs:74-85 | both a base and a child need a primary-key column; a base is never a child; a table with no primary-key column is neither |
| `Schema.ReplaceUnderscores` | src/table.rs:30 | `replace('_', " ")` keeps the length and turns exactly the underscores into spaces |
| `Schema.Prettify` | src/table.rs:29-37 | same length; empty stays empty; the first character is the upper-cased, de-underscored first character; every later character only has `_` replaced by a space |
| `Schema.PrettyName` | src/table.rs:28-37 | the display name has the identifier's length and no underscore; its first character is the upper-cased first character, with `_` turned into a space; every later character is the identifier's, with `_` turned into a space |
| `Schema.PrettifyIdempotent` | src/table.rs:29-37 | a pretty name contains no underscore, and prettifying it again changes nothing |
| `Hierarchy.ExtractIf` | src/table.rs:102-108 | the loop returns exactly the matching tables in order and leaves the others in order |
| `Hierarchy.SiftPartition` | src/table.rs:102-108 | extraction splits the working list: lengths add up and the two parts together are a permutation of it |
| `Hierarchy.SiftMembers` | src/table.rs:72-87 | a table is extracted iff the closure holds of it |
| `Hierarchy.SiftSubseq` | src/table.rs:102-108 | extracted tables keep their relative order from the working list |
| `Hierarchy.Grow` | src/table.rs:70-98 | the working list never grows across a `construct_leaves` call, which is what makes the recursion terminate |
| `Hierarchy.GrowAll` | src/table.rs:90-97 | each extracted table becomes exactly one node, in extraction order |
| `Hierarchy.ConstructLeaves` | src/table.rs:70-98 | the recursive procedure returns the child nodes and the updated working list that the specification `Grow` defines |
| `Hierarchy.IntoTrees` | src/table.rs:100-121 | the procedure returns the trees and leftover list that the specification `Forest` defines |
| `Hierarchy.GrowConserves` | src/table.rs:70-98 | every table of the working list is either in the grown subtrees or still in the list, exactly as often as before |
| `Hierarchy.GrowAllConserves` | src/table.rs:90-97 | growing the extracted tables one after another loses and duplicates nothing |
| `Hierarchy.IntoTreesConserves` | src/table.rs:100-121 | every input table appears exactly once, either as a node of some tree or in the leftover list (multiset equality) |
| `Hierarchy.GrowLinked` | src/table.rs:72-96 | every child's first primary-key column has a foreign key naming its parent's `table`, at every depth |
| `Hierarchy.GrowAllLinked` | src/table.rs:90-97 | every node built from the extracted tables is linked to its children all the way down |
| `Hierarchy.ChildrenInPoolOrder` | src/table.rs:72-96 | the direct children of a node are exactly the working-list tables whose primary key names it, in working-list order |
| `Hierarchy.IntoTreesRoots` | src/table.rs:102-118 | the roots are exactly the base tables, in input order; a table is a root iff its first primary-key column exists and has no foreign keys; every tree is linked |
| `Hierarchy.FlattenKeyed` | src/table.rs:74-85 | in a linked forest with keyed roots, every table has a primary-key column |
| `Hierarchy.KeylessTablesLeftOver` | src/table.rs:104-106 | a table without a primary-key column lands in the leftover list as often as it occurs in the input |
| `Hierarchy.SiftSnoc` | src/table.rs:72-87 | extracting from a list with one more table adds that table to the matching side only |
| `Hierarchy.ChainSplits` | src/table.rs:102-108 | for A ← B ← C the base extraction takes `[A]` and leaves `[B, C]`; the children of A are `[B]`, leaving `[C]` |
| `Hierarchy.GrowOnly` | src/table.rs:70-98 | a lone child with nothing below it becomes a single childless node and empties the list |
| `Hierarchy.GrowAllOne` | src/table.rs:90-97 | one extracted table becomes one node whose children are grown from the list |
| `Hierarchy.ChainBuilds` | src/table.rs:100-121 | A ← B ← C builds the single tree A → B → C with nothing left over |
| `Hierarchy.PopOuterLeaves` | src/table.rs:123-146 | the procedure returns the popped leaves and the updated node that the specification `PopOuter` defines |
| `Hierarchy.PopEachFacts` | src/table.rs:129-143 | over the children: at least one leaf per child; the gathered leaves plus the terminal children are exactly the childless descendants |
| `Hierarchy.PopEachSplit` | src/table.rs:129-143 | over the children: the terminal part is the terminal children in child order; the kept children are the non-terminal ones in child order |
| `Hierarchy.PopOuterFacts` | src/table.rs:123-146 | `None` iff there are no children; the node's own table is unchanged; `Some(v)` has at least one entry per child and holds exactly the childless descendants |
| `Hierarchy.PopOuterLeavesSpec` | src/table.rs:123-146 | `None` iff no children (the node is then untouched); otherwise `v` is non-empty, is a permutation of the childless descendants (never the node, never an intermediate node), and ends with the terminal children in child order; terminal children are removed from `leaves` and the others kept in order |
| `Hierarchy.ChainCollapses` | src/table.rs:129-145 | root ← mid ← leaf pops to `[leaf]`: the intermediate `mid` is dropped |
| `Hierarchy.SiblingsKept` | src/table.rs:129-145 | a root with two childless children pops to both, in child order |
| `Hierarchy.Entries` | src/table.rs:50-59 | one entry per tree, the i-th entry built from the i-th tree |
| `Hierarchy.Entry` | src/table.rs:51-58 | the entry's base is the tree's root; it is `Single` exactly when the root has no children; a `Family` has at least one leaf per child and holds exactly the childless descendants |
| `Hierarchy.FromVec` | src/table.rs:47-60 | one entry per tree of `Forest`, so one per base table; entry i's base is the i-th base table in input order; the leftover list is discarded |
| `Hierarchy.FromVecShape` | src/table.rs:47-60 | one entry per base table, in input order, whose base is that table; `Single` iff the tree has no children; `Family` leaves are non-empty and are the childless descendants |
| `Hierarchy.FromVecDropsLeftover` | src/table.rs:47-60 | the tables in the entries plus the leftover list never exceed the input, so a leftover table never reaches the output |
| `Query.Operator` | src/api.rs:19-31 | the token of each variant is its entry in the list `<`, `>`, `<=`, `>=`, `==`, `!=`, `in`, `not_in`, `range` |
| `Query.OperatorDistinct` | src/api.rs:19-31 | two comparisons get the same token iff they are the same variant |
| `Query.Serialize` | src/api.rs:34-56 | a two-element array whose first element is the token; unary variants carry the converted operand; `In`/`Nin` carry an array of the converted operands of the same length and order; `Between` carries `[min, max]` as given |
| `Query.DecodeEncodeAll` | src/api.rs:48-49 | the converted operand list reads back as the original list, in order |
| `Query.SerializeRoundTrip` | src/api.rs:34-56 | a serialized comparison reads back as the same comparison whenever operands read back |
| `Query.SerializeInjective` | src/api.rs:34-56 | distinct comparisons never share an encoding |
| `Query.SerializeFilter` | src/api.rs:58-59 | the filter is sent as an object with the same columns, each mapped to its encoded comparison |
| `Query.FilterRoundTrip` | src/api.rs:58-59 | a serialized filter reads back as the same column→comparison map |
| `Query.InsertOnWire` | src/api.rs:66-68 | inserting into the filter changes exactly that column of its encoding |
| `Query.Filter.constructor` | src/api.rs:62-64 | a new filter constrains no column |
| `Query.Filter.Insert` | src/api.rs:66-68 | the column maps to the new comparison, overwriting any previous one; the other columns and their comparisons are unchanged; the filter's encoding changes in exactly that column, to the encoded new comparison, under any operand conversion |
| `Query.Digits` | src/api.rs:128 | the id is rendered as a non-empty string of decimal digits |
| `Query.Decimal` | src/api.rs:128 | the `{}` rendering of the id is non-empty; it starts with `-` exactly when the id is negative; every other character is a decimal digit (`DecimalRoundTrip` gives its value) |
| `Query.DigitsRoundTrip` | src/api.rs:128 | the rendered digits read back as the number |
| `Query.DecimalRoundTrip` | src/api.rs:128 | the rendered `i32` id, sign included, reads back as the id |
| `Query.BuildRequest` | src/api.rs:127-138 | `Id` selects `/api/item/{table}/{id}` with no body; `All` and `Filter` select `/api/items/{table}`, `All` with body `{}` and `Filter` with the serialized filter; there is a body iff the selection is not `Id` |
| `Query.AllIsEmptyFilter` | src/api.rs:134-137 | selecting all rows sends the same request as an empty filter |
| `Query.IdEndpointDistinct` | src/api.rs:127-130 | a by-id URL never equals an items URL, and the id can be read back from its end |

## Left out

- Unicode `to_uppercase` in `pretty_name` (`src/table.rs:33`). `Schema.Upper` upper-cases ASCII letters only; full Unicode case mapping can change the string's length.
- `Hierarchy.PopOuterLeaves`: `pop_outer_leaves` updates the node in place through `&mut self`. The model returns the updated node as a value. Rust ownership rules out any aliasing, so no observable behaviour is lost.
- `Hierarchy.ConstructLeaves`, `Hierarchy.IntoTrees`, `Hierarchy.ExtractIf`: the shared `&mut Vec<Table>` is passed in and returned as a sequence rather than mutated in place. The order and content of the elements are modelled; the vector's capacity is not.
- `Hierarchy.PopOuterLeavesSpec`, `Hierarchy.FromVecShape`: for `Family`, the leaves are stated as a permutation (multiset) of the childless descendants. The exact order is what `PopOuter` defines; the order of the terminal children is stated outright.
- `Hierarchy.FromVecDropsLeftover`: tables are values, so "never appears in the output" is stated by counting (multisets). Equal copies of a table cannot be told apart.
- The `Into<serde_json::Value>` conversion of the column value type is the parameter `enc`. `ColumnValue` and `TableDefinition` are not defined in `src/table.rs` (`src/api.rs:3` imports names from another revision). `ColumnValue` conversions, parsing and floating point are not part of this model.
- `Query.BuildRequest`: the body is modelled as a JSON value, not as text. `serde_json::to_string` rendering and its error path (`?` at `src/api.rs:137`) are not modelled, because serializing string-keyed objects does not fail.
- `Client`, `Client::new`, `response_text`, `tables` and the sending part of `Client::get` (`src/api.rs:87-178`): asynchronous HTTP I/O.
- Row decoding (`src/api.rs:153-175`): it needs `ColumnValue::try_from_value`, which is not part of this model, and it panics via `unreachable!()`/`unwrap()`.
- The `Error` enum (`src/api.rs:77-85`): a wrapper over foreign error types.
- `src/main.rs`: the iced user interface and its hard-coded HTTP fetches.
- The serde `Deserialize` derives on the schema records. The model starts from already-built `Table` values, and `ty`/`mapper` are carried but never interpreted.
- A by-identifier lookup on a `Single`/`Family` entry is not defined in `src/table.rs`, so it is not modelled.
