/**
 * The table schema records of `src/table.rs` (`TableColumnForeignKey`,
 * `TableColumn`, `Table`), the primary-key lookup that the hierarchy
 * resolver uses to classify tables, and `Table::pretty_name`.
 */
module Schema {
  import opened Common

  /** A reference from a column to a column of another table. */
  datatype TableColumnForeignKey = TableColumnForeignKey(table: string, column: string)

  /** One column of a table schema; `ty` and `mapper` are carried but never interpreted. */
  datatype TableColumn = TableColumn(
    name: string,
    ty: string,
    optional: bool,
    primaryKey: bool,
    foreignKeys: seq<TableColumnForeignKey>,
    mapper: Option<string>)

  /** A table schema: display name, table identifier and ordered columns. */
  datatype Table = Table(name: string, table: string, columns: seq<TableColumn>)

  /** The first column flagged as primary key, if any (`columns.iter().find(|c| c.primary_key)`). */
  function FirstPrimaryKey(columns: seq<TableColumn>): (r: Option<TableColumn>)
    ensures r.None? <==> forall i :: 0 <= i < |columns| ==> !columns[i].primaryKey
    ensures r.Some? ==> exists i :: 0 <= i < |columns| && columns[i] == r.value && columns[i].primaryKey
                                    && forall j :: 0 <= j < i ==> !columns[j].primaryKey
  {
    if columns == [] then None
    else if columns[0].primaryKey then Some(columns[0])
    else
      var r := FirstPrimaryKey(columns[1..]);
      assert r.Some? ==> exists i :: 1 <= i < |columns| && columns[i] == r.value && columns[i].primaryKey
                                     && forall j :: 0 <= j < i ==> !columns[j].primaryKey;
      r
  }

  function PrimaryKey(t: Table): Option<TableColumn>
  {
    FirstPrimaryKey(t.columns)
  }

  /** True when some foreign key of `keys` names the table `parent`. */
  predicate Names(keys: seq<TableColumnForeignKey>, parent: string)
  {
    exists i :: 0 <= i < |keys| && keys[i].table == parent
  }

  /** Column `i` is the first column flagged as primary key. */
  predicate FirstKeyAt(columns: seq<TableColumn>, i: int)
  {
    0 <= i < |columns| && columns[i].primaryKey && forall j :: 0 <= j < i ==> !columns[j].primaryKey
  }

  /** The lookup finds a column exactly when some column is the first key, and then finds that one. */
  lemma FirstKeyAtFacts(columns: seq<TableColumn>)
    ensures FirstPrimaryKey(columns).Some? <==> exists i :: FirstKeyAt(columns, i)
    ensures forall i :: FirstKeyAt(columns, i) ==> FirstPrimaryKey(columns) == Some(columns[i])
  {
    var r := FirstPrimaryKey(columns);
    if r.Some? {
      var k :| 0 <= k < |columns| && columns[k] == r.value && columns[k].primaryKey
               && forall j :: 0 <= j < k ==> !columns[j].primaryKey;
      assert FirstKeyAt(columns, k);
      forall i | FirstKeyAt(columns, i) ensures r == Some(columns[i]) {
        assert !(k < i) && !(i < k);
      }
    }
  }

  /**
   * A base table: its primary-key column exists and has no foreign keys.
   * A table without a primary-key column is not a base (`map_or(false, ..)`).
   */
  predicate IsBase(t: Table)
    ensures IsBase(t) <==> exists i :: FirstKeyAt(t.columns, i) && t.columns[i].foreignKeys == []
  {
    FirstKeyAtFacts(t.columns);
    match PrimaryKey(t)
    case None => false
    case Some(column) => column.foreignKeys == []
  }

  /**
   * A child of the table named `parent`: its primary-key column exists and one
   * of that column's foreign keys names `parent`. A table without a
   * primary-key column is never a child.
   */
  predicate IsChildOf(t: Table, parent: string)
    ensures IsChildOf(t, parent) <==>
      exists i :: FirstKeyAt(t.columns, i) && exists k :: 0 <= k < |t.columns[i].foreignKeys| && t.columns[i].foreignKeys[k].table == parent
  {
    FirstKeyAtFacts(t.columns);
    match PrimaryKey(t)
    case None => false
    case Some(column) => Names(column.foreignKeys, parent)
  }

  /** `IsChildOf` as the closure handed to `extract_if`. */
  function ChildOf(parent: string): Table -> bool
  {
    t => IsChildOf(t, parent)
  }

  /** Bases and children both need a primary-key column, and no base is anyone's child. */
  lemma ClassificationNeedsKey(t: Table, parent: string)
    ensures IsBase(t) ==> PrimaryKey(t).Some? && !IsChildOf(t, parent)
    ensures IsChildOf(t, parent) ==> PrimaryKey(t).Some? && !IsBase(t)
    ensures (forall i :: 0 <= i < |t.columns| ==> !t.columns[i].primaryKey) ==> !IsBase(t) && !IsChildOf(t, parent)
  {
  }

  // ---------------------------------------------------------------------------
  // pretty_name

  /** ASCII upper-casing of one character. */
  function Upper(c: char): (u: char)
    ensures 'a' <= c <= 'z' ==> 'A' <= u <= 'Z' && u as int == c as int - 32
    ensures !('a' <= c <= 'z') ==> u == c
  {
    if 'a' <= c <= 'z' then (c as int - 32) as char else c
  }

  /** `'_'` becomes `' '`; every other character stays. */
  function Unscore(c: char): char
  {
    if c == '_' then ' ' else c
  }

  /** `str::replace('_', " ")`. */
  function ReplaceUnderscores(s: string): (r: string)
    ensures |r| == |s|
    ensures forall i :: 0 <= i < |s| ==> r[i] == Unscore(s[i])
  {
    if s == [] then [] else [Unscore(s[0])] + ReplaceUnderscores(s[1..])
  }

  /** Underscores become spaces, then only the first character is upper-cased. */
  function Prettify(s: string): (r: string)
    ensures |r| == |s|
    ensures s == [] ==> r == []
    ensures s != [] ==> r[0] == Upper(Unscore(s[0]))
    ensures forall i :: 1 <= i < |s| ==> r[i] == Unscore(s[i])
  {
    var spaced := ReplaceUnderscores(s);
    if spaced == [] then [] else [Upper(spaced[0])] + spaced[1..]
  }

  /** `Table::pretty_name`: the table identifier made readable. */
  function PrettyName(t: Table): (r: string)
    ensures |r| == |t.table|
    ensures forall i :: 0 <= i < |r| ==> r[i] != '_'
    ensures t.table != [] ==> r[0] == Upper(Unscore(t.table[0]))
    ensures forall i :: 1 <= i < |r| ==> r[i] == Unscore(t.table[i])
  {
    Prettify(t.table)
  }

  /** A pretty name holds no underscore, and making it pretty again changes nothing. */
  lemma PrettifyIdempotent(s: string)
    ensures forall i :: 0 <= i < |Prettify(s)| ==> Prettify(s)[i] != '_'
    ensures Prettify(Prettify(s)) == Prettify(s)
  {
    var p := Prettify(s);
    var q := Prettify(p);
    assert |q| == |p|;
    forall i | 0 <= i < |p| ensures q[i] == p[i] {
      if i == 0 {
        assert Upper(Upper(Unscore(s[0]))) == Upper(Unscore(s[0]));
      }
    }
  }
}
