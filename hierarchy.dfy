/**
 * The schema hierarchy resolver of `src/table.rs`: base tables are pulled out
 * of a working list (`TableNode::into_trees`), each base grows a tree of the
 * tables whose primary key refers to it (`TableNode::construct_leaves`), every
 * tree is collapsed to its childless descendants
 * (`TableNode::pop_outer_leaves`), and `TableEntry::from_vec` turns each tree
 * into `Single` or `Family`.
 *
 * The working `Vec<Table>` that the source mutates through `&mut` is passed
 * into the methods and handed back updated. Each method is proved equal to a
 * specification function (`Sift`, `Grow`, `GrowAll`, `Forest`, `PopOuter`,
 * `PopEach`), and the properties of the resolver are lemmas about those.
 * The specification functions recurse on the LAST element of a sequence, so
 * that a loop that has processed `s[..i]` has computed exactly `F(s[..i])`.
 */
module Hierarchy {
  import opened Common
  import opened Schema

  // ---------------------------------------------------------------------------
  // Order-preserving extraction (`Vec::extract_if`)

  /** The elements of `s` on which `p` gives `keep`, in their order in `s`. */
  function Sift<T>(s: seq<T>, p: T -> bool, keep: bool): (r: seq<T>)
    ensures |r| <= |s|
  {
    if s == [] then []
    else
      var init := Sift(s[..|s| - 1], p, keep);
      if p(s[|s| - 1]) == keep then init + [s[|s| - 1]] else init
  }

  /** `a` is obtained from `b` by deleting elements (relative order is kept). */
  predicate Subseq<T(==)>(a: seq<T>, b: seq<T>)
    decreases |b|
  {
    if b == [] then a == []
    else
      (a != [] && a[|a| - 1] == b[|b| - 1] && Subseq(a[..|a| - 1], b[..|b| - 1]))
      || Subseq(a, b[..|b| - 1])
  }

  /** Extraction splits the list: nothing is lost and nothing is duplicated. */
  lemma {:induction false} SiftPartition<T>(s: seq<T>, p: T -> bool)
    ensures |Sift(s, p, true)| + |Sift(s, p, false)| == |s|
    ensures multiset(Sift(s, p, true)) + multiset(Sift(s, p, false)) == multiset(s)
  {
    if s != [] {
      SiftPartition(s[..|s| - 1], p);
      assert s == s[..|s| - 1] + [s[|s| - 1]];
    }
  }

  /** An element is extracted exactly when the predicate holds of it. */
  lemma {:induction false} SiftMembers<T>(s: seq<T>, p: T -> bool, keep: bool)
    ensures forall x :: x in Sift(s, p, keep) <==> x in s && p(x) == keep
  {
    if s != [] {
      SiftMembers(s[..|s| - 1], p, keep);
      assert s == s[..|s| - 1] + [s[|s| - 1]];
    }
  }

  /** Extraction keeps the relative order of the list. */
  lemma {:induction false} SiftSubseq<T>(s: seq<T>, p: T -> bool, keep: bool)
    ensures Subseq(Sift(s, p, keep), s)
  {
    if s != [] {
      var init := s[..|s| - 1];
      SiftSubseq(init, p, keep);
      var r := Sift(s, p, keep);
      if p(s[|s| - 1]) == keep {
        assert r[..|r| - 1] == Sift(init, p, keep);
      }
    }
  }

  /**
   * `Vec::extract_if` with a closure that only reads: the matching tables are
   * removed and returned in order, the others remain in order.
   */
  method ExtractIf(tables: seq<Table>, p: Table -> bool) returns (extracted: seq<Table>, remaining: seq<Table>)
    ensures extracted == Sift(tables, p, true)
    ensures remaining == Sift(tables, p, false)
  {
    extracted, remaining := [], [];
    var i := 0;
    while i < |tables|
      invariant 0 <= i <= |tables|
      invariant extracted == Sift(tables[..i], p, true)
      invariant remaining == Sift(tables[..i], p, false)
    {
      assert tables[..i + 1][..i] == tables[..i];
      if p(tables[i]) {
        extracted := extracted + [tables[i]];
      } else {
        remaining := remaining + [tables[i]];
      }
      i := i + 1;
    }
    assert tables[..i] == tables;
  }

  // ---------------------------------------------------------------------------
  // Trees

  /** `TableNode`: a table and the nodes of the tables that extend it. */
  datatype TableNode = TableNode(node: Table, leaves: seq<TableNode>)

  /** The tables at the roots of `ns`, in order. */
  function Tables(ns: seq<TableNode>): (r: seq<Table>)
    ensures |r| == |ns|
    ensures forall i :: 0 <= i < |ns| ==> r[i] == ns[i].node
  {
    if ns == [] then [] else Tables(ns[..|ns| - 1]) + [ns[|ns| - 1].node]
  }

  /** Every table of the forest `ns`, in pre-order. */
  function Flatten(ns: seq<TableNode>): seq<Table>
    decreases ns
  {
    if ns == [] then []
    else
      var last := ns[|ns| - 1];
      Flatten(ns[..|ns| - 1]) + [last.node] + Flatten(last.leaves)
  }

  /** Every child's primary key refers to its parent's table, all the way down. */
  ghost predicate Linked(n: TableNode)
    decreases n
  {
    forall i :: 0 <= i < |n.leaves| ==>
      IsChildOf(n.leaves[i].node, n.node.table) && Linked(n.leaves[i])
  }

  /** Multiset bookkeeping for one step of the conservation proofs. */
  lemma Regroup<T>(a: multiset<T>, b: multiset<T>, c: multiset<T>, d: multiset<T>, e: multiset<T>, f: multiset<T>, x: T)
    requires a + c == e + f
    requires b + d == c
    ensures (a + multiset{x} + b) + d == (e + multiset{x}) + f
  {
    forall z ensures ((a + multiset{x} + b) + d)[z] == ((e + multiset{x}) + f)[z] {
      assert (a + c)[z] == (e + f)[z];
      assert (b + d)[z] == c[z];
    }
  }

  lemma FlattenSnoc(ns: seq<TableNode>, n: TableNode)
    ensures Flatten(ns + [n]) == Flatten(ns) + [n.node] + Flatten(n.leaves)
  {
    assert (ns + [n])[..|ns|] == ns;
  }

  // ---------------------------------------------------------------------------
  // Building the forest: specification

  /**
   * `construct_leaves(parent, pool)`: the children of `parent` are extracted
   * from the pool, then each grows its own subtree, in order, from what is left.
   * Returns the child nodes and the final pool.
   */
  function Grow(parent: string, pool: seq<Table>): (r: (seq<TableNode>, seq<Table>))
    ensures |r.1| <= |pool|
    decreases |pool|, 1
  {
    SiftPartition(pool, ChildOf(parent));
    GrowAll(Sift(pool, ChildOf(parent), true), Sift(pool, ChildOf(parent), false))
  }

  /**
   * The `map` over the extracted tables: each table of `found` becomes a node
   * whose subtree is grown from the pool left by the nodes before it.
   */
  function GrowAll(found: seq<Table>, pool: seq<Table>): (r: (seq<TableNode>, seq<Table>))
    ensures |r.1| <= |pool|
    ensures Tables(r.0) == found
    decreases |pool| + |found|, 0
  {
    if found == [] then ([], pool)
    else
      var last := found[|found| - 1];
      var before := GrowAll(found[..|found| - 1], pool);
      var grown := Grow(last.table, before.1);
      var node := TableNode(last, grown.0);
      assert (before.0 + [node])[..|before.0|] == before.0;
      (before.0 + [node], grown.1)
  }

  /** `into_trees`: the trees grown from the base tables, and the tables left over. */
  function Forest(tables: seq<Table>): (seq<TableNode>, seq<Table>)
  {
    GrowAll(Sift(tables, IsBase, true), Sift(tables, IsBase, false))
  }

  // ---------------------------------------------------------------------------
  // Building the forest: the source's procedures

  /** One more extracted table grown: the next node and the list it leaves. */
  lemma GrowAllStep(found: seq<Table>, i: nat, pool: seq<Table>)
    requires i < |found|
    ensures var before := GrowAll(found[..i], pool);
            var grown := Grow(found[i].table, before.1);
            GrowAll(found[..i + 1], pool) == (before.0 + [TableNode(found[i], grown.0)], grown.1)
  {
    assert found[..i + 1][..i] == found[..i];
  }

  /** `TableNode::construct_leaves`: returns the child nodes of `node` and the updated working list. */
  method ConstructLeaves(node: Table, tables: seq<Table>) returns (leaves: seq<TableNode>, remaining: seq<Table>)
    ensures (leaves, remaining) == Grow(node.table, tables)
    decreases |tables|
  {
    var found, rest := ExtractIf(tables, ChildOf(node.table));
    SiftPartition(tables, ChildOf(node.table));
    leaves, remaining := [], rest;
    var i := 0;
    while i < |found|
      invariant 0 <= i <= |found|
      invariant (leaves, remaining) == GrowAll(found[..i], rest)
    {
      GrowAllStep(found, i, rest);
      var sub;
      sub, remaining := ConstructLeaves(found[i], remaining);
      leaves := leaves + [TableNode(found[i], sub)];
      i := i + 1;
    }
    assert found[..i] == found;
  }

  /** `TableNode::into_trees`: one tree per base table, and the tables no tree took. */
  method IntoTrees(tables: seq<Table>) returns (trees: seq<TableNode>, leftover: seq<Table>)
    ensures (trees, leftover) == Forest(tables)
  {
    var bases, rest := ExtractIf(tables, IsBase);
    trees, leftover := [], rest;
    var i := 0;
    while i < |bases|
      invariant 0 <= i <= |bases|
      invariant (trees, leftover) == GrowAll(bases[..i], rest)
    {
      GrowAllStep(bases, i, rest);
      var sub;
      sub, leftover := ConstructLeaves(bases[i], leftover);
      trees := trees + [TableNode(bases[i], sub)];
      i := i + 1;
    }
    assert bases[..i] == bases;
  }

  // ---------------------------------------------------------------------------
  // Building the forest: properties

  lemma {:induction false} GrowConserves(parent: string, pool: seq<Table>)
    ensures multiset(Flatten(Grow(parent, pool).0)) + multiset(Grow(parent, pool).1) == multiset(pool)
    decreases |pool|, 1
  {
    SiftPartition(pool, ChildOf(parent));
    GrowAllConserves(Sift(pool, ChildOf(parent), true), Sift(pool, ChildOf(parent), false));
  }

  lemma {:induction false} GrowAllConserves(found: seq<Table>, pool: seq<Table>)
    ensures multiset(Flatten(GrowAll(found, pool).0)) + multiset(GrowAll(found, pool).1)
            == multiset(found) + multiset(pool)
    decreases |pool| + |found|, 0
  {
    if found != [] {
      var last := found[|found| - 1];
      var before := GrowAll(found[..|found| - 1], pool);
      GrowAllConserves(found[..|found| - 1], pool);
      var grown := Grow(last.table, before.1);
      GrowConserves(last.table, before.1);
      var r := GrowAll(found, pool);
      assert r == (before.0 + [TableNode(last, grown.0)], grown.1);
      FlattenSnoc(before.0, TableNode(last, grown.0));
      var fb, fg := Flatten(before.0), Flatten(grown.0);
      assert multiset(Flatten(r.0)) == multiset(fb) + multiset{last} + multiset(fg);
      var init := found[..|found| - 1];
      assert found == init + [last];
      Regroup(multiset(fb), multiset(fg), multiset(before.1), multiset(grown.1), multiset(init), multiset(pool), last);
    }
  }

  /**
   * `into_trees` conserves tables: every input table is a node of exactly one
   * tree or is in the leftover list, as often as it occurs in the input.
   */
  lemma IntoTreesConserves(tables: seq<Table>)
    ensures multiset(Flatten(Forest(tables).0)) + multiset(Forest(tables).1) == multiset(tables)
  {
    SiftPartition(tables, IsBase);
    GrowAllConserves(Sift(tables, IsBase, true), Sift(tables, IsBase, false));
  }

  lemma {:induction false} GrowLinked(parent: string, pool: seq<Table>)
    ensures forall i :: 0 <= i < |Grow(parent, pool).0| ==>
      IsChildOf(Grow(parent, pool).0[i].node, parent) && Linked(Grow(parent, pool).0[i])
    decreases |pool|, 1
  {
    var found := Sift(pool, ChildOf(parent), true);
    SiftPartition(pool, ChildOf(parent));
    SiftMembers(pool, ChildOf(parent), true);
    GrowAllLinked(found, Sift(pool, ChildOf(parent), false));
    var r := Grow(parent, pool);
    forall i | 0 <= i < |r.0| ensures IsChildOf(r.0[i].node, parent) {
      assert r.0[i].node == Tables(r.0)[i] == found[i];
      assert ChildOf(parent)(found[i]);
    }
  }

  lemma {:induction false} GrowAllLinked(found: seq<Table>, pool: seq<Table>)
    ensures forall i :: 0 <= i < |GrowAll(found, pool).0| ==> Linked(GrowAll(found, pool).0[i])
    decreases |pool| + |found|, 0
  {
    if found != [] {
      var last := found[|found| - 1];
      var before := GrowAll(found[..|found| - 1], pool);
      GrowAllLinked(found[..|found| - 1], pool);
      GrowLinked(last.table, before.1);
      var grown := Grow(last.table, before.1);
      assert Linked(TableNode(last, grown.0));
    }
  }

  /**
   * The direct children grown under `parent` are exactly the tables of the
   * working list whose primary key names `parent`, in working-list order.
   */
  lemma ChildrenInPoolOrder(parent: string, pool: seq<Table>)
    ensures Tables(Grow(parent, pool).0) == Sift(pool, ChildOf(parent), true)
    ensures Subseq(Tables(Grow(parent, pool).0), pool)
    ensures forall t :: t in Tables(Grow(parent, pool).0) <==> t in pool && IsChildOf(t, parent)
  {
    SiftSubseq(pool, ChildOf(parent), true);
    SiftMembers(pool, ChildOf(parent), true);
  }

  /**
   * The roots are exactly the base tables, in input order: a table is a root
   * iff its primary-key column exists and has no foreign keys. Every tree is
   * linked: each child's primary key refers to its parent.
   */
  lemma IntoTreesRoots(tables: seq<Table>)
    ensures Tables(Forest(tables).0) == Sift(tables, IsBase, true)
    ensures Subseq(Tables(Forest(tables).0), tables)
    ensures forall t :: t in Tables(Forest(tables).0) <==> t in tables && IsBase(t)
    ensures forall i :: 0 <= i < |Forest(tables).0| ==> Linked(Forest(tables).0[i])
  {
    SiftSubseq(tables, IsBase, true);
    SiftMembers(tables, IsBase, true);
    GrowAllLinked(Sift(tables, IsBase, true), Sift(tables, IsBase, false));
  }

  /** In a linked forest whose roots have a primary key, every table has one. */
  lemma {:induction false} FlattenKeyed(ns: seq<TableNode>)
    requires forall i :: 0 <= i < |ns| ==> Linked(ns[i]) && PrimaryKey(ns[i].node).Some?
    ensures forall t :: t in Flatten(ns) ==> PrimaryKey(t).Some?
    decreases ns
  {
    if ns != [] {
      var last := ns[|ns| - 1];
      FlattenKeyed(ns[..|ns| - 1]);
      forall i | 0 <= i < |last.leaves|
        ensures Linked(last.leaves[i]) && PrimaryKey(last.leaves[i].node).Some?
      {
        ClassificationNeedsKey(last.leaves[i].node, last.node.table);
      }
      FlattenKeyed(last.leaves);
    }
  }

  /**
   * A table without a primary-key column is never a root and never a child:
   * every copy of it in the input ends up in the leftover list.
   */
  lemma KeylessTablesLeftOver(tables: seq<Table>, t: Table)
    requires PrimaryKey(t).None?
    ensures multiset(Forest(tables).1)[t] == multiset(tables)[t]
  {
    var trees := Forest(tables).0;
    IntoTreesRoots(tables);
    IntoTreesConserves(tables);
    forall i | 0 <= i < |trees| ensures Linked(trees[i]) && PrimaryKey(trees[i].node).Some? {
      assert trees[i].node in Tables(trees);
      ClassificationNeedsKey(trees[i].node, "");
    }
    FlattenKeyed(trees);
    assert t !in Flatten(trees);
  }

  lemma SiftSnoc<T>(s: seq<T>, x: T, p: T -> bool, keep: bool)
    ensures Sift(s + [x], p, keep) == Sift(s, p, keep) + (if p(x) == keep then [x] else [])
  {
    assert (s + [x])[..|s|] == s;
  }

  lemma ChainSplits(a: Table, b: Table, c: Table)
    requires IsBase(a) && !IsBase(b) && !IsBase(c)
    requires IsChildOf(b, a.table) && !IsChildOf(c, a.table)
    ensures Sift([a, b, c], IsBase, true) == [a] && Sift([a, b, c], IsBase, false) == [b, c]
    ensures Sift([b, c], ChildOf(a.table), true) == [b] && Sift([b, c], ChildOf(a.table), false) == [c]
  {
    SiftSnoc([], a, IsBase, true);
    SiftSnoc([], a, IsBase, false);
    SiftSnoc([a], b, IsBase, true);
    SiftSnoc([a], b, IsBase, false);
    SiftSnoc([a, b], c, IsBase, true);
    SiftSnoc([a, b], c, IsBase, false);
    assert [a, b] + [c] == [a, b, c];
    SiftSnoc([], b, ChildOf(a.table), true);
    SiftSnoc([], b, ChildOf(a.table), false);
    SiftSnoc([b], c, ChildOf(a.table), true);
    SiftSnoc([b], c, ChildOf(a.table), false);
    assert [b] + [c] == [b, c];
  }

  /** A table with no children of its own becomes a single-node subtree. */
  lemma GrowOnly(parent: string, t: Table)
    requires IsChildOf(t, parent)
    ensures Grow(parent, [t]) == ([TableNode(t, [])], [])
  {
    SiftSnoc([], t, ChildOf(parent), true);
    SiftSnoc([], t, ChildOf(parent), false);
    assert [] + [t] == [t] && [t][..0] == [];
    var none := Grow(t.table, []);
    assert none.0 == [] && none.1 == [];
    assert GrowAll([t], []).0 == [TableNode(t, none.0)] && GrowAll([t], []).1 == none.1;
  }

  /** Growing a single table whose own subtree is already known. */
  lemma GrowAllOne(t: Table, pool: seq<Table>)
    ensures GrowAll([t], pool) == ([TableNode(t, Grow(t.table, pool).0)], Grow(t.table, pool).1)
  {
    assert [t][..0] == [];
  }

  /**
   * A chain A ← B ← C, where B's primary key refers to A and C's to B, builds
   * one tree rooted at A whose child is B, whose child is C; nothing is left over.
   */
  lemma ChainBuilds(a: Table, b: Table, c: Table)
    requires IsBase(a) && !IsBase(b) && !IsBase(c)
    requires IsChildOf(b, a.table) && !IsChildOf(c, a.table) && IsChildOf(c, b.table)
    ensures Forest([a, b, c]) == ([TableNode(a, [TableNode(b, [TableNode(c, [])])])], [])
  {
    ChainSplits(a, b, c);
    GrowOnly(b.table, c);
    GrowAllOne(b, [c]);
    GrowAllOne(a, [b, c]);
  }

  // ---------------------------------------------------------------------------
  // Collapsing a tree: specification

  predicate Terminal(n: TableNode)
  {
    n.leaves == []
  }

  /**
   * `pop_outer_leaves`: `None` for a childless node; otherwise the outer leaves
   * popped from the non-terminal children, followed by the terminal children's
   * tables, together with the node left behind (terminal children removed,
   * the others popped in turn).
   */
  function PopOuter(tree: TableNode): (Option<seq<Table>>, TableNode)
    decreases tree, 1
  {
    if tree.leaves == [] then (None, tree)
    else
      var (gathered, kept, terminal) := PopEach(tree.leaves);
      (Some(gathered + terminal), TableNode(tree.node, kept))
  }

  /**
   * The `extract_if` over the children in `pop_outer_leaves`: the leaves
   * gathered from non-terminal children, those children after popping, and
   * the tables of the terminal children.
   */
  function PopEach(children: seq<TableNode>): (seq<Table>, seq<TableNode>, seq<Table>)
    decreases children, 0
  {
    if children == [] then ([], [], [])
    else
      var (gathered, kept, terminal) := PopEach(children[..|children| - 1]);
      var last := children[|children| - 1];
      var (popped, updated) := PopOuter(last);
      match popped
      case Some(leaves) => (gathered + leaves, kept + [updated], terminal)
      case None => (gathered, kept, terminal + [last.node])
  }

  /** The childless descendants of `tree` (the tree itself when it has no children). */
  function Fringe(tree: TableNode): seq<Table>
    decreases tree, 1
  {
    if tree.leaves == [] then [tree.node] else FringeAll(tree.leaves)
  }

  function FringeAll(trees: seq<TableNode>): seq<Table>
    decreases trees, 0
  {
    if trees == [] then [] else FringeAll(trees[..|trees| - 1]) + Fringe(trees[|trees| - 1])
  }

  // ---------------------------------------------------------------------------
  // Collapsing a tree: the source's procedure

  /** `TableNode::pop_outer_leaves`: the popped leaves and the node as it is left. */
  method PopOuterLeaves(tree: TableNode) returns (popped: Option<seq<Table>>, updated: TableNode)
    ensures (popped, updated) == PopOuter(tree)
    decreases tree
  {
    if tree.leaves == [] {
      return None, tree;
    }
    var childLeaves: seq<Table> := [];
    var kept: seq<TableNode> := [];
    var emptyLeaves: seq<Table> := [];
    var i := 0;
    while i < |tree.leaves|
      invariant 0 <= i <= |tree.leaves|
      invariant (childLeaves, kept, emptyLeaves) == PopEach(tree.leaves[..i])
    {
      assert tree.leaves[..i + 1][..i] == tree.leaves[..i];
      var leaf := tree.leaves[i];
      var leafPopped, leafUpdated := PopOuterLeaves(leaf);
      match leafPopped {
        case Some(leaves) =>
          childLeaves := childLeaves + leaves;
          kept := kept + [leafUpdated];
        case None =>
          emptyLeaves := emptyLeaves + [leaf.node];
      }
      i := i + 1;
    }
    assert tree.leaves[..i] == tree.leaves;
    childLeaves := childLeaves + emptyLeaves;
    return Some(childLeaves), TableNode(tree.node, kept);
  }

  // ---------------------------------------------------------------------------
  // Collapsing a tree: properties

  lemma {:induction false} PopEachFacts(children: seq<TableNode>)
    ensures |PopEach(children).0| + |PopEach(children).2| >= |children|
    ensures multiset(PopEach(children).0) + multiset(PopEach(children).2) == multiset(FringeAll(children))
    decreases children, 0
  {
    if children != [] {
      PopEachFacts(children[..|children| - 1]);
      PopOuterFacts(children[|children| - 1]);
    }
  }

  /** The terminal part is the terminal children in order; the kept tables are the others in order. */
  lemma {:induction false} PopEachSplit(children: seq<TableNode>)
    ensures PopEach(children).2 == Tables(Sift(children, Terminal, true))
    ensures Tables(PopEach(children).1) == Tables(Sift(children, Terminal, false))
  {
    if children != [] {
      var init := children[..|children| - 1];
      var last := children[|children| - 1];
      PopEachSplit(init);
      var (gathered, kept, terminal) := PopEach(init);
      var (popped, updated) := PopOuter(last);
      if popped.Some? {
        assert updated.node == last.node;
        assert (kept + [updated])[..|kept|] == kept;
        assert Tables(kept + [updated]) == Tables(kept) + [updated.node];
      } else {
        var s := Sift(init, Terminal, true);
        assert (s + [last])[..|s|] == s;
        assert Tables(s + [last]) == Tables(s) + [last.node];
      }
    }
  }

  lemma {:induction false} PopOuterFacts(tree: TableNode)
    ensures PopOuter(tree).0.None? <==> tree.leaves == []
    ensures PopOuter(tree).1.node == tree.node
    ensures PopOuter(tree).0.Some? ==>
      |PopOuter(tree).0.value| >= |tree.leaves| > 0 &&
      multiset(PopOuter(tree).0.value) == multiset(Fringe(tree))
    decreases tree, 1
  {
    if tree.leaves != [] {
      PopEachFacts(tree.leaves);
    }
  }

  /**
   * `pop_outer_leaves` returns `None` iff the node has no children. Otherwise
   * it returns a non-empty list holding exactly the childless descendants of
   * the node (never the node itself, never an intermediate node), ending with
   * the terminal children in child order; the terminal children are removed
   * from the node and its other children are kept in order.
   */
  lemma PopOuterLeavesSpec(tree: TableNode)
    ensures PopOuter(tree).0.None? <==> tree.leaves == []
    ensures PopOuter(tree).0.None? ==> PopOuter(tree).1 == tree
    ensures PopOuter(tree).0.Some? ==>
      var leaves := PopOuter(tree).0.value;
      var terminal := Tables(Sift(tree.leaves, Terminal, true));
      |leaves| > 0 &&
      multiset(leaves) == multiset(FringeAll(tree.leaves)) &&
      |terminal| <= |leaves| &&
      leaves[|leaves| - |terminal|..] == terminal
    ensures PopOuter(tree).1.node == tree.node
    ensures Tables(PopOuter(tree).1.leaves) ==
      (if tree.leaves == [] then [] else Tables(Sift(tree.leaves, Terminal, false)))
  {
    PopOuterFacts(tree);
    if tree.leaves != [] {
      PopEachFacts(tree.leaves);
      PopEachSplit(tree.leaves);
      var (gathered, kept, terminal) := PopEach(tree.leaves);
      var leaves := gathered + terminal;
      assert leaves[|leaves| - |terminal|..] == terminal;
    }
  }

  /** A chain root ← mid ← leaf collapses to the deepest table: `mid` is dropped. */
  lemma ChainCollapses(root: Table, mid: Table, leaf: Table)
    ensures PopOuter(TableNode(root, [TableNode(mid, [TableNode(leaf, [])])])).0 == Some([leaf])
  {
    var c := TableNode(leaf, []);
    var cs := [c];
    assert cs[..|cs| - 1] == [];
    assert PopOuter(c).0 == None;
    assert PopEach(cs).0 == [] && PopEach(cs).2 == [leaf];
    var m := TableNode(mid, cs);
    var ms := [m];
    assert ms[..|ms| - 1] == [];
    assert PopOuter(m).0 == Some([leaf]);
    assert PopEach(ms).0 == [leaf] && PopEach(ms).2 == [];
    var t := TableNode(root, ms);
    assert PopOuter(t).0 == Some(PopEach(ms).0 + PopEach(ms).2);
    assert PopEach(ms).0 + PopEach(ms).2 == [leaf];
  }

  /** A root whose two children have no children of their own keeps both, in order. */
  lemma SiblingsKept(root: Table, left: Table, right: Table)
    ensures PopOuter(TableNode(root, [TableNode(left, []), TableNode(right, [])])).0 == Some([left, right])
  {
    var l, r := TableNode(left, []), TableNode(right, []);
    var lr := [l, r];
    assert lr[..1] == [l] && [l][..0] == [];
    assert PopOuter(l).0 == None && PopOuter(r).0 == None;
    assert PopEach([l]).0 == [] && PopEach([l]).2 == [left];
    assert PopEach(lr).0 == [] && PopEach(lr).2 == [left, right];
    var t := TableNode(root, lr);
    assert PopOuter(t).0 == Some(PopEach(lr).0 + PopEach(lr).2);
    assert PopEach(lr).0 + PopEach(lr).2 == [left, right];
  }

  // ---------------------------------------------------------------------------
  // From trees to table entries

  /** The `Single`/`Family` shape handed to callers. */
  datatype TableEntry = Single(table: Table) | Family(base: Table, leaves: seq<Table>)
  {
    function Base(): Table
    {
      match this
      case Single(t) => t
      case Family(b, _) => b
    }

    /** Every table the entry mentions: the base followed by the leaves. */
    function Members(): seq<Table>
    {
      match this
      case Single(t) => [t]
      case Family(b, ls) => [b] + ls
    }
  }

  /** The closure of `from_vec`: pop the tree and wrap its root. */
  function Entry(tree: TableNode): (e: TableEntry)
    ensures e.Base() == tree.node
    ensures e.Single? <==> tree.leaves == []
    ensures e.Family? ==> |e.leaves| >= |tree.leaves| > 0 && multiset(e.leaves) == multiset(FringeAll(tree.leaves))
  {
    PopOuterFacts(tree);
    match PopOuter(tree).0
    case Some(leaves) => Family(tree.node, leaves)
    case None => Single(tree.node)
  }

  function Entries(trees: seq<TableNode>): (r: seq<TableEntry>)
    ensures |r| == |trees|
    ensures forall i :: 0 <= i < |trees| ==> r[i] == Entry(trees[i])
  {
    if trees == [] then [] else Entries(trees[..|trees| - 1]) + [Entry(trees[|trees| - 1])]
  }

  /** `TableEntry::from_vec`: one entry per tree; the leftover list is discarded. */
  function FromVec(tables: seq<Table>): (r: seq<TableEntry>)
    ensures |r| == |Sift(tables, IsBase, true)|
    ensures forall i :: 0 <= i < |r| ==> r[i].Base() == Sift(tables, IsBase, true)[i]
  {
    var trees := Forest(tables).0;
    assert forall i :: 0 <= i < |trees| ==> Tables(trees)[i] == trees[i].node;
    Entries(trees)
  }

  /** Every table the entries mention, entry by entry. */
  function EntryMembers(entries: seq<TableEntry>): seq<Table>
  {
    if entries == [] then []
    else EntryMembers(entries[..|entries| - 1]) + entries[|entries| - 1].Members()
  }

  /**
   * `from_vec` gives one entry per base table, in input order; the entry is
   * `Single` iff its tree has no children, and otherwise a `Family` whose
   * base is the root and whose leaves are the tree's childless descendants.
   */
  lemma FromVecShape(tables: seq<Table>)
    ensures |FromVec(tables)| == |Sift(tables, IsBase, true)|
    ensures forall i :: 0 <= i < |FromVec(tables)| ==>
      FromVec(tables)[i].Base() == Sift(tables, IsBase, true)[i] && IsBase(FromVec(tables)[i].Base())
    ensures forall i :: 0 <= i < |FromVec(tables)| ==>
      (FromVec(tables)[i].Single? <==> Forest(tables).0[i].leaves == [])
    ensures forall i :: 0 <= i < |FromVec(tables)| && FromVec(tables)[i].Family? ==>
      |FromVec(tables)[i].leaves| > 0 &&
      multiset(FromVec(tables)[i].leaves) == multiset(FringeAll(Forest(tables).0[i].leaves))
  {
    var trees := Forest(tables).0;
    IntoTreesRoots(tables);
    SiftMembers(tables, IsBase, true);
    forall i | 0 <= i < |trees|
      ensures FromVec(tables)[i].Base() == Sift(tables, IsBase, true)[i]
      ensures IsBase(FromVec(tables)[i].Base())
      ensures FromVec(tables)[i].Single? <==> trees[i].leaves == []
      ensures FromVec(tables)[i].Family? ==>
        |FromVec(tables)[i].leaves| > 0 &&
        multiset(FromVec(tables)[i].leaves) == multiset(FringeAll(trees[i].leaves))
    {
      PopOuterFacts(trees[i]);
      assert trees[i].node == Tables(trees)[i];
      assert trees[i].node in Tables(trees);
    }
  }

  lemma {:induction false} FringeWithin(tree: TableNode)
    ensures multiset(Fringe(tree)) <= multiset([tree.node] + Flatten(tree.leaves))
    decreases tree, 1
  {
    if tree.leaves != [] {
      FringeAllWithin(tree.leaves);
    }
  }

  lemma {:induction false} FringeAllWithin(trees: seq<TableNode>)
    ensures multiset(FringeAll(trees)) <= multiset(Flatten(trees))
    decreases trees, 0
  {
    if trees != [] {
      FringeAllWithin(trees[..|trees| - 1]);
      FringeWithin(trees[|trees| - 1]);
    }
  }

  lemma {:induction false} EntriesWithin(trees: seq<TableNode>)
    ensures multiset(EntryMembers(Entries(trees))) <= multiset(Flatten(trees))
  {
    if trees != [] {
      var init := trees[..|trees| - 1];
      var last := trees[|trees| - 1];
      EntriesWithin(init);
      PopOuterFacts(last);
      var es := Entries(trees);
      assert es[..|es| - 1] == Entries(init);
      if last.leaves != [] {
        FringeAllWithin(last.leaves);
      }
      assert multiset(Entry(last).Members()) <= multiset([last.node] + Flatten(last.leaves));
    }
  }

  /**
   * The leftover tables never reach the output: the tables the entries
   * mention, together with the leftover list, are drawn from the input
   * without repetition.
   */
  lemma FromVecDropsLeftover(tables: seq<Table>)
    ensures multiset(EntryMembers(FromVec(tables))) + multiset(Forest(tables).1) <= multiset(tables)
  {
    EntriesWithin(Forest(tables).0);
    IntoTreesConserves(tables);
  }
}
