/** The test runner dock: it mirrors the test tree in a tree widget, keeps a
    side table from each test to its widget row, and relabels rows as results
    come in. A row is identified by its index in the widget's list of rows,
    and holds its parent row, its text and the state that picks its icon
    colour. */
module EditorWidget {
  import opened TestTrees
  import opened TestStates
  import opened Filters
  import opened Runners
  import opened DockViews

  /** One row of the result tree widget. `icon` is None until the row is first
      labelled. */
  datatype TreeItem = TreeItem(parent: Option<nat>, text: string, icon: Option<TestState>)

  /** Every mapped test is a test of the tree and its row exists. */
  ghost predicate RowsInRange(tree: Tree, treeItems: map<nat, nat>, items: seq<TreeItem>) {
    forall k | k in treeItems :: k < |tree| && treeItems[k] < |items|
  }

  /** The side table points into the widget and mirrors the test tree: every
      mapped test's parent is mapped and its row's parent row is its parent's
      row. `owners` names the test each row was created for; it shows that no
      two tests share a row and that every row belongs to a mapped test, so
      the widget holds exactly one row per mapped test and no other row. */
  ghost predicate ItemsValid(tree: Tree, treeItems: map<nat, nat>, items: seq<TreeItem>, owners: seq<nat>) {
    && RowsInRange(tree, treeItems, items)
    && |owners| == |items|
    && (forall k | k in treeItems :: owners[treeItems[k]] == k)
    && (forall i | 0 <= i < |items| :: owners[i] in treeItems && treeItems[owners[i]] == i)
    && (forall k {:trigger items[treeItems[k]]} | k in treeItems && tree[k].parent.None? ::
          items[treeItems[k]].parent == None)
    && (forall k | k in treeItems && tree[k].parent.Some? :: tree[k].parent.value in treeItems)
    && (forall k {:trigger items[treeItems[k]]} | k in treeItems && tree[k].parent.Some? ::
          items[treeItems[k]].parent == Some(treeItems[tree[k].parent.value]))
  }

  /** No two tests share a row. */
  lemma RowsDistinct(tree: Tree, treeItems: map<nat, nat>, items: seq<TreeItem>, owners: seq<nat>, k1: nat, k2: nat)
    requires ItemsValid(tree, treeItems, items, owners) && k1 in treeItems && k2 in treeItems
    ensures treeItems[k1] == treeItems[k2] ==> k1 == k2
  {
  }

  /** Giving an unmapped test a new row under its parent's row keeps the
      side table valid. */
  lemma AddRowKeepsValid(tree: Tree, treeItems: map<nat, nat>, items: seq<TreeItem>, owners: seq<nat>,
                         t: nat, parentItem: Option<nat>)
    requires ItemsValid(tree, treeItems, items, owners) && t < |tree| && t !in treeItems
    requires tree[t].parent.None? ==> parentItem == None
    requires tree[t].parent.Some? ==>
               tree[t].parent.value in treeItems && parentItem == Some(treeItems[tree[t].parent.value])
    ensures ItemsValid(tree, treeItems[t := |items|], items + [TreeItem(parentItem, "", None)], owners + [t])
  {
    var ti := treeItems[t := |items|];
    var its := items + [TreeItem(parentItem, "", None)];
    forall k | k in ti ensures its[ti[k]].parent == (if k == t then parentItem else items[treeItems[k]].parent) {
    }
  }

  /** A set of tests that contains the parent of each of its members. */
  ghost predicate ParentClosed(tree: Tree, mapped: set<nat>)
    requires WellFormed(tree)
  {
    forall k | k in mapped :: k < |tree| && (Parent(tree, k).Some? ==> Parent(tree, k).value in mapped)
  }

  /** A row shows the current label and state of test `k`. */
  ghost predicate Shows(tree: Tree, store: Store, item: TreeItem, k: nat)
    requires WellFormed(tree) && k < |tree|
  {
    item.text == Label(tree, store, k) && item.icon == Some(State(tree, store, k))
  }

  /** Every mapped test's row is up to date. */
  ghost predicate Synced(tree: Tree, store: Store, treeItems: map<nat, nat>, items: seq<TreeItem>)
    requires WellFormed(tree) && RowsInRange(tree, treeItems, items)
  {
    forall k | k in treeItems :: Shows(tree, store, items[treeItems[k]], k)
  }

  /** The tests `UpdateTestTreeItem(t)` relabels, in the order it relabels
      them: `t`, then each ancestor in turn, stopping at the root or before
      the first unmapped test. */
  function RelabelChain(tree: Tree, mapped: set<nat>, t: nat): seq<nat>
    requires WellFormed(tree) && t < |tree|
    decreases Depth(tree, t)
  {
    if t !in mapped then []
    else match Parent(tree, t)
      case None => [t]
      case Some(p) => [t] + RelabelChain(tree, mapped, p)
  }

  /** The rows of the tests in `ks`. */
  ghost function ItemsOf(treeItems: map<nat, nat>, ks: seq<nat>): set<nat> {
    set k | k in ks && k in treeItems :: treeItems[k]
  }

  /** A row left untouched by index is left untouched for its test: when
      only the rows of the tests in `ks` may differ, every other mapped test
      keeps its row content. */
  lemma OffChainRowsKept(tree: Tree, treeItems: map<nat, nat>, items: seq<TreeItem>, owners: seq<nat>,
                         before: seq<TreeItem>, ks: seq<nat>)
    requires ItemsValid(tree, treeItems, items, owners) && |before| == |items|
    requires forall i | 0 <= i < |items| && i !in ItemsOf(treeItems, ks) :: items[i] == before[i]
    ensures forall k | k in treeItems && k !in ks :: items[treeItems[k]] == before[treeItems[k]]
  {
    forall k | k in treeItems && k !in ks ensures treeItems[k] !in ItemsOf(treeItems, ks) {
      forall x | x in ks && x in treeItems ensures treeItems[x] != treeItems[k] {
        assert owners[treeItems[x]] == x;
      }
    }
  }

  /** The chain holds only mapped ancestors-or-self of `t`, and holds `t`
      when `t` is mapped. */
  lemma {:induction false} ChainIsAncestors(tree: Tree, mapped: set<nat>, t: nat)
    requires WellFormed(tree) && t < |tree|
    ensures forall x | x in RelabelChain(tree, mapped, t) ::
              x in mapped && x <= t && IsDescendantOf(tree, x, t)
    ensures t in mapped <==> t in RelabelChain(tree, mapped, t)
    decreases Depth(tree, t)
  {
    if t in mapped {
      match Parent(tree, t)
      case None =>
      case Some(p) =>
        ChainIsAncestors(tree, mapped, p);
    }
  }

  /** When the mapped set is closed under parents, the chain of a mapped test
      reaches every one of its ancestors. */
  lemma {:induction false} ChainCoversAncestors(tree: Tree, mapped: set<nat>, t: nat)
    requires WellFormed(tree) && t < |tree| && ParentClosed(tree, mapped) && t in mapped
    ensures forall x: nat | x < |tree| && IsDescendantOf(tree, x, t) :: x in RelabelChain(tree, mapped, t)
    decreases Depth(tree, t)
  {
    match Parent(tree, t)
    case None =>
    case Some(p) =>
      ChainCoversAncestors(tree, mapped, p);
  }

  /** Relabelling never reaches a strict descendant or a sibling of `t`. */
  lemma ChainSkipsDescendantsAndSiblings(tree: Tree, mapped: set<nat>, t: nat, y: nat)
    requires WellFormed(tree) && t < |tree| && y < |tree| && y != t
    ensures IsDescendantOf(tree, t, y) ==> y !in RelabelChain(tree, mapped, t)
    ensures Parent(tree, y) == Parent(tree, t) ==> y !in RelabelChain(tree, mapped, t)
  {
    ChainIsAncestors(tree, mapped, t);
    if y in RelabelChain(tree, mapped, t) {
      if IsDescendantOf(tree, t, y) {
        DescendantAntisymmetric(tree, t, y);
      }
      if Parent(tree, y) == Parent(tree, t) && Parent(tree, t).Some? {
        DescendantIdBound(tree, y, Parent(tree, t).value);
      }
    }
  }

  /** A test's row content depends only on the entries of the test and its
      descendants. */
  lemma DisplayLocal(tree: Tree, s1: Store, s2: Store, k: nat)
    requires WellFormed(tree) && k < |tree| && AgreeBelow(tree, s1, s2, k)
    ensures Label(tree, s1, k) == Label(tree, s2, k)
    ensures State(tree, s1, k) == State(tree, s2, k)
  {
    assert IsDescendantOf(tree, k, k);
    StateLocal(tree, s1, s2, k);
  }

  /** A test that is no ancestor-or-self of `t` shows the same after `t`'s
      entry changes. */
  lemma OneEntryChanged(tree: Tree, s1: Store, s2: Store, t: nat, k: nat)
    requires WellFormed(tree) && t < |tree| && k < |tree| && !IsDescendantOf(tree, k, t)
    requires forall d | d != t :: (d in s1 <==> d in s2) && (d in s1 ==> s1[d] == s2[d])
    ensures Label(tree, s1, k) == Label(tree, s2, k)
    ensures State(tree, s1, k) == State(tree, s2, k)
  {
    DisplayLocal(tree, s1, s2, k);
  }

  /** `t` and everything below it, gathered the way `CreateTreeItemForTest`
      walks the tree. */
  ghost function Subtree(tree: Tree, t: nat): set<nat>
    requires WellFormed(tree) && t < |tree|
    decreases |tree| - t, 1, 0
  {
    {t} + ChildSubtrees(tree, t, |Children(tree, t)|)
  }

  /** The subtrees of the first `n` children of `t`. */
  ghost function ChildSubtrees(tree: Tree, t: nat, n: nat): set<nat>
    requires WellFormed(tree) && t < |tree| && n <= |Children(tree, t)|
    decreases |tree| - t, 0, n
  {
    if n == 0 then {}
    else ChildSubtrees(tree, t, n - 1) + Subtree(tree, Children(tree, t)[n - 1])
  }

  lemma {:induction false} InChildSubtrees(tree: Tree, t: nat, n: nat, k: nat)
    requires WellFormed(tree) && t < |tree| && n <= |Children(tree, t)|
    ensures k in ChildSubtrees(tree, t, n) <==> exists j | 0 <= j < n :: k in Subtree(tree, Children(tree, t)[j])
  {
    if n > 0 {
      InChildSubtrees(tree, t, n - 1, k);
    }
  }

  /** The subtree of `t` is exactly the set of tests `t` is an
      ancestor-or-self of. */
  lemma {:induction false} SubtreeIsDescendants(tree: Tree, t: nat, k: nat)
    requires WellFormed(tree) && t < |tree|
    ensures k in Subtree(tree, t) <==> k < |tree| && IsDescendantOf(tree, t, k)
    decreases |tree| - t
  {
    var cs := Children(tree, t);
    InChildSubtrees(tree, t, |cs|, k);
    if k in Subtree(tree, t) && k != t {
      var j :| 0 <= j < |cs| && k in Subtree(tree, cs[j]);
      SubtreeIsDescendants(tree, cs[j], k);
      DescendantOfChild(tree, t, cs[j], k);
    }
    if k < |tree| && IsDescendantOf(tree, t, k) && k != t {
      var j := BelowSomeChild(tree, t, k);
      SubtreeIsDescendants(tree, cs[j], k);
    }
  }

  /** While `CreateTreeItemForTest(t)` walks `t`'s children, the next child
      has no row yet: its parent had none before, and it lies under no
      earlier sibling. */
  lemma ChildIsFresh(tree: Tree, mapped: set<nat>, t: nat, i: nat)
    requires WellFormed(tree) && t < |tree| && ParentClosed(tree, mapped) && t !in mapped
    requires i < |Children(tree, t)|
    ensures Children(tree, t)[i] !in mapped
    ensures Children(tree, t)[i] != t
    ensures Children(tree, t)[i] !in ChildSubtrees(tree, t, i)
  {
    var cs := Children(tree, t);
    var c := cs[i];
    DepthOfChild(tree, t, c);
    InChildSubtrees(tree, t, i, c);
    if c in ChildSubtrees(tree, t, i) {
      var j :| 0 <= j < i && c in Subtree(tree, cs[j]);
      SubtreeIsDescendants(tree, cs[j], c);
      DescendantIdBound(tree, cs[j], t);
    }
  }

  /** Every test strictly below `t` lies below one of its children. */
  lemma {:induction false} BelowSomeChild(tree: Tree, t: nat, k: nat) returns (j: nat)
    requires WellFormed(tree) && t < |tree| && k < |tree| && k != t && IsDescendantOf(tree, t, k)
    ensures j < |Children(tree, t)| && IsDescendantOf(tree, Children(tree, t)[j], k)
    decreases Depth(tree, k)
  {
    var p := Parent(tree, k).value;
    var cs := Children(tree, t);
    if p == t {
      j :| 0 <= j < |cs| && cs[j] == k;
    } else {
      j := BelowSomeChild(tree, t, p);
    }
  }

  /** What `CreateTreeItemForTest` changes: the side table, the rows, and the
      test each row was created for. */
  datatype Rows = Rows(treeItems: map<nat, nat>, items: seq<TreeItem>, owners: seq<nat>)

  /** The row `CreateTreeItemForTest` hangs a new row for `t` under: the
      parent's row for a test with a parent. `CreateItem(null)` makes the new
      row the widget's root when the widget is empty, and otherwise hangs it
      under the existing root, which is row 0 since rows are only appended
      after the widget is cleared. An unmapped parent never occurs
      (`CreateTreeItemForTest` requires it mapped); it gives None here. */
  function ParentRow(tree: Tree, treeItems: map<nat, nat>, rowCount: nat, t: nat): (r: Option<nat>)
    requires WellFormed(tree) && t < |tree|
    ensures Parent(tree, t).None? ==> (r.None? <==> rowCount == 0) && (r.Some? ==> r.value == 0)
    ensures Parent(tree, t).Some? && Parent(tree, t).value in treeItems ==>
              r == Some(treeItems[Parent(tree, t).value])
  {
    match Parent(tree, t)
    case None => if rowCount == 0 then None else Some(0)
    case Some(p) => if p in treeItems then Some(treeItems[p]) else None
  }

  /** The rows after `CreateTreeItemForTest(t)`: unchanged when `t` already
      has a row, otherwise a fresh blank row for `t` appended under its
      parent's row, then the same for each child in order. */
  ghost function Created(tree: Tree, w: Rows, t: nat): Rows
    requires WellFormed(tree) && t < |tree|
    decreases |tree| - t, 1, 0
  {
    if t in w.treeItems then w
    else
      var added := Rows(w.treeItems[t := |w.items|],
                        w.items + [TreeItem(ParentRow(tree, w.treeItems, |w.items|, t), "", None)],
                        w.owners + [t]);
      CreatedChildren(tree, added, t, |Children(tree, t)|)
  }

  /** The rows after creating the rows of the first `n` children of `t`. */
  ghost function CreatedChildren(tree: Tree, w: Rows, t: nat, n: nat): Rows
    requires WellFormed(tree) && t < |tree| && n <= |Children(tree, t)|
    decreases |tree| - t, 0, n
  {
    if n == 0 then w
    else Created(tree, CreatedChildren(tree, w, t, n - 1), Children(tree, t)[n - 1])
  }

  /** `w2` keeps every mapping and every row of `w`. */
  ghost predicate Extends(w: Rows, w2: Rows) {
    && (forall k | k in w.treeItems :: k in w2.treeItems && w2.treeItems[k] == w.treeItems[k])
    && w.items <= w2.items
    && w.owners <= w2.owners
  }

  lemma PrefixTransitive<T>(a: seq<T>, b: seq<T>, c: seq<T>)
    requires a <= b && b <= c
    ensures a <= c
  {
    assert forall i | 0 <= i < |a| :: a[i] == b[i] == c[i];
  }

  lemma ExtendsTransitive(w1: Rows, w2: Rows, w3: Rows)
    requires Extends(w1, w2) && Extends(w2, w3)
    ensures Extends(w1, w3)
  {
    PrefixTransitive(w1.items, w2.items, w3.items);
    PrefixTransitive(w1.owners, w2.owners, w3.owners);
  }

  /** Creating rows never drops, moves or rewrites an existing row. */
  lemma {:induction false} CreatedExtends(tree: Tree, w: Rows, t: nat)
    requires WellFormed(tree) && t < |tree|
    ensures Extends(w, Created(tree, w, t))
    decreases |tree| - t, 1, 0
  {
    if t !in w.treeItems {
      var added := Rows(w.treeItems[t := |w.items|],
                        w.items + [TreeItem(ParentRow(tree, w.treeItems, |w.items|, t), "", None)],
                        w.owners + [t]);
      CreatedChildrenExtends(tree, added, t, |Children(tree, t)|);
      ExtendsTransitive(w, added, Created(tree, w, t));
    }
  }

  lemma {:induction false} CreatedChildrenExtends(tree: Tree, w: Rows, t: nat, n: nat)
    requires WellFormed(tree) && t < |tree| && n <= |Children(tree, t)|
    ensures Extends(w, CreatedChildren(tree, w, t, n))
    decreases |tree| - t, 0, n
  {
    if n > 0 {
      var before := CreatedChildren(tree, w, t, n - 1);
      CreatedChildrenExtends(tree, w, t, n - 1);
      CreatedExtends(tree, before, Children(tree, t)[n - 1]);
      ExtendsTransitive(w, before, CreatedChildren(tree, w, t, n));
    } else {
      assert w.items <= w.items && w.owners <= w.owners;
    }
  }

  /** A valid side table yields a parent-closed set of mapped tests. */
  lemma ValidIsParentClosed(tree: Tree, w: Rows)
    requires WellFormed(tree) && ItemsValid(tree, w.treeItems, w.items, w.owners)
    ensures ParentClosed(tree, w.treeItems.Keys)
  {
  }

  /** Creating rows keeps the side table valid, given that `t`'s parent has a
      row already. */
  lemma {:induction false} CreatedKeepsValid(tree: Tree, w: Rows, t: nat)
    requires WellFormed(tree) && t < |tree| && ItemsValid(tree, w.treeItems, w.items, w.owners)
    requires Parent(tree, t).None? || Parent(tree, t).value in w.treeItems
    requires Parent(tree, t).None? ==> t in w.treeItems || w.items == []
    ensures ItemsValid(tree, Created(tree, w, t).treeItems, Created(tree, w, t).items, Created(tree, w, t).owners)
    decreases |tree| - t, 1, 0
  {
    if t !in w.treeItems {
      AddRowKeepsValid(tree, w.treeItems, w.items, w.owners, t, ParentRow(tree, w.treeItems, |w.items|, t));
      var added := Rows(w.treeItems[t := |w.items|],
                        w.items + [TreeItem(ParentRow(tree, w.treeItems, |w.items|, t), "", None)],
                        w.owners + [t]);
      CreatedChildrenKeepValid(tree, added, t, |Children(tree, t)|);
    }
  }

  lemma {:induction false} CreatedChildrenKeepValid(tree: Tree, w: Rows, t: nat, n: nat)
    requires WellFormed(tree) && t < |tree| && n <= |Children(tree, t)|
    requires ItemsValid(tree, w.treeItems, w.items, w.owners) && t in w.treeItems
    ensures ItemsValid(tree, CreatedChildren(tree, w, t, n).treeItems,
                       CreatedChildren(tree, w, t, n).items, CreatedChildren(tree, w, t, n).owners)
    decreases |tree| - t, 0, n
  {
    if n > 0 {
      var c := Children(tree, t)[n - 1];
      CreatedChildrenKeepValid(tree, w, t, n - 1);
      CreatedChildrenExtends(tree, w, t, n - 1);
      DepthOfChild(tree, t, c);
      CreatedKeepsValid(tree, CreatedChildren(tree, w, t, n - 1), c);
    }
  }

  /** Creating rows for an unmapped test whose parent is mapped gives rows to
      exactly its subtree. */
  lemma {:induction false} CreatedKeys(tree: Tree, w: Rows, t: nat)
    requires WellFormed(tree) && t < |tree| && ParentClosed(tree, w.treeItems.Keys)
    requires t !in w.treeItems
    requires Parent(tree, t).None? || Parent(tree, t).value in w.treeItems
    ensures Created(tree, w, t).treeItems.Keys == w.treeItems.Keys + Subtree(tree, t)
    decreases |tree| - t, 1, 0
  {
    var added := Rows(w.treeItems[t := |w.items|],
                      w.items + [TreeItem(ParentRow(tree, w.treeItems, |w.items|, t), "", None)],
                      w.owners + [t]);
    CreatedChildrenKeys(tree, added, t, |Children(tree, t)|, w.treeItems.Keys);
  }

  /** Creating the rows of a test a second time changes nothing: the first
      call maps the test, so the second returns at its `ContainsKey` check. */
  lemma CreatedTwice(tree: Tree, w: Rows, t: nat)
    requires WellFormed(tree) && t < |tree| && ParentClosed(tree, w.treeItems.Keys)
    requires Parent(tree, t).None? || Parent(tree, t).value in w.treeItems
    ensures Created(tree, Created(tree, w, t), t) == Created(tree, w, t)
  {
    if t !in w.treeItems {
      CreatedKeys(tree, w, t);
      SubtreeIsDescendants(tree, t, t);
    }
  }

  lemma {:induction false} CreatedChildrenKeys(tree: Tree, w: Rows, t: nat, n: nat, base: set<nat>)
    requires WellFormed(tree) && t < |tree| && n <= |Children(tree, t)|
    requires ParentClosed(tree, base) && t !in base && (Parent(tree, t).None? || Parent(tree, t).value in base)
    requires w.treeItems.Keys == base + {t}
    ensures CreatedChildren(tree, w, t, n).treeItems.Keys == base + {t} + ChildSubtrees(tree, t, n)
    decreases |tree| - t, 0, n
  {
    if n > 0 {
      var c := Children(tree, t)[n - 1];
      var before := CreatedChildren(tree, w, t, n - 1);
      CreatedChildrenKeys(tree, w, t, n - 1, base);
      ChildIsFresh(tree, base, t, n - 1);
      DepthOfChild(tree, t, c);
      ChildSubtreesParentClosed(tree, base, t, n - 1);
      CreatedKeys(tree, before, c);
    }
  }

  /** A parent-closed set stays parent-closed when a test whose parent it
      holds is added together with the subtrees of some of its children. */
  lemma ChildSubtreesParentClosed(tree: Tree, base: set<nat>, t: nat, n: nat)
    requires WellFormed(tree) && t < |tree| && n <= |Children(tree, t)|
    requires ParentClosed(tree, base) && (Parent(tree, t).None? || Parent(tree, t).value in base)
    ensures ParentClosed(tree, base + {t} + ChildSubtrees(tree, t, n))
  {
    var cs := Children(tree, t);
    var all := base + {t} + ChildSubtrees(tree, t, n);
    forall x | x in ChildSubtrees(tree, t, n)
      ensures x < |tree| && (Parent(tree, x).Some? ==> Parent(tree, x).value in all)
    {
      InChildSubtrees(tree, t, n, x);
      var j :| 0 <= j < n && x in Subtree(tree, cs[j]);
      SubtreeIsDescendants(tree, cs[j], x);
      if x != cs[j] {
        var p := Parent(tree, x).value;
        SubtreeIsDescendants(tree, cs[j], p);
        InChildSubtrees(tree, t, n, p);
      } else {
        DepthOfChild(tree, t, x);
      }
    }
  }

  /** Every mapped test with no member of `pending` below it (or equal to
      it) shows its current label and state; only rows above a pending test
      may be stale. */
  ghost predicate SyncedAbove(tree: Tree, store: Store, treeItems: map<nat, nat>, items: seq<TreeItem>, pending: seq<nat>)
    requires WellFormed(tree) && RowsInRange(tree, treeItems, items)
  {
    forall k | k in treeItems && (forall d | d in pending && d < |tree| :: !IsDescendantOf(tree, k, d)) ::
      Shows(tree, store, items[treeItems[k]], k)
  }

  /** With nothing pending, every row is up to date. */
  lemma SyncedAboveNothing(tree: Tree, store: Store, treeItems: map<nat, nat>, items: seq<TreeItem>)
    requires WellFormed(tree) && RowsInRange(tree, treeItems, items)
    requires SyncedAbove(tree, store, treeItems, items, [])
    ensures Synced(tree, store, treeItems, items)
  {
  }

  /** After a run's clearing step, a row goes stale only when a cleared test
      lies below it: every other test sees the same entries below it. */
  lemma ClearedSyncedAbove(tree: Tree, before: Store, store: Store, filter: TestFilter,
                           treeItems: map<nat, nat>, items: seq<TreeItem>, setups: seq<nat>)
    requires WellFormed(tree) && StoreValid(tree, before) && RowsInRange(tree, treeItems, items)
    requires Synced(tree, before, treeItems, items)
    requires store == Cleared(tree, before, filter)
    requires forall k :: k in setups <==> k in before && Pass(tree, filter, k)
    ensures SyncedAbove(tree, store, treeItems, items, setups)
  {
    forall k | k in treeItems && (forall d | d in setups && d < |tree| :: !IsDescendantOf(tree, k, d))
      ensures Shows(tree, store, items[treeItems[k]], k)
    {
      forall x: nat | x < |tree| && IsDescendantOf(tree, k, x)
        ensures (x in before <==> x in store) && (x in before ==> before[x] == store[x])
      {
        assert x !in setups;
      }
      DisplayLocal(tree, before, store, k);
    }
  }

  /** After a start or finish event for `t`, only the rows of `t` and its
      ancestors may be stale. */
  lemma OneEntrySyncedAbove(tree: Tree, before: Store, store: Store, t: nat,
                            treeItems: map<nat, nat>, items: seq<TreeItem>)
    requires WellFormed(tree) && t < |tree| && RowsInRange(tree, treeItems, items)
    requires Synced(tree, before, treeItems, items)
    requires forall d | d != t :: (d in before <==> d in store) && (d in before ==> before[d] == store[d])
    ensures SyncedAbove(tree, store, treeItems, items, [t])
  {
    forall k | k in treeItems && (forall d | d in [t] && d < |tree| :: !IsDescendantOf(tree, k, d))
      ensures Shows(tree, store, items[treeItems[k]], k)
    {
      assert t in [t];
      OneEntryChanged(tree, before, store, t, k);
    }
  }

  /** Relabelling the first pending test brings its row and every ancestor's
      row up to date, so that test is no longer pending. */
  lemma PendingStep(tree: Tree, store: Store, treeItems: map<nat, nat>, items: seq<TreeItem>, owners: seq<nat>,
                    before: seq<TreeItem>, pending: seq<nat>)
    requires WellFormed(tree) && ItemsValid(tree, treeItems, items, owners) && |before| == |items|
    requires |pending| > 0 && pending[0] in treeItems
    requires SyncedAbove(tree, store, treeItems, before, pending)
    requires forall k | k in RelabelChain(tree, treeItems.Keys, pending[0]) ::
               k in treeItems && k < |tree| && Shows(tree, store, items[treeItems[k]], k)
    requires forall i | 0 <= i < |items| && i !in ItemsOf(treeItems, RelabelChain(tree, treeItems.Keys, pending[0])) ::
               items[i] == before[i]
    ensures SyncedAbove(tree, store, treeItems, items, pending[1..])
  {
    var t := pending[0];
    var chain := RelabelChain(tree, treeItems.Keys, t);
    OffChainRowsKept(tree, treeItems, items, owners, before, chain);
    ValidIsParentClosed(tree, Rows(treeItems, items, owners));
    ChainCoversAncestors(tree, treeItems.Keys, t);
    ChainIsAncestors(tree, treeItems.Keys, t);
    forall k | k in treeItems && (forall d | d in pending[1..] && d < |tree| :: !IsDescendantOf(tree, k, d))
      ensures Shows(tree, store, items[treeItems[k]], k)
    {
      if !IsDescendantOf(tree, k, t) {
        assert k !in chain;
        forall d | d in pending && d < |tree| ensures !IsDescendantOf(tree, k, d) {
          if d != t {
            assert d in pending[1..];
          }
        }
      }
    }
  }

  /** Building the rows from nothing, as `RefreshAvaliableTests` does, gives a
      valid side table whose keys are exactly the tests of the tree. */
  lemma CreatedFromNothing(tree: Tree)
    requires WellFormed(tree) && |tree| > 0
    ensures var w := Created(tree, Rows(map[], [], []), 0);
            && ItemsValid(tree, w.treeItems, w.items, w.owners)
            && forall k: nat :: k in w.treeItems <==> k < |tree|
  {
    var empty := Rows(map[], [], []);
    CreatedKeepsValid(tree, empty, 0);
    CreatedKeys(tree, empty, 0);
    forall k: nat | k < |tree| ensures k in Subtree(tree, 0) {
      RootIsAncestorOfAll(tree, k);
      SubtreeIsDescendants(tree, 0, k);
    }
  }

  class TestRunnerDock {
    /** `_gTestsGodotTestRunner`, created once at start-up. */
    const runner: TestRunner
    const newLine: NewLine
    /** `_testTreeItems`. */
    var treeItems: map<nat, nat>
    /** The rows of `ResultTree`. */
    var items: seq<TreeItem>
    /** `TestOutputLabel.Text`. */
    var outputLabel: string
    /** The test each row was created for. */
    ghost var owners: seq<nat>

    ghost predicate Valid()
      reads this, runner
    {
      runner.Valid() && ItemsValid(runner.tree, treeItems, items, owners)
    }

    /** Every test of the loaded tree has a row. */
    ghost predicate Complete()
      reads this, runner
    {
      forall k: nat :: k in treeItems <==> k < |runner.tree|
    }

    /** Every row shows its test's current label and state. */
    ghost predicate UpToDate()
      reads this, runner
      requires Valid()
    {
      Synced(runner.tree, runner.results, treeItems, items)
    }

    /** What holds between any two calls into the dock once it is built. */
    ghost predicate Inv()
      reads this, runner
    {
      Valid() && Complete() && UpToDate()
    }

    /** `_Ready` with `InitializeTestRunner`: load the tests and fill the
        widget. */
    constructor (loaded: Tree, nl: NewLine)
      requires WellFormed(loaded)
      ensures Inv()
      ensures fresh(runner) && runner.tree == loaded && runner.results == map[]
    {
      runner := new TestRunner(loaded);
      newLine := nl;
      treeItems := map[];
      items := [];
      owners := [];
      outputLabel := "";
      new;
      RefreshAvaliableTests();
    }

    /** `GetTestState`: the recursion and the `worstState` loop. */
    method GetTestState(test: nat) returns (state: TestState)
      requires Valid() && test < |runner.tree|
      ensures state == State(runner.tree, runner.results, test)
      decreases |runner.tree| - test
    {
      var children := Children(runner.tree, test);
      if |children| > 0 {
        var worstState := TestState.Passed;
        var i := 0;
        while i < |children|
          invariant 0 <= i <= |children|
          invariant worstState == FoldChildren(runner.tree, runner.results, test, i)
        {
          var childState := GetTestState(children[i]);
          if Less(childState, worstState) {
            worstState := childState;
          }
          i := i + 1;
        }
        return worstState;
      }
      var hasTestResults, testResult := runner.TryGetTestResult(test);
      if !hasTestResults {
        return NotRun;
      }
      if testResult.None? {
        return InProgress;
      }
      return StatusToState(testResult.value.status);
    }

    /** `UpdateTestTreeItem`: relabel the test's row, then its ancestors'. */
    method UpdateTestTreeItem(test: nat)
      requires Valid() && test < |runner.tree|
      modifies this`items
      ensures Valid()
      ensures |items| == |old(items)|
      ensures forall i | 0 <= i < |items| :: items[i].parent == old(items[i].parent)
      ensures forall k | k in RelabelChain(runner.tree, treeItems.Keys, test) ::
                k in treeItems && k < |runner.tree| && Shows(runner.tree, runner.results, items[treeItems[k]], k)
      ensures forall i | 0 <= i < |items| && i !in ItemsOf(treeItems, RelabelChain(runner.tree, treeItems.Keys, test)) ::
                items[i] == old(items[i])
      decreases Depth(runner.tree, test)
    {
      ChainIsAncestors(runner.tree, treeItems.Keys, test);
      if test !in treeItems {
        return;
      }
      var treeItem := treeItems[test];
      var state := GetTestState(test);
      var text := Label(runner.tree, runner.results, test);
      items := items[treeItem := TreeItem(items[treeItem].parent, text, Some(state))];
      assert Shows(runner.tree, runner.results, items[treeItem], test);
      match Parent(runner.tree, test)
      case None =>
      case Some(p) =>
        ghost var mid := items;
        UpdateTestTreeItem(p);
        ChainIsAncestors(runner.tree, treeItems.Keys, p);
        assert treeItem !in ItemsOf(treeItems, RelabelChain(runner.tree, treeItems.Keys, p));
        assert items[treeItem] == mid[treeItem];
    }

    /** The part of the dock `CreateTreeItemForTest` changes. */
    ghost function Snapshot(): Rows
      reads this
    {
      Rows(treeItems, items, owners)
    }

    /** `CreateTreeItemForTest`: give the test and its whole subtree rows,
        unless the test already has one. The parent must already have a row
        (the source indexes the side table with it). */
    method CreateTreeItemForTest(test: nat)
      requires runner.Valid() && test < |runner.tree|
      requires Parent(runner.tree, test).None? || Parent(runner.tree, test).value in treeItems
      modifies this`treeItems, this`items, this`owners
      ensures Snapshot() == Created(runner.tree, old(Snapshot()), test)
      decreases |runner.tree| - test
    {
      if test in treeItems {
        return;
      }
      var tree := runner.tree;
      var parentTreeItem := match Parent(tree, test)
        case None => if |items| == 0 then None else Some(0)
        case Some(p) => Some(treeItems[p]);
      var treeItem := |items|;
      items := items + [TreeItem(parentTreeItem, "", None)];
      owners := owners + [test];
      treeItems := treeItems[test := treeItem];
      ghost var added := Snapshot();
      var children := Children(tree, test);
      var i := 0;
      while i < |children|
        invariant 0 <= i <= |children|
        invariant Snapshot() == CreatedChildren(tree, added, test, i)
      {
        var child := children[i];
        CreatedChildrenExtends(tree, added, test, i);
        DepthOfChild(tree, test, child);
        CreateTreeItemForTest(child);
        i := i + 1;
      }
    }

    /** `RefreshAvaliableTests`: drop every row, rebuild the widget from the
        loaded tree, and label every row. */
    method RefreshAvaliableTests()
      requires Valid()
      modifies this`treeItems, this`items, this`owners
      ensures Valid() && Complete() && UpToDate()
    {
      treeItems := map[];
      items := [];
      owners := [];
      var hasLoadedTests, testsTree := runner.TryGetTestTree();
      if !hasLoadedTests {
        return;
      }
      CreateTreeItemForTest(testsTree.value);
      CreatedFromNothing(runner.tree);
      RelabelAll();
    }

    /** The `foreach` of `RefreshAvaliableTests`: relabel every mapped test,
        which brings every row up to date and leaves the side table as it
        was. */
    method RelabelAll()
      requires Valid()
      modifies this`items
      ensures Valid() && UpToDate()
      ensures |items| == |old(items)|
      ensures forall i | 0 <= i < |items| :: items[i].parent == old(items[i].parent)
    {
      var remaining := treeItems.Keys;
      while remaining != {}
        invariant Valid()
        invariant remaining <= treeItems.Keys
        invariant |items| == |old(items)|
        invariant forall i | 0 <= i < |items| :: items[i].parent == old(items[i].parent)
        invariant forall k | k in treeItems && k !in remaining ::
                    Shows(runner.tree, runner.results, items[treeItems[k]], k)
        decreases remaining
      {
        var test :| test in remaining;
        ghost var before := items;
        UpdateTestTreeItem(test);
        OffChainRowsKept(runner.tree, treeItems, items, owners, before, RelabelChain(runner.tree, treeItems.Keys, test));
        remaining := remaining - {test};
      }
    }
    /** `StartTestRun`: the runner clears the results of every test that
        passes `filter`, and the dock relabels each cleared test (the
        runner's `onTestSetup` callback), in the order the runner reports
        them. */
    method StartTestRun(filter: TestFilter)
      requires Inv()
      modifies runner, this`items
      ensures Inv()
      ensures runner.results == Cleared(runner.tree, old(runner.results), filter)
      ensures |items| == |old(items)|
      ensures forall i | 0 <= i < |items| :: items[i].parent == old(items[i].parent)
    {
      ghost var before := runner.results;
      var setups := runner.StartTestRun(filter);
      ClearedSyncedAbove(runner.tree, before, runner.results, filter, treeItems, items, setups);
      var i := 0;
      while i < |setups|
        invariant 0 <= i <= |setups|
        invariant Valid() && Complete()
        invariant runner.results == Cleared(runner.tree, before, filter)
        invariant |items| == |old(items)|
        invariant forall j | 0 <= j < |items| :: items[j].parent == old(items[j].parent)
        invariant SyncedAbove(runner.tree, runner.results, treeItems, items, setups[i..])
      {
        assert setups[i] in before;
        ghost var rows := items;
        UpdateTestTreeItem(setups[i]);
        assert setups[i..][0] == setups[i] && setups[i..][1..] == setups[i + 1..];
        PendingStep(runner.tree, runner.results, treeItems, items, owners, rows, setups[i..]);
        i := i + 1;
      }
      SyncedAboveNothing(runner.tree, runner.results, treeItems, items);
    }

    /** The dock's `WhenTestStarted` handler, run after the runner has marked
        `test` as in progress: it would create the test's row (every test
        has one already) and relabels it and its ancestors. */
    method WhenTestStarted(test: nat)
      requires Valid() && Complete() && test < |runner.tree|
      requires SyncedAbove(runner.tree, runner.results, treeItems, items, [test])
      modifies this`treeItems, this`items, this`owners
      ensures Inv()
      ensures treeItems == old(treeItems) && |items| == |old(items)|
      ensures forall i | 0 <= i < |items| :: items[i].parent == old(items[i].parent)
    {
      CreateTreeItemForTest(test);
      ghost var rows := items;
      UpdateTestTreeItem(test);
      PendingStep(runner.tree, runner.results, treeItems, items, owners, rows, [test]);
      SyncedAboveNothing(runner.tree, runner.results, treeItems, items);
    }

    /** The dock's `WhenTestFinished` handler, run after the runner has stored
        the result: it relabels the test's row and its ancestors'. */
    method WhenTestFinished(testResult: TestResult)
      requires Valid() && Complete() && testResult.test < |runner.tree|
      requires SyncedAbove(runner.tree, runner.results, treeItems, items, [testResult.test])
      modifies this`items
      ensures Inv()
      ensures |items| == |old(items)|
      ensures forall i | 0 <= i < |items| :: items[i].parent == old(items[i].parent)
    {
      ghost var rows := items;
      UpdateTestTreeItem(testResult.test);
      PendingStep(runner.tree, runner.results, treeItems, items, owners, rows, [testResult.test]);
      SyncedAboveNothing(runner.tree, runner.results, treeItems, items);
    }

    /** A start event during a run: the runner's handler marks the test as in
        progress and forwards the event to the dock's handler. */
    method TestStarted(test: nat)
      requires Inv() && test < |runner.tree|
      modifies runner, this`treeItems, this`items, this`owners
      ensures Inv()
      ensures runner.results == Started(old(runner.results), test)
      ensures treeItems == old(treeItems)
    {
      ghost var before := runner.results;
      runner.WhenTestStarted(test);
      OneEntrySyncedAbove(runner.tree, before, runner.results, test, treeItems, items);
      WhenTestStarted(test);
    }

    /** A finish event during a run: the runner's handler stores the result
        and forwards the event to the dock's handler. */
    method TestFinished(testResult: TestResult)
      requires Inv() && testResult.test < |runner.tree|
      modifies runner, this`items
      ensures Inv()
      ensures runner.results == Finished(old(runner.results), testResult)
    {
      ghost var before := runner.results;
      runner.WhenTestFinished(testResult);
      OneEntrySyncedAbove(runner.tree, before, runner.results, testResult.test, treeItems, items);
      WhenTestFinished(testResult);
    }

    /** `TryGetTestFromTreeItem`: the test whose row is `treeItem`, if any
        (`treeItem` is None when nothing is selected). It keeps the first
        match of its walk over the side table; no two tests share a row, so
        that match is the only one. */
    method TryGetTestFromTreeItem(treeItem: Option<nat>) returns (found: bool, test: Option<nat>)
      requires Valid()
      ensures found <==> test.Some?
      ensures found ==> test.value in treeItems && Some(treeItems[test.value]) == treeItem
      ensures forall k | k in treeItems && Some(treeItems[k]) == treeItem :: test == Some(k)
    {
      test := None;
      var remaining := treeItems.Keys;
      while remaining != {}
        invariant remaining <= treeItems.Keys
        invariant test.Some? ==> test.value in treeItems && Some(treeItems[test.value]) == treeItem
        invariant forall k | k in treeItems && k !in remaining && Some(treeItems[k]) == treeItem :: test == Some(k)
        decreases remaining
      {
        var k :| k in remaining;
        if test.None? && Some(treeItems[k]) == treeItem {
          test := Some(k);
        } else if test.Some? && Some(treeItems[k]) == treeItem {
          RowsDistinct(runner.tree, treeItems, items, owners, k, test.value);
        }
        remaining := remaining - {k};
      }
      found := test.Some?;
    }

    /** `DisplayTestOutput`: put the test's output text in the output label,
        building the report of a test that did not pass line by line. */
    method DisplayTestOutput(test: nat)
      modifies this`outputLabel
      ensures outputLabel == OutputText(runner.results, test, newLine)
    {
      var hasTestResults, testResult := runner.TryGetTestResult(test);
      if !hasTestResults {
        outputLabel := "Test not run.";
        return;
      }
      if testResult.None? {
        outputLabel := "Test in progress...";
        return;
      }
      var r := testResult.value;
      if r.status == TestStatus.Passed {
        outputLabel := "Test passed.";
        return;
      }
      var builder := r.name + newLine.Text();
      if !IsNullOrWhiteSpace(r.message) {
        var line := r.message.value + newLine.Text();
        builder := builder + line;
      }
      if !IsNullOrWhiteSpace(r.output) {
        var line := r.output.value + newLine.Text();
        builder := builder + line;
      }
      if r.status != TestStatus.Passed && !IsNullOrWhiteSpace(r.stackTrace) {
        var line := r.stackTrace.value + newLine.Text();
        builder := builder + line;
      }
      outputLabel := builder;
    }

    /** `RefreshButton_Click`. */
    method RefreshButtonClick()
      requires Valid()
      modifies this`treeItems, this`items, this`owners
      ensures Inv()
    {
      RefreshAvaliableTests();
    }

    /** `RunButton_Click`: rebuild the widget, then run every test. Afterwards
        no test has a result and every row says so. */
    method RunButtonClick()
      requires Valid()
      modifies runner, this`treeItems, this`items, this`owners
      ensures Inv()
      ensures runner.results == map[]
    {
      RefreshAvaliableTests();
      StartTestRun(MatchEverything);
      ClearingEverythingEmpties(runner.tree, old(runner.results));
    }

    /** `TestResultTree_ItemSelected`: show the output of the selected row's
        test; a selection that is no test's row changes nothing. */
    method TestResultTreeItemSelected(selectedItem: Option<nat>)
      requires Valid()
      modifies this`outputLabel
      ensures forall k | k in treeItems && Some(treeItems[k]) == selectedItem ::
                outputLabel == OutputText(runner.results, k, newLine)
      ensures (forall k | k in treeItems :: Some(treeItems[k]) != selectedItem) ==> outputLabel == old(outputLabel)
    {
      var testFound, test := TryGetTestFromTreeItem(selectedItem);
      if !testFound {
        return;
      }
      DisplayTestOutput(test.value);
      assert Some(treeItems[test.value]) == selectedItem;
    }

    /** `TestResultTree_ItemActivated`: run the selected row's test and
        everything below it; a selection that is no test's row changes
        nothing. */
    method TestResultTreeItemActivated(selectedItem: Option<nat>)
      requires Inv()
      modifies runner, this`items
      ensures Inv()
      ensures forall k | k in treeItems && Some(treeItems[k]) == selectedItem ::
                runner.results == Cleared(runner.tree, old(runner.results), MatchDescendantsOf(k))
      ensures (forall k | k in treeItems :: Some(treeItems[k]) != selectedItem) ==>
                runner.results == old(runner.results) && items == old(items)
    {
      var testFound, test := TryGetTestFromTreeItem(selectedItem);
      if !testFound {
        return;
      }
      StartTestRun(MatchDescendantsOf(test.value));
    }
  }
}
