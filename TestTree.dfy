/** The test tree the test framework loads: suites and test cases, each with a
    parent back-link and an ordered list of children. The tree is read-only to
    the dock. Tests live in an arena indexed by their id; the loaded root is
    id 0, and every other test's parent has a smaller id than the test itself,
    which makes the parent relation acyclic. */
module TestTrees {

  datatype Option<+T> = None | Some(value: T)

  /** One test node: what the dock reads of NUnit's ITest. */
  datatype TestNode = TestNode(
    name: string,
    isSuite: bool,
    parent: Option<nat>,
    children: seq<nat>,
    testCaseCount: nat)

  type Tree = seq<TestNode>

  /** Links of node `t` are consistent: its parent lists it as a child, its
      children point back to it, and ids grow away from the root. */
  predicate NodeOk(tree: Tree, t: nat)
    requires t < |tree|
  {
    && (tree[t].parent.None? <==> t == 0)
    && (tree[t].parent.Some? ==>
          tree[t].parent.value < t && t in tree[tree[t].parent.value].children)
    && (forall i | 0 <= i < |tree[t].children| ::
          t < tree[t].children[i] < |tree| && tree[tree[t].children[i]].parent == Some(t))
    && (forall i, j | 0 <= i < j < |tree[t].children| ::
          tree[t].children[i] != tree[t].children[j])
  }

  predicate WellFormed(tree: Tree) {
    forall t | 0 <= t < |tree| :: NodeOk(tree, t)
  }

  /** `test.Parent`, with the well-formedness facts about it. */
  function Parent(tree: Tree, t: nat): (p: Option<nat>)
    requires WellFormed(tree) && t < |tree|
    ensures p == tree[t].parent
    ensures p.None? <==> t == 0
    ensures p.Some? ==> p.value < t && t in tree[p.value].children
  {
    assert NodeOk(tree, t);
    tree[t].parent
  }

  /** `test.Tests`, with the well-formedness facts about it. */
  function Children(tree: Tree, t: nat): (cs: seq<nat>)
    requires WellFormed(tree) && t < |tree|
    ensures cs == tree[t].children
    ensures forall i | 0 <= i < |cs| :: t < cs[i] < |tree| && tree[cs[i]].parent == Some(t)
    ensures forall i, j | 0 <= i < j < |cs| :: cs[i] != cs[j]
  {
    assert NodeOk(tree, t);
    tree[t].children
  }

  /** Number of ancestors of `t`: the measure for walks up the parent chain. */
  function Depth(tree: Tree, t: nat): nat
    requires WellFormed(tree) && t < |tree|
    decreases t
  {
    match Parent(tree, t)
    case None => 0
    case Some(p) => 1 + Depth(tree, p)
  }

  /** The parent chain of `t`, nearest ancestor first. */
  function Ancestors(tree: Tree, t: nat): (chain: seq<nat>)
    requires WellFormed(tree) && t < |tree|
    ensures forall i | 0 <= i < |chain| :: chain[i] < t
    decreases Depth(tree, t)
  {
    match Parent(tree, t)
    case None => []
    case Some(p) => [p] + Ancestors(tree, p)
  }

  /** Every node except the root has a parent, one step closer to the root. */
  lemma {:induction false} DepthOfChild(tree: Tree, t: nat, c: nat)
    requires WellFormed(tree) && t < |tree|
    requires c in Children(tree, t)
    ensures c < |tree| && Parent(tree, c) == Some(t)
    ensures Depth(tree, c) == Depth(tree, t) + 1
  {
    var cs := Children(tree, t);
    var i :| 0 <= i < |cs| && cs[i] == c;
    assert tree[c].parent == Some(t);
  }
}
