/** The two test filters the dock hands to the runner. Both answer
    IsExplicitMatch exactly as they answer Pass. */
module Filters {
  import opened TestTrees

  datatype TestFilter =
    | MatchEverything
    | MatchDescendantsOf(possibleParent: nat)

  /** True iff `possibleParent` is `possibleChild` itself or lies on its
      parent chain, found by walking the chain upwards. */
  predicate IsDescendantOf(tree: Tree, possibleParent: nat, possibleChild: nat)
    requires WellFormed(tree) && possibleChild < |tree|
    decreases Depth(tree, possibleChild)
  {
    if possibleChild == possibleParent then true
    else match Parent(tree, possibleChild)
      case None => false
      case Some(p) => IsDescendantOf(tree, possibleParent, p)
  }

  predicate Pass(tree: Tree, filter: TestFilter, t: nat)
    requires WellFormed(tree) && t < |tree|
  {
    match filter
    case MatchEverything => true
    case MatchDescendantsOf(anchor) => IsDescendantOf(tree, anchor, t)
  }

  function IsExplicitMatch(tree: Tree, filter: TestFilter, t: nat): (r: bool)
    requires WellFormed(tree) && t < |tree|
    ensures r == Pass(tree, filter, t)
  {
    match filter
    case MatchEverything => true
    case MatchDescendantsOf(anchor) => IsDescendantOf(tree, anchor, t)
  }

  /** MatchEverything passes and explicitly matches every test. */
  lemma MatchEverythingPassesAll(tree: Tree, t: nat)
    requires WellFormed(tree) && t < |tree|
    ensures Pass(tree, MatchEverything, t)
    ensures IsExplicitMatch(tree, MatchEverything, t)
  {
  }

  /** The anchor passes its own filter. */
  lemma AnchorPasses(tree: Tree, anchor: nat)
    requires WellFormed(tree) && anchor < |tree|
    ensures Pass(tree, MatchDescendantsOf(anchor), anchor)
  {
  }

  /** An ancestor-or-self never has a larger id than its descendant. */
  lemma {:induction false} DescendantIdBound(tree: Tree, a: nat, x: nat)
    requires WellFormed(tree) && x < |tree|
    requires IsDescendantOf(tree, a, x)
    ensures a <= x
    decreases Depth(tree, x)
  {
    if x != a {
      DescendantIdBound(tree, a, Parent(tree, x).value);
    }
  }

  /** The walk answers exactly "is `a` the test or one of its ancestors". */
  lemma {:induction false} DescendantIffOnChain(tree: Tree, a: nat, t: nat)
    requires WellFormed(tree) && t < |tree|
    ensures IsDescendantOf(tree, a, t) <==> (t == a || a in Ancestors(tree, t))
    decreases Depth(tree, t)
  {
    match Parent(tree, t)
    case None =>
    case Some(p) =>
      DescendantIffOnChain(tree, a, p);
  }

  /** Pass of a MatchDescendantsOf filter, stated without the walk. */
  lemma PassIffOnChain(tree: Tree, anchor: nat, t: nat)
    requires WellFormed(tree) && t < |tree|
    ensures Pass(tree, MatchDescendantsOf(anchor), t) <==> (t == anchor || anchor in Ancestors(tree, t))
  {
    DescendantIffOnChain(tree, anchor, t);
  }

  /** The anchor's parent is not matched. */
  lemma ParentOfAnchorFails(tree: Tree, anchor: nat)
    requires WellFormed(tree) && anchor < |tree|
    requires Parent(tree, anchor).Some?
    ensures !Pass(tree, MatchDescendantsOf(anchor), Parent(tree, anchor).value)
  {
    var p := Parent(tree, anchor).value;
    if IsDescendantOf(tree, anchor, p) {
      DescendantIdBound(tree, anchor, p);
    }
  }

  /** Matching is closed downwards: children of a matched test are matched. */
  lemma ChildOfPassingPasses(tree: Tree, filter: TestFilter, t: nat, c: nat)
    requires WellFormed(tree) && t < |tree|
    requires Pass(tree, filter, t) && c in Children(tree, t)
    ensures c < |tree| && Pass(tree, filter, c)
  {
    DepthOfChild(tree, t, c);
  }

  /** The relation is transitive. */
  lemma {:induction false} DescendantTransitive(tree: Tree, a: nat, b: nat, c: nat)
    requires WellFormed(tree) && b < |tree| && c < |tree|
    requires IsDescendantOf(tree, a, b) && IsDescendantOf(tree, b, c)
    ensures IsDescendantOf(tree, a, c)
    decreases Depth(tree, c)
  {
    if c != b {
      DescendantTransitive(tree, a, b, Parent(tree, c).value);
    }
  }

  /** Descendants of a child are descendants of its parent. */
  lemma DescendantOfChild(tree: Tree, t: nat, c: nat, x: nat)
    requires WellFormed(tree) && t < |tree| && x < |tree|
    requires c in Children(tree, t) && IsDescendantOf(tree, c, x)
    ensures IsDescendantOf(tree, t, x)
  {
    DepthOfChild(tree, t, c);
    DescendantTransitive(tree, t, c, x);
  }

  /** Two ancestors of the same test are ordered: one is an ancestor of the
      other. */
  lemma {:induction false} AncestorsAreOrdered(tree: Tree, a: nat, b: nat, y: nat)
    requires WellFormed(tree) && a < |tree| && b < |tree| && y < |tree|
    requires IsDescendantOf(tree, a, y) && IsDescendantOf(tree, b, y)
    ensures IsDescendantOf(tree, a, b) || IsDescendantOf(tree, b, a)
    decreases Depth(tree, y)
  {
    if y != a && y != b {
      AncestorsAreOrdered(tree, a, b, Parent(tree, y).value);
    }
  }

  /** Only a test itself is both its ancestor and its descendant. */
  lemma DescendantAntisymmetric(tree: Tree, a: nat, b: nat)
    requires WellFormed(tree) && a < |tree| && b < |tree|
    requires IsDescendantOf(tree, a, b) && IsDescendantOf(tree, b, a)
    ensures a == b
  {
    DescendantIdBound(tree, a, b);
    DescendantIdBound(tree, b, a);
  }

  /** A test under a sibling of the anchor is not matched. */
  lemma SiblingSubtreeFails(tree: Tree, anchor: nat, sibling: nat, y: nat)
    requires WellFormed(tree) && anchor < |tree| && sibling < |tree| && y < |tree|
    requires anchor != sibling && Parent(tree, anchor).Some?
    requires Parent(tree, sibling) == Parent(tree, anchor)
    requires IsDescendantOf(tree, sibling, y)
    ensures !Pass(tree, MatchDescendantsOf(anchor), y)
  {
    var p := Parent(tree, anchor).value;
    if IsDescendantOf(tree, anchor, y) {
      AncestorsAreOrdered(tree, anchor, sibling, y);
      if IsDescendantOf(tree, anchor, sibling) {
        DescendantIdBound(tree, anchor, p);
      } else {
        DescendantIdBound(tree, sibling, p);
      }
    }
  }

  /** Every test lies under the root, so MatchDescendantsOf the root passes
      everything, like MatchEverything. */
  lemma {:induction false} RootIsAncestorOfAll(tree: Tree, x: nat)
    requires WellFormed(tree) && x < |tree|
    ensures IsDescendantOf(tree, 0, x)
    ensures Pass(tree, MatchDescendantsOf(0), x) == Pass(tree, MatchEverything, x)
    decreases Depth(tree, x)
  {
    if x != 0 {
      RootIsAncestorOfAll(tree, Parent(tree, x).value);
    }
  }
}
