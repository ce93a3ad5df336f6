/**
 * What `prune`, `collapse_rightmost` and `remove` of src/binarytree.rs do to
 * the values, the ordering and the shape of a tree.
 */
module TreeRemove {
  import opened Wrappers
  import opened Trees
  import TreeInsert

  // ---------------------------------------------------------------------------
  // prune
  // ---------------------------------------------------------------------------

  /** A second `prune` finds nothing left to clear. */
  lemma PruneIdempotent(t: Tree)
    ensures Prune(Prune(t)) == Prune(t)
    ensures Values(Prune(t)) <= Values(t)
  {
  }

  /** `prune` leaves a node alone when none of its children is valueless. */
  lemma PruneKeepsFilledNode(t: Tree)
    requires NoHollowChildren(t)
    ensures Prune(t) == t
  {
  }

  // ---------------------------------------------------------------------------
  // collapse_rightmost
  // ---------------------------------------------------------------------------

  /** Every value of a node's left subtree is a value of the node. */
  lemma LeftValuesInside(t: Tree)
    ensures SubtreeValues(t.left) <= Values(t)
  {
  }

  /** In an ordered tree the rightmost node holds the largest value. */
  lemma {:induction false} RightmostIsMaximum(t: Tree)
    requires Ordered(t) && NoHollowChildren(t) && t.val.Some?
    ensures RightmostNode(t).val.Some?
    ensures RightmostNode(t).val.value in Values(t)
    ensures forall y :: y in Values(t) ==> y <= RightmostNode(t).val.value
    ensures RightmostNode(t).val.value !in SubtreeValues(RightmostNode(t).left)
  {
    OrderedSides(t);
    if t.right.Some? {
      RightmostIsMaximum(t.right.value);
    }
  }

  /**
   * One step of `collapse_rightmost` below a node: putting, in place of its
   * right child, what the collapse of that child left (`u`), then pruning,
   * takes `m` and `dropped` out of the node and keeps it ordered.
   */
  lemma CollapseStep(t: Tree, u: Tree, m: int, dropped: set<int>)
    requires Ordered(t) && NoHollowChildren(t) && t.val.Some? && t.right.Some?
    requires Ordered(u) && NoHollowChildren(u)
    requires m in Values(t.right.value) && dropped <= Values(t.right.value)
    requires u.val.None? ==> Values(t.right.value) == {m} + dropped
    requires u.val.Some? ==> Values(u) == Values(t.right.value) - {m} - dropped
    ensures Ordered(Prune(t.(right := Some(u)))) && NoHollowChildren(Prune(t.(right := Some(u))))
    ensures Values(Prune(t.(right := Some(u)))) == Values(t) - {m} - dropped
    ensures Prune(t.(right := Some(u))).left == t.left
    ensures Prune(t.(right := Some(u))).val == t.val
  {
    var x, c := t.val.value, t.right.value;
    var left := SubtreeValues(t.left);
    assert Values(t) == {x} + Values(c) + left;
    assert x !in Values(c) && forall z :: z in left ==> z !in Values(c) && z != x by {
      OrderedSides(t);
    }
    SetAlgebra(x, m, Values(c), left, dropped);
    if u.val.None? {
      assert Prune(t.(right := Some(u))) == t.(right := None);
      assert Values(c) - {m} - dropped == {};
    } else {
      assert Prune(t.(right := Some(u))) == t.(right := Some(u));
      assert forall y :: y in Values(u) ==> x < y by {
        OrderedSides(t);
      }
    }
  }

  /**
   * `collapse_rightmost` returns the largest value and takes it out. When the
   * rightmost node is below the call's node, that node is pruned away by its
   * parent, and so is the left subtree it still held; when the call's node is
   * itself the rightmost one, it stays in place, valueless, with its left subtree.
   */
  lemma {:induction false} CollapseRightmostTakesMaximum(t: Tree)
    requires Ordered(t) && NoHollowChildren(t) && t.val.Some?
    ensures RightmostNode(t).val.Some?
    ensures CollapseRightmost(t).ret == RightmostNode(t).val
    ensures Values(CollapseRightmost(t).tree)
         == Values(t) - {RightmostNode(t).val.value}
            - (if t.right.None? then {} else SubtreeValues(RightmostNode(t).left))
    ensures Ordered(CollapseRightmost(t).tree) && NoHollowChildren(CollapseRightmost(t).tree)
    ensures CollapseRightmost(t).tree.left == t.left
    ensures CollapseRightmost(t).tree.val == (if t.right.None? then None else t.val)
  {
    match t.right
    case None =>
      OrderedSides(t);
      assert t.val.value !in SubtreeValues(t.left);
    case Some(c) =>
      RightmostIsMaximum(c);
      CollapseRightmostTakesMaximum(c);
      LeftValuesInside(RightmostNode(c));
      var m := RightmostNode(c).val.value;
      var sub := CollapseRightmost(c);
      var dropped := SubtreeValues(RightmostNode(c).left);
      assert RightmostNode(t) == RightmostNode(c);
      assert CollapseRightmost(t) == Step(sub.ret, Prune(t.(right := Some(sub.tree))));
      if c.right.None? {
        assert Values(c) == {m} + dropped;
      }
      CollapseStep(t, sub.tree, m, dropped);
  }

  // ---------------------------------------------------------------------------
  // remove: the three shapes at the matched node
  // ---------------------------------------------------------------------------

  /** At the node holding the value, `remove` takes the value, reshapes and prunes. */
  lemma RemoveAtMatch(t: Tree)
    requires t.val.Some?
    ensures Remove(t, t.val.value) == Step(Ok(t.val.value), Prune(Reshape(t.(val := None))))
  {
  }

  /** Removing the value of a node without children leaves it fully empty. */
  lemma RemoveMatchedLeaf(t: Tree)
    requires t.val.Some? && t.left.None? && t.right.None?
    ensures Remove(t, t.val.value) == Step(Ok(t.val.value), New())
  {
  }

  /** Removing the value of a node with one child makes the node that child. */
  lemma RemoveMatchedOneChild(t: Tree)
    requires Valid(t) && t.val.Some?
    requires t.left.None? != t.right.None?
    ensures var c := if t.left.Some? then t.left.value else t.right.value;
            Remove(t, t.val.value) == Step(Ok(t.val.value), c)
            && Valid(c) && Values(c) == Values(t) - {t.val.value}
  {
    ChildrenValid(t);
    OrderedSides(t);
    var c := if t.left.Some? then t.left.value else t.right.value;
    assert t.val.value !in Values(c);
  }

  /**
   * The two-children reshaping on its own: with every value of `l` below `x`
   * and every value of `r` above it, the node promotes the largest value of
   * `l`, keeps `r`, and keeps what is left of `l` unless `l` itself was
   * emptied, in which case `l`'s left subtree goes with it.
   */
  lemma PromoteRightmost(l: Tree, r: Tree, x: int)
    requires Valid(l) && l.val.Some? && Valid(r) && r.val.Some?
    requires forall y :: y in Values(l) ==> y < x
    requires forall y :: y in Values(r) ==> x < y
    ensures RightmostNode(l).val.Some?
    ensures Prune(Reshape(Tree(None, Some(l), Some(r)))).val == RightmostNode(l).val
    ensures Prune(Reshape(Tree(None, Some(l), Some(r)))).right == Some(r)
    ensures Prune(Reshape(Tree(None, Some(l), Some(r)))).left.Some? <==> l.right.Some?
    ensures Valid(Prune(Reshape(Tree(None, Some(l), Some(r)))))
    ensures Values(Prune(Reshape(Tree(None, Some(l), Some(r)))))
         == Values(l) + Values(r) - SubtreeValues(RightmostNode(l).left)
  {
    RightmostIsMaximum(l);
    CollapseRightmostTakesMaximum(l);
    LeftValuesInside(RightmostNode(l));
    var m := RightmostNode(l).val.value;
    var c := CollapseRightmost(l);
    var dropped := SubtreeValues(RightmostNode(l).left);
    var kept := if l.right.None? then None else Some(c.tree);
    assert Prune(Reshape(Tree(None, Some(l), Some(r)))) == Tree(Some(m), kept, Some(r)) by {
      assert Reshape(Tree(None, Some(l), Some(r))) == Tree(c.ret, Some(c.tree), Some(r));
    }
    assert SubtreeValues(kept) == Values(l) - {m} - dropped by {
      if l.right.None? {
        assert RightmostNode(l) == l;
        assert Values(l) == {m} + dropped;
      }
    }
    PromotedNode(m, kept, r);
    Regroup(m, Values(l), Values(r), dropped);
  }

  /** Promoting `m` out of `side` leaves the same values as taking out only `dropped`. */
  lemma Regroup(m: int, side: set<int>, other: set<int>, dropped: set<int>)
    requires m in side && m !in dropped && dropped <= side
    requires forall z :: z in other ==> z !in side
    ensures {m} + (side - {m} - dropped) + other == side + other - dropped
  {
    forall z ensures z in {m} + (side - {m} - dropped) + other <==> z in side + other - dropped {
      if z in other {
        assert z !in side;
      }
    }
  }

  /** A node holding `m` over `left` and `r`, ordered around `m`, is well formed. */
  lemma PromotedNode(m: int, left: Option<Tree>, r: Tree)
    requires left.Some? ==> Ordered(left.value) && NoHollowChildren(left.value) && left.value.val.Some?
    requires Valid(r) && r.val.Some?
    requires forall y :: y in SubtreeValues(left) ==> y < m
    requires forall y :: y in Values(r) ==> m < y
    ensures Valid(Tree(Some(m), left, Some(r)))
    ensures Values(Tree(Some(m), left, Some(r))) == {m} + SubtreeValues(left) + Values(r)
  {
    assert SubtreeValues(Some(r)) == Values(r);
  }

  /**
   * Removing the value of a node with two children promotes the largest value
   * of the left subtree, keeps the right subtree as it was, and loses whatever
   * hung to the left of the promoted node.
   */
  lemma RemoveMatchedTwoChildren(t: Tree)
    requires Valid(t) && t.val.Some? && t.left.Some? && t.right.Some?
    ensures RightmostNode(t.left.value).val.Some?
    ensures Remove(t, t.val.value).ret == Ok(t.val.value)
    ensures Remove(t, t.val.value).tree.val == RightmostNode(t.left.value).val
    ensures forall y :: y in Values(t.left.value) ==> y <= RightmostNode(t.left.value).val.value
    ensures Remove(t, t.val.value).tree.right == t.right
    ensures Remove(t, t.val.value).tree.left.Some? <==> t.left.value.right.Some?
    ensures Valid(Remove(t, t.val.value).tree)
    ensures Values(Remove(t, t.val.value).tree)
         == Values(t) - {t.val.value} - SubtreeValues(RightmostNode(t.left.value).left)
  {
    var x, l, r := t.val.value, t.left.value, t.right.value;
    ChildrenValid(t);
    OrderedSides(t);
    RightmostIsMaximum(l);
    PromoteRightmost(l, r, x);
    LeftValuesInside(RightmostNode(l));
    RemoveAtMatch(t);
    var dropped := SubtreeValues(RightmostNode(l).left);
    assert Values(t) == {x} + Values(l) + Values(r);
    TakeNodeValue(x, Values(l), Values(r), dropped);
  }

  /** Taking a node's own value out of its values leaves the values of its two sides. */
  lemma TakeNodeValue(x: int, left: set<int>, right: set<int>, dropped: set<int>)
    requires x !in left && x !in right
    ensures left + right - dropped == ({x} + left + right) - {x} - dropped
  {
    forall z ensures z in left + right - dropped <==> z in ({x} + left + right) - {x} - dropped {
    }
  }

  // ---------------------------------------------------------------------------
  // remove: the whole operation
  // ---------------------------------------------------------------------------

  /**
   * A failed `remove` returns the value it was given and leaves the tree as it
   * was; it fails whenever the value is absent.
   */
  lemma {:induction false} RemoveFailureIsAtomic(t: Tree, v: int)
    requires NoHollowChildren(t)
    ensures v !in Values(t) ==> Remove(t, v).ret == Err(v)
    ensures Remove(t, v).ret.Err? ==> Remove(t, v) == Step(Err(v), t)
  {
    match t.val
    case None =>
    case Some(x) =>
      if v < x {
        if t.left.Some? {
          RemoveFailureIsAtomic(t.left.value, v);
        }
      } else if x < v {
        if t.right.Some? {
          RemoveFailureIsAtomic(t.right.value, v);
        }
      }
  }

  /**
   * Taking `v` and `dropped` out of one side of a node leaves the node's value
   * and the other side alone, when the sides are separated by the node's value.
   */
  lemma SetAlgebra(x: int, v: int, side: set<int>, other: set<int>, dropped: set<int>)
    requires v in side && dropped <= side && x !in side
    requires forall z :: z in other ==> z !in side && z != x
    ensures {x} + (side - {v} - dropped) + other == ({x} + side + other) - {v} - dropped
  {
    forall z
      ensures z in {x} + (side - {v} - dropped) + other <==> z in ({x} + side + other) - {v} - dropped
    {
      if z in other {
        assert z !in side;
      }
    }
  }

  /** The values `remove` may discard besides its argument are values of the tree. */
  lemma {:induction false} DroppedInside(t: Tree, v: int)
    ensures DroppedByRemove(t, v) <= Values(t)
  {
    match t.val
    case None =>
    case Some(x) =>
      if v < x {
        if t.left.Some? {
          DroppedInside(t.left.value, v);
        }
      } else if x < v {
        if t.right.Some? {
          DroppedInside(t.right.value, v);
        }
      } else if t.left.Some? {
        LeftValuesInside(RightmostNode(t.left.value));
      }
  }

  /**
   * Putting, in place of the left child, a well-formed tree holding some of
   * its values, then pruning, keeps the node well formed.
   */
  lemma ShrinkLeft(t: Tree, u: Tree)
    requires Valid(t) && t.val.Some? && t.left.Some?
    requires Valid(u) && Values(u) <= Values(t.left.value)
    ensures Valid(Prune(t.(left := Some(u))))
    ensures Values(Prune(t.(left := Some(u)))) == {t.val.value} + Values(u) + SubtreeValues(t.right)
  {
    OrderedSides(t);
    if u.val.None? {
      assert Prune(t.(left := Some(u))) == t.(left := None);
    } else {
      assert Prune(t.(left := Some(u))) == t.(left := Some(u));
    }
  }

  /** The mirror image of `ShrinkLeft`. */
  lemma ShrinkRight(t: Tree, u: Tree)
    requires Valid(t) && t.val.Some? && t.right.Some?
    requires Valid(u) && Values(u) <= Values(t.right.value)
    ensures Valid(Prune(t.(right := Some(u))))
    ensures Values(Prune(t.(right := Some(u)))) == {t.val.value} + SubtreeValues(t.left) + Values(u)
  {
    OrderedSides(t);
    if u.val.None? {
      assert Prune(t.(right := Some(u))) == t.(right := None);
    } else {
      assert Prune(t.(right := Some(u))) == t.(right := Some(u));
    }
  }

  /**
   * Putting, in place of the left child, a well-formed tree that holds that
   * child's values without `v` and `dropped`, then pruning, takes exactly
   * those values out of the node.
   */
  lemma DescendLeft(t: Tree, u: Tree, v: int, dropped: set<int>)
    requires Valid(t) && t.val.Some? && v < t.val.value && t.left.Some?
    requires v in Values(t.left.value) && dropped <= Values(t.left.value)
    requires Valid(u) && Values(u) == Values(t.left.value) - {v} - dropped
    ensures Valid(Prune(t.(left := Some(u))))
    ensures Values(Prune(t.(left := Some(u)))) == Values(t) - {v} - dropped
  {
    var x, c := t.val.value, t.left.value;
    ShrinkLeft(t, u);
    assert Values(t) == {x} + Values(c) + SubtreeValues(t.right);
    assert x !in Values(c) && forall z :: z in SubtreeValues(t.right) ==> z !in Values(c) && z != x by {
      OrderedSides(t);
    }
    SetAlgebra(x, v, Values(c), SubtreeValues(t.right), dropped);
  }

  /** One descent step of `remove` into the left child, given what the call on the child did. */
  lemma RemoveInLeft(t: Tree, v: int)
    requires Valid(t) && t.val.Some? && v < t.val.value && t.left.Some?
    requires Remove(t.left.value, v).ret == Ok(v)
    requires Valid(Remove(t.left.value, v).tree)
    requires Values(Remove(t.left.value, v).tree)
          == Values(t.left.value) - {v} - DroppedByRemove(t.left.value, v)
    requires v in Values(t.left.value)
    ensures Remove(t, v).ret == Ok(v)
    ensures Valid(Remove(t, v).tree)
    ensures Values(Remove(t, v).tree) == Values(t) - {v} - DroppedByRemove(t, v)
  {
    var c := t.left.value;
    var sub := Remove(c, v);
    assert Remove(t, v) == Step(Ok(v), Prune(t.(left := Some(sub.tree))));
    assert DroppedByRemove(t, v) == DroppedByRemove(c, v) by {
      assert Find(t, v) == Find(c, v);
    }
    DroppedInside(c, v);
    DescendLeft(t, sub.tree, v, DroppedByRemove(c, v));
  }

  /**
   * Putting, in place of the right child, a well-formed tree that holds that
   * child's values without `v` and `dropped`, then pruning, takes exactly
   * those values out of the node.
   */
  lemma DescendRight(t: Tree, u: Tree, v: int, dropped: set<int>)
    requires Valid(t) && t.val.Some? && t.val.value < v && t.right.Some?
    requires v in Values(t.right.value) && dropped <= Values(t.right.value)
    requires Valid(u) && Values(u) == Values(t.right.value) - {v} - dropped
    ensures Valid(Prune(t.(right := Some(u))))
    ensures Values(Prune(t.(right := Some(u)))) == Values(t) - {v} - dropped
  {
    var x, c := t.val.value, t.right.value;
    ShrinkRight(t, u);
    assert Values(t) == {x} + SubtreeValues(t.left) + Values(c);
    assert x !in Values(c) && forall z :: z in SubtreeValues(t.left) ==> z !in Values(c) && z != x by {
      OrderedSides(t);
    }
    SetAlgebra(x, v, Values(c), SubtreeValues(t.left), dropped);
  }

  /** One descent step of `remove` into the right child, given what the call on the child did. */
  lemma RemoveInRight(t: Tree, v: int)
    requires Valid(t) && t.val.Some? && t.val.value < v && t.right.Some?
    requires Remove(t.right.value, v).ret == Ok(v)
    requires Valid(Remove(t.right.value, v).tree)
    requires Values(Remove(t.right.value, v).tree)
          == Values(t.right.value) - {v} - DroppedByRemove(t.right.value, v)
    requires v in Values(t.right.value)
    ensures Remove(t, v).ret == Ok(v)
    ensures Valid(Remove(t, v).tree)
    ensures Values(Remove(t, v).tree) == Values(t) - {v} - DroppedByRemove(t, v)
  {
    var c := t.right.value;
    var sub := Remove(c, v);
    assert Remove(t, v) == Step(Ok(v), Prune(t.(right := Some(sub.tree))));
    assert DroppedByRemove(t, v) == DroppedByRemove(c, v) by {
      assert Find(t, v) == Find(c, v);
    }
    DroppedInside(c, v);
    DescendRight(t, sub.tree, v, DroppedByRemove(c, v));
  }

  /**
   * Removing a value the tree holds succeeds with it, keeps the tree well
   * formed, and takes out that value and exactly the values `DroppedByRemove`
   * names.
   */
  lemma {:induction false} RemovePresent(t: Tree, v: int)
    requires Valid(t)
    requires v in Values(t)
    ensures Remove(t, v).ret == Ok(v)
    ensures Valid(Remove(t, v).tree)
    ensures Values(Remove(t, v).tree) == Values(t) - {v} - DroppedByRemove(t, v)
  {
    OrderedSides(t);
    var x := t.val.value;
    if v < x {
      ChildrenValid(t);
      RemovePresent(t.left.value, v);
      RemoveInLeft(t, v);
    } else if x < v {
      ChildrenValid(t);
      RemovePresent(t.right.value, v);
      RemoveInRight(t, v);
    } else if t.left.Some? && t.right.Some? {
      RemoveMatchedTwoChildren(t);
    } else if t.left.Some? || t.right.Some? {
      RemoveMatchedOneChild(t);
    } else {
      RemoveMatchedLeaf(t);
    }
  }

  /** Whatever `remove` returns, the value is gone afterwards and nothing new appears. */
  lemma RemoveLeavesSubset(t: Tree, v: int)
    requires Valid(t)
    ensures Valid(Remove(t, v).tree)
    ensures Values(Remove(t, v).tree) <= Values(t) - {v}
  {
    if v in Values(t) {
      RemovePresent(t, v);
    } else {
      RemoveFailureIsAtomic(t, v);
    }
  }

  /** A value with smaller values on one side and larger on the other: no two of them coincide. */
  lemma SeparatedCount(x: int, l: set<int>, r: set<int>)
    requires forall y :: y in l ==> y < x
    requires forall y :: y in r ==> x < y
    ensures |{x} + l + r| == 1 + |l| + |r|
  {
    assert l * r == {} by {
      forall y | y in l ensures y !in r {
        assert y < x;
      }
    }
    assert {x} * (l + r) == {};
  }

  /** On a well-formed tree the number of value-holding nodes is the number of values. */
  lemma {:induction false} SizeIsCount(t: Tree)
    requires Valid(t)
    ensures Size(t) == |Values(t)|
  {
    ChildrenValid(t);
    if t.left.Some? {
      SizeIsCount(t.left.value);
    }
    if t.right.Some? {
      SizeIsCount(t.right.value);
    }
    if t.val.Some? {
      SeparatedCount(t.val.value, SubtreeValues(t.left), SubtreeValues(t.right));
    }
  }

  /**
   * When the predecessor of the removed value has no left subtree, `remove`
   * takes out exactly one value and one value-holding node.
   */
  lemma RemoveExactlyOne(t: Tree, v: int)
    requires Valid(t)
    requires v in Values(t)
    requires PredecessorHasNoLeft(t, v)
    ensures Values(Remove(t, v).tree) == Values(t) - {v}
    ensures Size(Remove(t, v).tree) == Size(t) - 1
  {
    RemovePresent(t, v);
    SizeIsCount(t);
    SizeIsCount(Remove(t, v).tree);
  }

  /** After a successful `remove(v)`, removing `v` again fails and inserting it succeeds. */
  lemma RemoveThenReinsert(t: Tree, v: int)
    requires Valid(t)
    requires v in Values(t)
    ensures var u := Remove(t, v).tree;
            Remove(u, v) == Step(Err(v), u) && Insert(u, v).ret == Ok(v)
  {
    RemovePresent(t, v);
    var u := Remove(t, v).tree;
    RemoveFailureIsAtomic(u, v);
    TreeInsert.InsertFresh(u, v);
  }

  /**
   * The values `remove` can lose: removing 5 from the tree 5 (3 (1, -), 8)
   * promotes 3, whose left subtree 1 is pruned together with its emptied node.
   */
  lemma RemoveLosesPredecessorLeft()
    ensures var t := Tree(Some(5), Some(Tree(Some(3), Some(Leaf(1)), None)), Some(Leaf(8)));
            && Valid(t)
            && Remove(t, 5) == Step(Ok(5), Tree(Some(3), None, Some(Leaf(8))))
            && 1 in Values(t) && 1 !in Values(Remove(t, 5).tree)
  {
  }
}
