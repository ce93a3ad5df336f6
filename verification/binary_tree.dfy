/**
 * The in-place interface of src/binarytree.rs: a `BinaryTree` object owns the
 * root node, and `insert` and `remove` update it through `&mut self`. Each
 * method runs the node-level operation of module Trees on the root and stores
 * the node the call leaves behind; its contract says what that does to the
 * set of values held.
 */
module BinaryTrees {
  import opened Wrappers
  import opened Trees
  import TreeInsert
  import TreeRemove

  class BinaryTree {
    var root: Tree

    ghost predicate Valid()
      reads this
    {
      Trees.Valid(root)
    }

    /** The set of values the tree holds. */
    function Contents(): set<int>
      reads this
    {
      Values(root)
    }

    /** `BinaryTree::new`: a tree holding nothing. */
    constructor ()
      ensures Valid() && Contents() == {}
      ensures root == New()
    {
      root := New();
    }

    /**
     * `insert(val)`: succeeds with `val` and adds it when it is absent, fails
     * with the stored equal value and changes nothing when it is present.
     */
    method Insert(val: int) returns (r: Result<int, int>)
      requires Valid()
      modifies this
      ensures Valid()
      ensures Step(r, root) == Trees.Insert(old(root), val)
      ensures r == Ok(val) <==> val !in old(Contents())
      ensures r == Err(val) <==> val in old(Contents())
      ensures r.Err? ==> root == old(root)
      ensures Contents() == old(Contents()) + {val}
      ensures r.Ok? ==> Size(root) == Size(old(root)) + 1 && Embeds(old(root), root)
    {
      TreeInsert.InsertFailsIffPresent(root, val);
      TreeInsert.InsertKeepsNodes(root, val);
      if val !in Values(root) {
        TreeInsert.InsertAddsOneLeaf(root, val);
      }
      var s := Trees.Insert(root, val);
      root := s.tree;
      r := s.ret;
    }

    /**
     * `remove(val)`: succeeds with `val` when it is present, fails with `val`
     * and changes nothing when it is absent. A success takes out `val` and the
     * values `DroppedByRemove` names, which are none unless the in-order
     * predecessor of `val` had a left subtree.
     */
    method Remove(val: int) returns (r: Result<int, int>)
      requires Valid()
      modifies this
      ensures Valid()
      ensures Step(r, root) == Trees.Remove(old(root), val)
      ensures r == Ok(val) <==> val in old(Contents())
      ensures r == Err(val) <==> val !in old(Contents())
      ensures r.Err? ==> root == old(root)
      ensures Contents() == old(Contents()) - {val} - DroppedByRemove(old(root), val)
      ensures Contents() <= old(Contents()) - {val}
      ensures r.Ok? && PredecessorHasNoLeft(old(root), val) ==>
                Contents() == old(Contents()) - {val} && Size(root) == Size(old(root)) - 1
    {
      TreeRemove.RemoveFailureIsAtomic(root, val);
      if val in Values(root) {
        TreeRemove.RemovePresent(root, val);
        if PredecessorHasNoLeft(root, val) {
          TreeRemove.RemoveExactlyOne(root, val);
        }
      }
      var s := Trees.Remove(root, val);
      root := s.tree;
      r := s.ret;
    }
  }

  // ---------------------------------------------------------------------------
  // The scenarios of the `#[test]` functions in src/binarytree.rs, as clients.
  // ---------------------------------------------------------------------------

  method InsertScenario()
  {
    var t := new BinaryTree();
    var r := t.Insert(3);
    assert r.Ok?;
    r := t.Insert(5);
    assert r.Ok?;
    assert t.root.val == Some(3);
    assert t.root.right == Some(Leaf(5));
  }

  method DuplicateScenario()
  {
    var t := new BinaryTree();
    var r := t.Insert(3);
    assert r.Ok?;
    r := t.Insert(3);
    assert r == Err(3);
    r := t.Insert(3);
    assert r.Err?;
    r := t.Insert(5);
    assert r.Ok?;
    r := t.Insert(5);
    assert r.Err?;
    r := t.Insert(3);
    assert r.Err?;
    r := t.Insert(5);
    assert r.Err?;
    assert t.Contents() == {3, 5};
  }

  method RemoveNoChildrenScenario()
  {
    var t := new BinaryTree();
    var r := t.Insert(3);
    r := t.Insert(5);
    assert t.root == Tree(Some(3), None, Some(Leaf(5)));
    r := t.Remove(5);
    assert r.Ok?;
    assert t.root.left.None? && t.root.right.None?;
    r := t.Remove(3);
    assert r.Ok?;
    assert t.root.val.None?;
  }

  method RemoveLeftChildScenario()
  {
    var t := new BinaryTree();
    var r := t.Insert(3);
    r := t.Insert(1);
    assert t.root == Tree(Some(3), Some(Leaf(1)), None);
    r := t.Remove(3);
    assert r.Ok?;
    assert t.root == Leaf(1);
  }

  method RemoveRightChildScenario()
  {
    var t := new BinaryTree();
    var r := t.Insert(3);
    r := t.Insert(5);
    r := t.Remove(3);
    assert r.Ok?;
    assert t.root == Leaf(5);
  }

  method RemoveBothChildrenScenario()
  {
    var t := new BinaryTree();
    var r := t.Insert(3);
    r := t.Insert(5);
    r := t.Insert(1);
    assert t.root == Tree(Some(3), Some(Leaf(1)), Some(Leaf(5)));
    r := t.Remove(3);
    assert r.Ok?;
    assert t.root == Tree(Some(1), None, Some(Leaf(5)));
  }

  method RemoveNonexistentScenario()
  {
    var t := new BinaryTree();
    var r := t.Remove(14);
    assert r.Err?;
    r := t.Insert(3);
    r := t.Insert(5);
    r := t.Insert(1);
    r := t.Remove(14);
    assert r.Err?;
    r := t.Remove(0);
    assert r.Err?;
    r := t.Insert(14);
    assert r.Ok?;
    r := t.Remove(14);
    assert r.Ok?;
  }

  method RemoveLeftScenario()
  {
    var t := new BinaryTree();
    var r := t.Insert(3);
    r := t.Insert(5);
    r := t.Insert(1);
    r := t.Remove(1);
    assert r.Ok?;
  }

  method RemoveRecursiveCollapseScenario()
  {
    var t := new BinaryTree();
    var r := t.Insert(5);
    r := t.Insert(3);
    r := t.Insert(1);
    r := t.Insert(4);
    r := t.Insert(8);
    assert t.root == Tree(Some(5), Some(Tree(Some(3), Some(Leaf(1)), Some(Leaf(4)))), Some(Leaf(8)));
    r := t.Remove(5);
    assert r.Ok?;
    assert t.root == Tree(Some(4), Some(Tree(Some(3), Some(Leaf(1)), None)), Some(Leaf(8)));
  }
}
