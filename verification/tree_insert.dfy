/** What `BinaryTree::insert` does to the values, the ordering and the shape of a tree. */
module TreeInsert {
  import opened Wrappers
  import opened Trees

  /** Inserting into an empty node stores the value there and succeeds. */
  lemma InsertIntoEmpty(v: int)
    ensures Insert(New(), v) == Step(Ok(v), Leaf(v))
    ensures Values(Leaf(v)) == {v}
  {
  }

  /**
   * Inserting a value the tree does not hold succeeds with that value, adds
   * exactly it, and keeps the tree ordered and free of valueless children.
   */
  lemma {:induction false} InsertFresh(t: Tree, v: int)
    requires Valid(t)
    requires v !in Values(t)
    ensures Insert(t, v).ret == Ok(v)
    ensures Values(Insert(t, v).tree) == Values(t) + {v}
    ensures Valid(Insert(t, v).tree)
  {
    ChildrenValid(t);
    match t.val
    case None =>
    case Some(x) =>
      if v < x {
        if t.left.Some? {
          InsertFresh(t.left.value, v);
        }
      } else if x < v {
        if t.right.Some? {
          InsertFresh(t.right.value, v);
        }
      }
  }

  /** Inserting a value the tree already holds fails with it and changes nothing. */
  lemma {:induction false} InsertDuplicate(t: Tree, v: int)
    requires Valid(t)
    requires v in Values(t)
    ensures Insert(t, v) == Step(Err(v), t)
  {
    ChildrenValid(t);
    match t.val
    case None =>
    case Some(x) =>
      if v < x {
        InsertDuplicate(t.left.value, v);
      } else if x < v {
        InsertDuplicate(t.right.value, v);
      }
  }

  /** On a well-formed tree, `insert` fails exactly when the value is already there. */
  lemma InsertFailsIffPresent(t: Tree, v: int)
    requires Valid(t)
    ensures Insert(t, v).ret.Err? <==> v in Values(t)
    ensures Valid(Insert(t, v).tree)
    ensures Values(Insert(t, v).tree) == Values(t) + {v}
  {
    if v in Values(t) {
      InsertDuplicate(t, v);
    } else {
      InsertFresh(t, v);
    }
  }

  /** A second `insert` of the same value always fails and leaves the tree as the first left it. */
  lemma InsertTwiceFails(t: Tree, v: int)
    requires Valid(t)
    ensures var u := Insert(t, v).tree; Insert(u, v) == Step(Err(v), u)
  {
    InsertFailsIffPresent(t, v);
    InsertDuplicate(Insert(t, v).tree, v);
  }

  /** Every node of `t` is kept by `Embeds` itself. */
  lemma {:induction false} EmbedsReflexive(t: Tree)
    ensures Embeds(t, t)
  {
    if t.left.Some? {
      EmbedsReflexive(t.left.value);
    }
    if t.right.Some? {
      EmbedsReflexive(t.right.value);
    }
  }

  /** `insert` never moves or rewrites a node that already held a value. */
  lemma {:induction false} InsertKeepsNodes(t: Tree, v: int)
    ensures Embeds(t, Insert(t, v).tree)
  {
    EmbedsReflexive(t);
    match t.val
    case None =>
    case Some(x) =>
      if v < x {
        if t.left.Some? {
          InsertKeepsNodes(t.left.value, v);
        }
      } else if x < v {
        if t.right.Some? {
          InsertKeepsNodes(t.right.value, v);
        }
      }
  }

  /**
   * A successful `insert` creates exactly one value-holding node, and it is the
   * leaf the comparisons for `v` lead to.
   */
  lemma {:induction false} InsertAddsOneLeaf(t: Tree, v: int)
    requires Valid(t)
    requires v !in Values(t)
    ensures Size(Insert(t, v).tree) == Size(t) + 1
    ensures Find(Insert(t, v).tree, v) == Some(Leaf(v))
  {
    ChildrenValid(t);
    match t.val
    case None =>
    case Some(x) =>
      if v < x {
        if t.left.Some? {
          InsertAddsOneLeaf(t.left.value, v);
        }
      } else if x < v {
        if t.right.Some? {
          InsertAddsOneLeaf(t.right.value, v);
        }
      }
  }
}
