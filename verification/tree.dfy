/**
 * The unbalanced binary search tree of src/binarytree.rs.
 *
 * A `BinaryTree<T>` value is a node with an optional value and two optional,
 * exclusively owned children. Ownership makes every child a plain value, so a
 * node is a datatype here, and each `&mut self` method becomes a function from
 * the node before the call to what the call returns together with the node
 * after it (a `Step`). The element type `T: Ord + Copy` is `int`; `cmp`
 * answering `Equal` means the two ints are equal.
 */
module Trees {
  import opened Wrappers

  datatype Tree = Tree(val: Option<int>, left: Option<Tree>, right: Option<Tree>)

  /** What a `&mut self` call returns, and the node as the call leaves it. */
  datatype Step<R> = Step(ret: R, tree: Tree)

  /** The node `insert` creates for a value that lands in an empty slot. */
  function Leaf(v: int): (t: Tree)
    ensures Valid(t) && Values(t) == {v} && Size(t) == 1 && Find(t, v) == Some(t)
  {
    Tree(Some(v), None, None)
  }

  // ---------------------------------------------------------------------------
  // The abstract view: values held, ordering, and the shape invariants.
  // ---------------------------------------------------------------------------

  /** Every value held anywhere below and at `t` (valueless nodes contribute none). */
  function Values(t: Tree): set<int>
  {
    (if t.val.Some? then {t.val.value} else {}) + SubtreeValues(t.left) + SubtreeValues(t.right)
  }

  function SubtreeValues(c: Option<Tree>): set<int>
  {
    if c.None? then {} else Values(c.value)
  }

  /** Strict search-tree ordering below every node that holds a value. */
  predicate Ordered(t: Tree)
  {
    && (t.val.Some? ==>
          && (forall y :: y in SubtreeValues(t.left) ==> y < t.val.value)
          && (forall y :: y in SubtreeValues(t.right) ==> t.val.value < y))
    && (t.left.Some? ==> Ordered(t.left.value))
    && (t.right.Some? ==> Ordered(t.right.value))
  }

  /** No child slot anywhere below `t` holds a node without a value. */
  predicate NoHollowChildren(t: Tree)
  {
    && (t.left.Some? ==> t.left.value.val.Some? && NoHollowChildren(t.left.value))
    && (t.right.Some? ==> t.right.value.val.Some? && NoHollowChildren(t.right.value))
  }

  /**
   * The shape every tree has between calls: ordered, no valueless node in a
   * child slot, and a valueless root has no children.
   */
  predicate Valid(t: Tree)
  {
    && Ordered(t)
    && NoHollowChildren(t)
    && (t.val.None? ==> t.left.None? && t.right.None?)
  }

  /** The children of a well-formed node are well-formed trees themselves. */
  lemma ChildrenValid(t: Tree)
    requires Valid(t)
    ensures t.left.Some? ==> Valid(t.left.value)
    ensures t.right.Some? ==> Valid(t.right.value)
  {
  }

  /** The ordering of a node, stated over its children's values. */
  lemma OrderedSides(t: Tree)
    requires Ordered(t) && t.val.Some?
    ensures t.left.Some? ==> forall y :: y in Values(t.left.value) ==> y < t.val.value
    ensures t.right.Some? ==> forall y :: y in Values(t.right.value) ==> t.val.value < y
  {
    if t.left.Some? {
      assert SubtreeValues(t.left) == Values(t.left.value);
    }
    if t.right.Some? {
      assert SubtreeValues(t.right) == Values(t.right.value);
    }
  }

  /** Number of nodes holding a value. */
  function Size(t: Tree): nat
  {
    (if t.val.Some? then 1 else 0)
    + (if t.left.Some? then Size(t.left.value) else 0)
    + (if t.right.Some? then Size(t.right.value) else 0)
  }

  /** The node the comparisons of `insert` and `remove` lead to for `v`, if it holds `v`. */
  function Find(t: Tree, v: int): (f: Option<Tree>)
    ensures f.Some? ==> f.value.val == Some(v) && Values(f.value) <= Values(t)
  {
    match t.val
    case None => None
    case Some(x) =>
      if v < x then (if t.left.Some? then Find(t.left.value, v) else None)
      else if x < v then (if t.right.Some? then Find(t.right.value, v) else None)
      else Some(t)
  }

  /** The node reached by always going right: the one `collapse_rightmost` empties. */
  function RightmostNode(t: Tree): (n: Tree)
    ensures n.right.None?
    ensures Values(n) <= Values(t)
  {
    if t.right.None? then t else RightmostNode(t.right.value)
  }

  /**
   * The values a successful `remove(v)` discards besides `v`: when the node
   * holding `v` has two children, whatever hangs to the left of its in-order
   * predecessor (the rightmost node of its left subtree); nothing otherwise.
   */
  function DroppedByRemove(t: Tree, v: int): set<int>
  {
    match Find(t, v)
    case None => {}
    case Some(n) =>
      if n.left.Some? && n.right.Some? then SubtreeValues(RightmostNode(n.left.value).left) else {}
  }

  /**
   * The in-order predecessor of the node holding `v` (when that node has two
   * children) has no left subtree, so `remove(v)` discards nothing else.
   */
  predicate PredecessorHasNoLeft(t: Tree, v: int)
  {
    match Find(t, v)
    case None => true
    case Some(n) => n.left.Some? && n.right.Some? ==> RightmostNode(n.left.value).left.None?
  }

  /** `u` keeps every value-holding node of `t`, at the same position and with the same value. */
  predicate Embeds(t: Tree, u: Tree)
  {
    && (t.val.Some? ==> u.val == t.val)
    && (t.left.Some? ==> u.left.Some? && Embeds(t.left.value, u.left.value))
    && (t.right.Some? ==> u.right.Some? && Embeds(t.right.value, u.right.value))
  }

  // ---------------------------------------------------------------------------
  // The operations of `impl BinaryTree`.
  // ---------------------------------------------------------------------------

  /** `BinaryTree::new`. */
  function New(): (t: Tree)
    ensures Valid(t) && Values(t) == {} && Size(t) == 0
  {
    Tree(None, None, None)
  }

  /**
   * `insert`: fill an empty node, otherwise descend by comparison and either
   * hang a new leaf in the empty slot, recurse, or fail with the stored value.
   * A failure from below is passed up as it is (`try!`).
   */
  function Insert(t: Tree, v: int): (s: Step<Result<int, int>>)
    ensures s.ret == Ok(v) || (s.ret == Err(v) && s.tree == t)
  {
    match t.val
    case None => Step(Ok(v), t.(val := Some(v)))
    case Some(x) =>
      if v < x then
        match t.left
        case None => Step(Ok(v), t.(left := Some(Leaf(v))))
        case Some(c) =>
          var s := Insert(c, v);
          Step(if s.ret.Err? then s.ret else Ok(v), t.(left := Some(s.tree)))
      else if x < v then
        match t.right
        case None => Step(Ok(v), t.(right := Some(Leaf(v))))
        case Some(c) =>
          var s := Insert(c, v);
          Step(if s.ret.Err? then s.ret else Ok(v), t.(right := Some(s.tree)))
      else
        Step(Err(x), t)
  }

  /**
   * `prune`: clear each child slot whose node holds no value. Only the child's
   * own value is looked at, not whether it still has children.
   */
  function Prune(t: Tree): (p: Tree)
    ensures p.val == t.val
    ensures p.left.Some? ==> p.left == t.left && p.left.value.val.Some?
    ensures p.right.Some? ==> p.right == t.right && p.right.value.val.Some?
    ensures t.left.Some? && t.left.value.val.Some? ==> p.left == t.left
    ensures t.right.Some? && t.right.value.val.Some? ==> p.right == t.right
  {
    var delLeft := t.left.Some? && t.left.value.val.None?;
    var delRight := t.right.Some? && t.right.value.val.None?;
    Tree(t.val, if delLeft then None else t.left, if delRight then None else t.right)
  }

  /**
   * `collapse_rightmost`: take the value out of the rightmost node, pruning on
   * the way back up. The emptied node keeps its left subtree; its parent's
   * prune then drops it together with that subtree.
   */
  function CollapseRightmost(t: Tree): (s: Step<Option<int>>)
    ensures s.ret == RightmostNode(t).val
    ensures Values(s.tree) <= Values(t)
  {
    match t.right
    case None => Step(t.val, Prune(t.(val := None)))
    case Some(c) =>
      var s := CollapseRightmost(c);
      Step(s.ret, Prune(t.(right := Some(s.tree))))
  }

  /**
   * The reshaping of the matched node in `remove`, after its value has been
   * taken: empty it, adopt the only child's fields, or promote the rightmost
   * value of the left subtree and keep the right subtree as it is.
   */
  function Reshape(t: Tree): (u: Tree)
    ensures Values(u) <= Values(t)
  {
    match (t.left, t.right)
    case (None, None) => Tree(None, None, None)
    case (None, Some(c)) => Tree(c.val, c.left, c.right)
    case (Some(c), None) => Tree(c.val, c.left, c.right)
    case (Some(l), Some(_)) =>
      var s := CollapseRightmost(l);
      Tree(s.ret, Some(s.tree), t.right)
  }

  /**
   * `remove`: fail on an empty node or a missing child, otherwise descend by
   * comparison; on a match take the value and reshape. Every path past the
   * empty-node check ends with `prune` on this node.
   */
  function Remove(t: Tree, v: int): (s: Step<Result<int, int>>)
    ensures s.ret == Ok(v) || s.ret == Err(v)
    ensures s.ret.Ok? ==> v in Values(t)
    ensures Values(s.tree) <= Values(t)
  {
    match t.val
    case None => Step(Err(v), t)
    case Some(x) =>
      if v < x then
        match t.left
        case None => Step(Err(v), Prune(t))
        case Some(c) =>
          var s := Remove(c, v);
          Step(s.ret, Prune(t.(left := Some(s.tree))))
      else if x < v then
        match t.right
        case None => Step(Err(v), Prune(t))
        case Some(c) =>
          var s := Remove(c, v);
          Step(s.ret, Prune(t.(right := Some(s.tree))))
      else
        Step(Ok(x), Prune(Reshape(t.(val := None))))
  }
}
