/**
 * The singly linked LIFO stack of src/stack.rs. Each `StackNode` owns the
 * node below it, so the chain is a value; the `Stack` object owns the top of
 * the chain and `push` and `pop` replace it in place.
 */
module Stacks {
  import opened Wrappers

  datatype StackNode<T> = StackNode(val: T, next: Option<StackNode<T>>)

  /** The elements of a chain, from the given node down. */
  function Elements<T>(top: Option<StackNode<T>>): seq<T>
  {
    match top
    case None => []
    case Some(n) => [n.val] + Elements(n.next)
  }

  /** `StackNode::new`: a node with nothing below it. */
  function NewNode<T>(val: T): (n: StackNode<T>)
    ensures Elements(Some(n)) == [val]
  {
    StackNode(val, None)
  }

  class Stack<T> {
    var top: Option<StackNode<T>>

    /** The elements from top to bottom. */
    function Contents(): seq<T>
      reads this
    {
      Elements(top)
    }

    /** `Stack::new`: an empty stack. */
    constructor ()
      ensures Contents() == []
    {
      top := None;
    }

    /** `push(val)`: `val` goes on top; everything else stays, in order, beneath it. */
    method Push(val: T)
      modifies this
      ensures Contents() == [val] + old(Contents())
      ensures |Contents()| == |old(Contents())| + 1
    {
      var node := NewNode(val);
      var next := top;
      top := None;
      node := node.(next := next);
      top := Some(node);
    }

    /**
     * `pop()`: on an empty stack, `None` and the stack stays empty; otherwise
     * the top value, and the element below it becomes the top.
     */
    method Pop() returns (r: Option<T>)
      modifies this
      ensures old(Contents()) == [] ==> r == None && Contents() == []
      ensures old(Contents()) != [] ==>
                r == Some(old(Contents())[0]) && Contents() == old(Contents())[1..]
                && |Contents()| == |old(Contents())| - 1
    {
      var popped := top;
      top := None;
      match popped
      case None =>
        r := None;
      case Some(x) =>
        top := x.next;
        r := Some(x.val);
    }
  }

  /** `push(v)` then `pop()` gives back `v` and the stack as it was. */
  method PushThenPop<T>(s: Stack<T>, v: T) returns (r: Option<T>)
    modifies s
    ensures r == Some(v)
    ensures s.Contents() == old(s.Contents())
  {
    s.Push(v);
    r := s.Pop();
  }

  /** The scenario of the `push_pop_integers` test: last in, first out. */
  method PushPopIntegersScenario()
  {
    var s := new Stack<int>();
    var r := s.Pop();
    assert r == None;
    s.Push(5);
    s.Push(11);
    r := s.Pop();
    assert r == Some(11);
    r := s.Pop();
    assert r == Some(5);
    r := s.Pop();
    assert r == None;
  }
}
