/**
 * The linked LIFO stack of data-structures/Stack.js: `tail` is the top node,
 * each node links to the one pushed before it, and `length` counts them.
 */
module Stack {
  import opened Wrappers
  import opened LinkedNode

  class Stack<T> {
    var tail: Node?<T>
    var length: nat

    /** The nodes from the top down, and the values they hold (top first). */
    ghost var spine: seq<Node<T>>
    ghost var Contents: seq<T>

    ghost predicate Valid()
      reads this, set n | n in spine
    {
      && Chain(tail, spine, Contents)
      && length == |Contents|
    }

    constructor ()
      ensures Valid() && Contents == [] && spine == []
    {
      tail := null;
      length := 0;
      spine := [];
      Contents := [];
    }

    /** Places `value` on top and returns the new length. */
    method Push(value: T) returns (n: nat)
      requires Valid()
      modifies this
      ensures Valid()
      ensures Contents == [value] + old(Contents)
      ensures n == |Contents|
      ensures fresh(spine[0]) && spine[1..] == old(spine)
    {
      var node := new Node(value, tail);
      tail := node;
      spine := [node] + spine;
      Contents := [value] + Contents;
      length := length + 1;
      n := length;
    }

    /** Removes and returns the top element, or `None` on an empty stack. */
    method Pop() returns (r: Option<T>)
      requires Valid()
      modifies this, tail
      ensures Valid()
      ensures old(Contents) == [] ==> r == None && Contents == [] && spine == []
      ensures old(Contents) != [] ==> r == Some(old(Contents)[0]) && Contents == old(Contents)[1..]
      ensures old(spine) != [] ==> spine == old(spine)[1..]
    {
      var empty := IsEmpty();
      if empty {
        return None;
      }
      var node := tail;
      assert forall i :: 1 <= i < |spine| ==> spine[i] != spine[0];
      assert node.next == if |spine| > 1 then spine[1] else null;
      tail := node.next;
      node.next := null;
      length := length - 1;
      spine := spine[1..];
      Contents := Contents[1..];
      r := Some(node.value);
    }

    /** The top element without removing it, or `None` on an empty stack. */
    method Peek() returns (r: Option<T>)
      requires Valid()
      ensures Contents == [] ==> r == None
      ensures Contents != [] ==> r == Some(Contents[0])
    {
      var empty := IsEmpty();
      if empty {
        return None;
      }
      r := Some(tail.value);
    }

    /** Whether the stack holds no element. */
    method IsEmpty() returns (b: bool)
      requires Valid()
      ensures b <==> Contents == []
    {
      b := length == 0;
    }

    /** The number of elements, the `length` getter. */
    method Length() returns (n: nat)
      requires Valid()
      ensures n == |Contents|
    {
      n := length;
    }
  }

  /** Last in, first out: a pop right after a push returns the pushed value
      and leaves the stack as it was. */
  method PushThenPop<T>(s: Stack<T>, v: T) returns (r: Option<T>)
    requires s.Valid()
    modifies s, s.spine
    ensures s.Valid()
    ensures r == Some(v)
    ensures s.Contents == old(s.Contents)
  {
    var _ := s.Push(v);
    r := s.Pop();
  }
}
