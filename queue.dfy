/**
 * The linked FIFO queue of data-structures/Queue.js: nodes linked from `head`
 * to `tail`, with the element count kept in `length`.
 */
module Queue {
  import opened Wrappers
  import opened LinkedNode

  class Queue<T> {
    var head: Node?<T>
    var tail: Node?<T>
    var length: nat

    /** The nodes from head to tail, and the values they hold. */
    ghost var spine: seq<Node<T>>
    ghost var Contents: seq<T>

    ghost predicate Valid()
      reads this, set n | n in spine
    {
      && Chain(head, spine, Contents)
      && length == |Contents|
      && (spine == [] <==> tail == null)
      && (spine != [] ==> tail == spine[|spine| - 1])
    }

    constructor ()
      ensures Valid() && Contents == [] && spine == []
    {
      head := null;
      tail := null;
      length := 0;
      spine := [];
      Contents := [];
    }

    /** Adds `value` at the back and returns the new length. */
    method Enqueue(value: T) returns (n: nat)
      requires Valid()
      modifies this, tail
      ensures Valid()
      ensures Contents == old(Contents) + [value]
      ensures n == |Contents|
      ensures fresh(spine[|spine| - 1]) && spine[..|spine| - 1] == old(spine)
    {
      var node := new Node(value, null);
      var empty := IsEmpty();
      if empty {
        head := node;
        tail := node;
      } else {
        tail.next := node;
        tail := node;
      }
      spine := spine + [node];
      Contents := Contents + [value];
      length := length + 1;
      n := length;
    }

    /** Removes and returns the front element, or `None` on an empty queue. */
    method Dequeue() returns (r: Option<T>)
      requires Valid()
      modifies this, head
      ensures Valid()
      ensures old(Contents) == [] ==> r == None && Contents == [] && spine == []
      ensures old(Contents) != [] ==> r == Some(old(Contents)[0]) && Contents == old(Contents)[1..]
      ensures old(spine) != [] ==> spine == old(spine)[1..]
    {
      var empty := IsEmpty();
      if empty {
        return None;
      }
      var currHead := head;
      assert forall i :: 1 <= i < |spine| ==> spine[i] != spine[0];
      assert currHead.next == if |spine| > 1 then spine[1] else null;
      head := currHead.next;
      currHead.next := null;
      length := length - 1;
      spine := spine[1..];
      Contents := Contents[1..];
      empty := IsEmpty();
      if empty {
        tail := null;
      }
      r := Some(currHead.value);
    }

    /** Whether the queue holds no element; it reads only the counter, so
        `dequeue` can ask it while the links are half updated. */
    method IsEmpty() returns (b: bool)
      ensures b <==> length == 0
      ensures Valid() ==> (b <==> Contents == [])
    {
      b := length == 0;
    }

    /** The number of elements, the `length` getter. */
    method Length() returns (n: nat)
      requires Valid()
      ensures n == |Contents|
    {
      n := length;
    }
  }
}
