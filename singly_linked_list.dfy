/**
 * The singly linked list of data-structures/SinglyLinkedList.js: nodes linked
 * from `head`, with the element count kept in `length`, and positional access
 * by walking the links.
 */
module SinglyLinkedList {
  import opened Wrappers
  import opened LinkedNode
  import opened Sequences

  class SinglyLinkedList<T> {
    var head: Node?<T>
    var length: nat

    /** The nodes from the head on, and the values they hold. */
    ghost var spine: seq<Node<T>>
    ghost var Contents: seq<T>

    ghost predicate Valid()
      reads this, set n | n in spine
    {
      && Chain(head, spine, Contents)
      && length == |Contents|
    }

    constructor ()
      ensures Valid() && Contents == [] && spine == []
    {
      head := null;
      length := 0;
      spine := [];
      Contents := [];
    }

    /** Walks to the last node and links a new one after it; returns the new length. */
    method Push(value: T) returns (n: nat)
      requires Valid()
      modifies this, spine
      ensures Valid()
      ensures Contents == old(Contents) + [value]
      ensures n == |Contents|
      ensures fresh(spine[|spine| - 1]) && spine[..|spine| - 1] == old(spine)
    {
      var newNode := new Node(value, null);
      if head == null {
        head := newNode;
        spine := [newNode];
        Contents := [value];
        length := length + 1;
        return length;
      }
      var tail := head;
      ghost var k := 0;
      while tail.next != null
        invariant Valid() && spine == old(spine) && Contents == old(Contents)
        invariant 0 <= k < |spine| && tail == spine[k]
        decreases |spine| - k
      {
        tail := tail.next;
        k := k + 1;
      }
      ChainEnd(head, spine, Contents, k);
      tail.next := newNode;
      spine := spine + [newNode];
      Contents := Contents + [value];
      length := length + 1;
      n := length;
    }

    /** Removes and returns the last value, or `None` on an empty list. */
    method Pop() returns (r: Option<T>)
      requires Valid()
      modifies this, spine
      ensures Valid()
      ensures old(Contents) == [] ==> r == None && Contents == [] && spine == []
      ensures old(Contents) != [] ==>
        && r == Some(old(Contents)[|old(Contents)| - 1])
        && Contents == old(Contents)[..|old(Contents)| - 1]
        && spine == old(spine)[..|old(spine)| - 1]
    {
      if head == null {
        return None;
      }
      var newTail := head;
      var tail := head.next;
      assert |spine| > 1 ==> spine[0].next == spine[1];
      length := length - 1;
      if tail == null {
        head := null;
        spine := [];
        Contents := [];
        return Some(newTail.value);
      }
      ghost var k := 0;
      while tail.next != null
        invariant Chain(head, spine, Contents) && spine == old(spine) && Contents == old(Contents)
        invariant length == old(length) - 1
        invariant 0 <= k < |spine| - 1 && newTail == spine[k] && tail == spine[k + 1]
        decreases |spine| - k
      {
        newTail := tail;
        tail := newTail.next;
        k := k + 1;
      }
      ChainEnd(head, spine, Contents, k + 1);
      newTail.next := null;
      spine := spine[..k + 1];
      Contents := Contents[..k + 1];
      r := Some(tail.value);
    }

    /** Removes and returns the first value, or `None` on an empty list. */
    method Shift() returns (r: Option<T>)
      requires Valid()
      modifies this
      ensures Valid()
      ensures old(Contents) == [] ==> r == None && Contents == [] && spine == []
      ensures old(Contents) != [] ==>
        r == Some(old(Contents)[0]) && Contents == old(Contents)[1..] && spine == old(spine)[1..]
    {
      if head == null {
        return None;
      }
      var currentHead := head;
      ChainTail(head, spine, Contents);
      head := currentHead.next;
      length := length - 1;
      spine := spine[1..];
      Contents := Contents[1..];
      r := Some(currentHead.value);
    }

    /** Links a new node in front of the head; returns the new length. */
    method Unshift(value: T) returns (n: nat)
      requires Valid()
      modifies this
      ensures Valid()
      ensures Contents == [value] + old(Contents)
      ensures n == |Contents|
      ensures fresh(spine[0]) && spine[1..] == old(spine)
    {
      var newNode := new Node(value, head);
      head := newNode;
      spine := [newNode] + spine;
      Contents := [value] + Contents;
      length := length + 1;
      n := length;
    }

    /** The value at `index`, or `None` when `index` is outside the list. */
    method Get(index: int) returns (r: Option<T>)
      requires Valid()
      ensures 0 <= index < |Contents| ==> r == Some(Contents[index])
      ensures !(0 <= index < |Contents|) ==> r == None
    {
      var node := TraverseNodes(index);
      r := if node != null then Some(node.value) else None;
    }

    /** Replaces the value at `index`; reports whether `index` was inside the list. */
    method Set(index: int, value: T) returns (ok: bool)
      requires Valid()
      modifies this, spine
      ensures Valid() && spine == old(spine)
      ensures ok <==> 0 <= index < |old(Contents)|
      ensures ok ==> Contents == old(Contents)[index := value]
      ensures !ok ==> Contents == old(Contents)
    {
      var node := TraverseNodes(index);
      if node == null {
        return false;
      }
      node.value := value;
      Contents := Contents[index := value];
      ok := true;
    }

    /** Puts `value` at position `index` and returns the new length; `None`,
        and no change, when `index` is not between 0 and the length. */
    method Insert(index: int, value: T) returns (r: Option<nat>)
      requires Valid()
      modifies this, spine
      ensures Valid()
      ensures 0 <= index <= |old(Contents)| ==>
        && Contents == old(Contents)[..index] + [value] + old(Contents)[index..]
        && r == Some(|Contents|)
      ensures !(0 <= index <= |old(Contents)|) ==>
        r == None && Contents == old(Contents) && spine == old(spine)
    {
      if index == 0 {
        var n := Unshift(value);
        return Some(n);
      }
      var prevNode := TraverseNodes(index - 1);
      if prevNode == null {
        return None;
      }
      ghost var s, c := spine, Contents;
      assert prevNode.next == if index < |s| then s[index] else null;
      var newNode := new Node(value, prevNode.next);
      DistinctInsert(s, index, newNode);
      prevNode.next := newNode;
      spine := s[..index] + [newNode] + s[index..];
      Contents := c[..index] + [value] + c[index..];
      length := length + 1;
      forall i | 0 <= i < |spine|
        ensures spine[i] == (if i < index then s[i] else if i == index then newNode else s[i - 1])
        ensures spine[i].value == Contents[i]
        ensures i < |spine| - 1 ==> spine[i].next == spine[i + 1]
      {
        if i < index - 1 {
          assert s[i] != prevNode;
        } else if i > index {
          assert s[i - 1] != prevNode;
        }
      }
      r := Some(length);
    }

    /** Unlinks the node at `index` and returns its value; `None`, and no
        change, when `index` is outside the list. */
    method Remove(index: int) returns (r: Option<T>)
      requires Valid()
      modifies this, spine
      ensures Valid()
      ensures 0 <= index < |old(Contents)| ==>
        && r == Some(old(Contents)[index])
        && Contents == old(Contents)[..index] + old(Contents)[index + 1..]
      ensures !(0 <= index < |old(Contents)|) ==>
        r == None && Contents == old(Contents) && spine == old(spine)
    {
      if index == 0 {
        r := Shift();
        return;
      }
      var removedNode := TraverseNodes(index);
      if removedNode == null {
        return None;
      }
      var prevNode := TraverseNodes(index - 1);
      ghost var s, c := spine, Contents;
      assert removedNode.next == if index + 1 < |s| then s[index + 1] else null;
      DistinctRemove(s, index);
      prevNode.next := removedNode.next;
      spine := s[..index] + s[index + 1..];
      Contents := c[..index] + c[index + 1..];
      length := length - 1;
      forall i | 0 <= i < |spine|
        ensures spine[i] == (if i < index then s[i] else s[i + 1])
        ensures spine[i].value == Contents[i]
        ensures i < |spine| - 1 ==> spine[i].next == spine[i + 1]
      {
        if i < index - 1 {
          assert s[i] != prevNode;
        } else if i >= index {
          assert s[i + 1] != prevNode;
        }
      }
      r := Some(removedNode.value);
    }

    /** Turns every link around in one pass and makes the old last node the head. */
    method Reverse() returns (newHead: Node?<T>)
      requires Valid()
      modifies this, spine
      ensures Valid()
      ensures Contents == Sequences.Reverse(old(Contents))
      ensures spine == Sequences.Reverse(old(spine))
      ensures newHead == head
    {
      var prevNode: Node?<T> := null;
      var currentNode := head;
      ghost var s, c := spine, Contents;
      ghost var k := 0;
      while currentNode != null
        invariant spine == s && Contents == c && length == old(length)
        invariant 0 <= k <= |s|
        invariant currentNode == if k < |s| then s[k] else null
        invariant prevNode == if k > 0 then s[k - 1] else null
        invariant k < |s| ==> s[|s| - 1].next == null
        invariant k > 0 ==> s[0].next == null
        invariant forall i :: 0 < i < k ==> s[i].next == s[i - 1]
        invariant forall i :: k <= i < |s| - 1 ==> s[i].next == s[i + 1]
        invariant forall i :: 0 <= i < |s| ==> s[i].value == c[i]
        decreases |s| - k
      {
        var nextNode := currentNode.next;
        assert forall i :: 0 <= i < |s| && i != k ==> s[i] != currentNode;
        currentNode.next := prevNode;
        prevNode := currentNode;
        currentNode := nextNode;
        k := k + 1;
      }
      ReversedChain(s, c);
      head := prevNode;
      spine := Sequences.Reverse(s);
      Contents := Sequences.Reverse(c);
      newHead := head;
    }

    /** Reverses the chain starting at `h` by recursion, returning its new
        first node; it rewires the nodes of the chain and nothing else. */
    method RecursiveReverse(h: Node?<T>, ghost s: seq<Node<T>>, ghost c: seq<T>) returns (r: Node?<T>)
      requires Chain(h, s, c)
      modifies s
      ensures Chain(r, Sequences.Reverse(s), Sequences.Reverse(c))
      decreases |s|
    {
      if h == null || h.next == null {
        return h;
      }
      ChainTail(h, s, c);
      var rest := RecursiveReverse(h.next, s[1..], c[1..]);
      h.next.next := h;
      h.next := null;
      r := rest;
    }

    /** `recursiveReverse()` called on the list itself: the chain is reversed,
        but `head` and `length` stay as they were, so the list now starts at
        the old first node, which has become the last. */
    method RecursiveReverseList() returns (r: Node?<T>)
      requires Valid()
      modifies spine
      ensures Chain(r, Sequences.Reverse(old(spine)), Sequences.Reverse(old(Contents)))
      ensures head == old(head) && length == old(length)
      ensures old(spine) != [] ==> head.next == null
    {
      r := RecursiveReverse(head, spine, Contents);
    }

    /** The recursive reversal with its result stored back into `head`. */
    method ReverseRecursively() returns (newHead: Node?<T>)
      requires Valid()
      modifies this, spine
      ensures Valid()
      ensures Contents == Sequences.Reverse(old(Contents))
      ensures spine == Sequences.Reverse(old(spine))
      ensures newHead == head
    {
      newHead := RecursiveReverse(head, spine, Contents);
      head := newHead;
      spine := Sequences.Reverse(spine);
      Contents := Sequences.Reverse(Contents);
    }

    /** The node at `index`, or `null` when `index` is outside the list. */
    method TraverseNodes(index: int) returns (node: Node?<T>)
      requires Valid()
      ensures 0 <= index < |spine| ==> node == spine[index]
      ensures !(0 <= index < |spine|) ==> node == null
    {
      if index < 0 {
        return null;
      }
      var currentNode := head;
      var count := 0;
      while currentNode != null
        invariant 0 <= count <= |spine| && count <= index
        invariant currentNode == if count < |spine| then spine[count] else null
        decreases |spine| - count
      {
        if count == index {
          return currentNode;
        }
        currentNode := currentNode.next;
        count := count + 1;
      }
      return null;
    }
  }
}
