/**
 * The doubly linked list of data-structures/DoublyLinkedList.js: nodes linked
 * both ways between `head` and `tail`, and a `length` field.
 *
 * As written, removing a middle node does not lower `length`, so `length` may
 * exceed the number of nodes; the model keeps that excess ("drift") and shows
 * how it shifts the positions that `#traverseNodes` reaches from the tail.
 */
module DoublyLinkedList {
  import opened Wrappers
  import opened Sequences

  class Node<T> {
    var value: T
    var prev: Node?<T>
    var next: Node?<T>

    constructor (value: T, prev: Node?<T>, next: Node?<T>)
      ensures this.value == value && this.prev == prev && this.next == next
    {
      this.value := value;
      this.prev := prev;
      this.next := next;
    }
  }

  /**
   * The position `#traverseNodes(index)` stops at in a list with `n` nodes
   * whose `length` field is `length`: an index before the middle
   * `(length - 1) / 2` is counted from the head, any other from the tail,
   * which is numbered `length - 1`.
   */
  function Position(length: nat, n: nat, index: int): (p: Option<nat>)
    requires n <= length
    ensures p.Some? ==> p.value < n
    ensures length == n ==> p == if 0 <= index < n then Some(index) else None
  {
    if index < 0 then None
    else if 2 * index < length - 1 then (if index < n then Some(index) else None)
    else if length - n <= index < length then Some(index - (length - n))
    else None
  }

  class DoublyLinkedList<T> {
    var head: Node?<T>
    var tail: Node?<T>
    var length: nat

    /** The nodes from head to tail, and the values they hold. */
    ghost var spine: seq<Node<T>>
    ghost var Contents: seq<T>

    ghost predicate Valid()
      reads this, set n | n in spine
    {
      && |spine| == |Contents|
      && Distinct(spine)
      && |Contents| <= length
      && (spine == [] ==> head == null && tail == null)
      && (spine != [] ==>
            && head == spine[0] && tail == spine[|spine| - 1]
            && head.prev == null && tail.next == null)
      && (forall i :: 0 <= i < |spine| - 1 ==> spine[i].next == spine[i + 1])
      && (forall i :: 0 < i < |spine| ==> spine[i].prev == spine[i - 1])
      && (forall i :: 0 <= i < |spine| ==> spine[i].value == Contents[i])
    }

    constructor ()
      ensures Valid() && Contents == [] && spine == [] && length == 0
    {
      head := null;
      tail := null;
      length := 0;
      spine := [];
      Contents := [];
    }

    /** Links a new node after the tail; returns the new length. */
    method Push(value: T) returns (n: nat)
      requires Valid()
      modifies this, spine
      ensures Valid()
      ensures Contents == old(Contents) + [value]
      ensures length == old(length) + 1 && n == length
      ensures fresh(tail) && spine == old(spine) + [tail]
    {
      var newNode := new Node(value, null, null);
      if head == null {
        head := newNode;
      } else {
        tail.next := newNode;
        newNode.prev := tail;
      }
      tail := newNode;
      DistinctInsert(spine, |spine|, newNode);
      spine := spine + [newNode];
      Contents := Contents + [value];
      length := length + 1;
      n := length;
    }

    /** Unlinks the tail and returns its value, or `None` on an empty list. */
    method Pop() returns (r: Option<T>)
      requires Valid()
      modifies this, spine
      ensures Valid()
      ensures old(Contents) == [] ==> r == None && Contents == [] && length == old(length)
      ensures old(Contents) != [] ==>
        && r == Some(old(Contents)[|old(Contents)| - 1])
        && Contents == old(Contents)[..|old(Contents)| - 1]
        && spine == old(spine)[..|old(spine)| - 1]
        && length == old(length) - 1
    {
      if head == null {
        return None;
      }
      var currTail := tail;
      ghost var s, c := spine, Contents;
      assert currTail.prev == if |s| > 1 then s[|s| - 2] else null;
      DistinctRemove(s, |s| - 1);
      if currTail.prev == null {
        head := null;
        tail := null;
      } else {
        tail := currTail.prev;
        tail.next := null;
        currTail.prev := null;
      }
      spine := s[..|s| - 1];
      Contents := c[..|c| - 1];
      length := length - 1;
      r := Some(currTail.value);
    }

    /** Unlinks the head and returns its value, or `None` on an empty list. */
    method Shift() returns (r: Option<T>)
      requires Valid()
      modifies this, spine
      ensures Valid()
      ensures old(Contents) == [] ==> r == None && Contents == [] && length == old(length)
      ensures old(Contents) != [] ==>
        && r == Some(old(Contents)[0])
        && Contents == old(Contents)[1..]
        && spine == old(spine)[1..]
        && length == old(length) - 1
    {
      if head == null {
        return None;
      }
      var currHead := head;
      ghost var s, c := spine, Contents;
      assert currHead.next == if |s| > 1 then s[1] else null;
      DistinctRemove(s, 0);
      if currHead.next == null {
        head := null;
        tail := null;
      } else {
        head := currHead.next;
        head.prev := null;
        currHead.next := null;
      }
      spine := s[1..];
      Contents := c[1..];
      length := length - 1;
      r := Some(currHead.value);
    }

    /** Links a new node before the head; returns the new length. */
    method Unshift(value: T) returns (n: nat)
      requires Valid()
      modifies this, spine
      ensures Valid()
      ensures Contents == [value] + old(Contents)
      ensures length == old(length) + 1 && n == length
      ensures fresh(head) && spine == [head] + old(spine)
    {
      var newNode := new Node(value, null, head);
      if head != null {
        head.prev := newNode;
      } else {
        tail := newNode;
      }
      head := newNode;
      DistinctInsert(spine, 0, newNode);
      spine := [newNode] + spine;
      Contents := [value] + Contents;
      length := length + 1;
      n := length;
    }

    /** The value at the position `index` reaches, or `None`; with an exact
        `length` that is the value at `index` itself. */
    method Get(index: int) returns (r: Option<T>)
      requires Valid()
      ensures var p := Position(length, |Contents|, index);
        r == if p.Some? then Some(Contents[p.value]) else None
      ensures length == |Contents| ==>
        r == if 0 <= index < |Contents| then Some(Contents[index]) else None
    {
      var node := TraverseNodes(index);
      r := if node != null then Some(node.value) else None;
    }

    /** Replaces the value at the position `index` reaches; reports whether
        there was one. */
    method Set(index: int, value: T) returns (ok: bool)
      requires Valid()
      modifies this, spine
      ensures Valid() && spine == old(spine) && length == old(length)
      ensures var p := Position(old(length), |old(Contents)|, index);
        && (ok <==> p.Some?)
        && Contents == if p.Some? then old(Contents)[p.value := value] else old(Contents)
    {
      var node := TraverseNodes(index);
      if node == null {
        return false;
      }
      ghost var p := Position(length, |Contents|, index).value;
      node.value := value;
      Contents := Contents[p := value];
      ok := true;
    }

    /**
     * `insert` as written: index 0 prepends, index `length - 1` appends, and
     * any other index puts the value in front of the node `#traverseNodes`
     * reaches. A node reached at the head would make the source dereference
     * a null `prev`, which only a drifted `length` allows; the precondition
     * excludes it.
     */
    method Insert(index: int, value: T) returns (r: Option<nat>)
      requires Valid()
      requires index == 0 || index == length - 1 || Position(length, |Contents|, index) != Some(0)
      modifies this, spine
      ensures Valid()
      ensures index == 0 ==>
        Contents == [value] + old(Contents) && length == old(length) + 1 && r == Some(length)
      ensures index != 0 && index == old(length) - 1 ==>
        Contents == old(Contents) + [value] && length == old(length) + 1 && r == Some(length)
      ensures index != 0 && index != old(length) - 1 ==>
        var p := Position(old(length), |old(Contents)|, index);
        if p.Some? then
          && Contents == old(Contents)[..p.value] + [value] + old(Contents)[p.value..]
          && length == old(length) + 1 && r == Some(length)
        else
          r == None && Contents == old(Contents) && spine == old(spine) && length == old(length)
    {
      if index == 0 {
        var n := Unshift(value);
        return Some(n);
      }
      if index == length - 1 {
        var n := Push(value);
        return Some(n);
      }
      var currNode := TraverseNodes(index);
      if currNode == null {
        return None;
      }
      ghost var p := Position(length, |Contents|, index).value;
      r := LinkBefore(currNode, p, value);
    }

    /** Links a node holding `value` in front of `currNode`, the node at
        position `p > 0`; returns the new length. */
    method LinkBefore(currNode: Node<T>, ghost p: nat, value: T) returns (r: Option<nat>)
      requires Valid() && 0 < p < |spine| && currNode == spine[p]
      modifies this, spine
      ensures Valid()
      ensures Contents == old(Contents)[..p] + [value] + old(Contents)[p..]
      ensures length == old(length) + 1 && r == Some(length)
    {
      ghost var s, c := spine, Contents;
      var newNode := new Node(value, currNode.prev, currNode);
      var prevNode := currNode.prev;
      DistinctInsert(s, p, newNode);
      assert prevNode == s[p - 1];
      prevNode.next := newNode;
      currNode.prev := newNode;
      spine := s[..p] + [newNode] + s[p..];
      Contents := c[..p] + [value] + c[p..];
      length := length + 1;
      forall i | 0 <= i < |spine|
        ensures spine[i] == (if i < p then s[i] else if i == p then newNode else s[i - 1])
        ensures spine[i].value == Contents[i]
        ensures i < |spine| - 1 ==> spine[i].next == spine[i + 1]
        ensures 0 < i ==> spine[i].prev == spine[i - 1]
      {
        if i < p - 1 || i > p + 1 {
          assert spine[i] != prevNode && spine[i] != currNode;
        }
      }
      r := Some(length);
    }

    /**
     * `remove` as written: index 0 shifts, index `length - 1` pops, and any
     * other index unlinks the node `#traverseNodes` reaches without lowering
     * `length`. A node reached at either end would make the source
     * dereference a null link, which only a drifted `length` allows; the
     * precondition excludes it.
     */
    method Remove(index: int) returns (r: Option<T>)
      requires Valid()
      requires index == 0 || index == length - 1 ||
        var p := Position(length, |Contents|, index); p.Some? ==> 0 < p.value < |Contents| - 1
      modifies this, spine
      ensures Valid()
      ensures index == 0 ==>
        if old(Contents) == [] then r == None && Contents == [] && length == old(length)
        else r == Some(old(Contents)[0]) && Contents == old(Contents)[1..] && length == old(length) - 1
      ensures index != 0 && index == old(length) - 1 ==>
        if old(Contents) == [] then r == None && Contents == [] && length == old(length)
        else
          && r == Some(old(Contents)[|old(Contents)| - 1])
          && Contents == old(Contents)[..|old(Contents)| - 1]
          && length == old(length) - 1
      ensures index != 0 && index != old(length) - 1 ==>
        var p := Position(old(length), |old(Contents)|, index);
        && length == old(length)
        && if p.Some? then
             r == Some(old(Contents)[p.value]) && Contents == old(Contents)[..p.value] + old(Contents)[p.value + 1..]
           else
             r == None && Contents == old(Contents) && spine == old(spine)
    {
      if index == 0 {
        r := Shift();
        return;
      }
      if index == length - 1 {
        r := Pop();
        return;
      }
      var node := TraverseNodes(index);
      if node == null {
        return None;
      }
      ghost var p := Position(length, |Contents|, index).value;
      r := Unlink(node, p);
    }

    /** Unlinks `node`, the node at the interior position `p`, and returns its
        value; `length` is left as it is, as in `remove`. */
    method Unlink(node: Node<T>, ghost p: nat) returns (r: Option<T>)
      requires Valid() && 0 < p < |spine| - 1 && node == spine[p]
      modifies this, spine
      ensures Valid()
      ensures r == Some(old(Contents)[p])
      ensures Contents == old(Contents)[..p] + old(Contents)[p + 1..]
      ensures spine == old(spine)[..p] + old(spine)[p + 1..]
      ensures length == old(length)
    {
      ghost var s, c := spine, Contents;
      var prevNode := node.prev;
      var nextNode := node.next;
      assert prevNode == s[p - 1] && nextNode == s[p + 1];
      DistinctRemove(s, p);
      prevNode.next := nextNode;
      nextNode.prev := prevNode;
      node.prev := null;
      node.next := null;
      spine := s[..p] + s[p + 1..];
      Contents := c[..p] + c[p + 1..];
      forall i | 0 <= i < |spine|
        ensures spine[i] == (if i < p then s[i] else s[i + 1])
        ensures spine[i].value == Contents[i]
        ensures i < |spine| - 1 ==> spine[i].next == spine[i + 1]
        ensures 0 < i ==> spine[i].prev == spine[i - 1]
      {
        assert spine[i] != node;
        if i < p - 1 || i > p {
          assert spine[i] != prevNode && spine[i] != nextNode;
        }
      }
      r := Some(node.value);
    }

    /** `insert` with the bounds evidently intended: every index from 0 to
        the length, the length itself appending; it keeps `length` exact. */
    method InsertAt(index: int, value: T) returns (r: Option<nat>)
      requires Valid() && length == |Contents|
      modifies this, spine
      ensures Valid() && length == |Contents|
      ensures 0 <= index <= |old(Contents)| ==>
        Contents == old(Contents)[..index] + [value] + old(Contents)[index..] && r == Some(|Contents|)
      ensures !(0 <= index <= |old(Contents)|) ==>
        r == None && Contents == old(Contents) && spine == old(spine)
    {
      if index == 0 {
        var n := Unshift(value);
        return Some(n);
      }
      if index == length {
        var n := Push(value);
        return Some(n);
      }
      var currNode := TraverseNodes(index);
      if currNode == null {
        return None;
      }
      r := LinkBefore(currNode, index, value);
    }

    /** `remove` lowering `length` on every path, so that it stays exact. */
    method RemoveAt(index: int) returns (r: Option<T>)
      requires Valid() && length == |Contents|
      modifies this, spine
      ensures Valid() && length == |Contents|
      ensures 0 <= index < |old(Contents)| ==>
        r == Some(old(Contents)[index]) && Contents == old(Contents)[..index] + old(Contents)[index + 1..]
      ensures !(0 <= index < |old(Contents)|) ==>
        r == None && Contents == old(Contents) && spine == old(spine)
    {
      if index == 0 {
        r := Shift();
        return;
      }
      if index == length - 1 {
        r := Pop();
        return;
      }
      var node := TraverseNodes(index);
      if node == null {
        return None;
      }
      r := Unlink(node, index);
      length := length - 1;
    }

    /** The values from head to tail. */
    method ToArray() returns (arr: seq<T>)
      requires Valid()
      ensures arr == Contents
    {
      arr := [];
      var currNode := head;
      ghost var k := 0;
      while currNode != null
        invariant 0 <= k <= |spine| && arr == Contents[..k]
        invariant currNode == if k < |spine| then spine[k] else null
        decreases |spine| - k
      {
        arr := arr + [currNode.value];
        currNode := currNode.next;
        k := k + 1;
      }
    }

    /** The node at the position `index` reaches, walking from whichever end
        `index` is nearer to, or `null`. */
    method TraverseNodes(index: int) returns (node: Node?<T>)
      requires Valid()
      ensures var p := Position(length, |spine|, index);
        node == if p.Some? then spine[p.value] else null
    {
      if index < 0 {
        return null;
      }
      var currNode: Node?<T>;
      var forward: bool;
      var count: int;
      if 2 * index < length - 1 {
        currNode, forward, count := head, true, 0;
      } else {
        currNode, forward, count := tail, false, length - 1;
      }
      ghost var drift := length - |spine|;
      while currNode != null
        invariant forward <==> 2 * index < length - 1
        invariant forward ==> 0 <= count <= |spine| && count <= index
        invariant forward ==> currNode == if count < |spine| then spine[count] else null
        invariant !forward ==> drift - 1 <= count <= length - 1 && !(count < index <= length - 1)
        invariant !forward ==> currNode == if count >= drift then spine[count - drift] else null
        decreases if forward then |spine| - count else count - drift + 1
      {
        if count == index {
          return currNode;
        }
        if forward {
          currNode := currNode.next;
          count := count + 1;
        } else {
          currNode := currNode.prev;
          count := count - 1;
        }
      }
      return null;
    }
  }

  /** After pushing 1, 2, 3, 4 and removing index 1, `length` still says 4,
      and `get(2)`, counted from the tail, returns 3 instead of 4. */
  method StaleLengthExample() returns (length: nat, values: seq<int>, third: Option<int>)
    ensures length == 4 && values == [1, 3, 4] && third == Some(3)
  {
    var list := new DoublyLinkedList<int>();
    var _ := list.Push(1);
    var _ := list.Push(2);
    var _ := list.Push(3);
    var _ := list.Push(4);
    var removed := list.Remove(1);
    length := list.length;
    values := list.ToArray();
    third := list.Get(2);
  }

  /** On the list 1, 2, 3, `insert(3, 8)` at the length fails, and
      `insert(2, 9)` appends instead of putting 9 in front of 3. */
  method InsertNearEndExample() returns (appended: Option<nat>, values: seq<int>)
    ensures appended == None && values == [1, 2, 3, 9]
  {
    var list := new DoublyLinkedList<int>();
    var _ := list.Push(1);
    var _ := list.Push(2);
    var _ := list.Push(3);
    appended := list.Insert(3, 8);
    var _ := list.Insert(2, 9);
    values := list.ToArray();
  }

  /** The corrected removal on the same input lowers the length, and `get(2)`
      then returns the third value. */
  method RemoveAtExample() returns (length: nat, third: Option<int>)
    ensures length == 3 && third == Some(4)
  {
    var list := new DoublyLinkedList<int>();
    var _ := list.Push(1);
    var _ := list.Push(2);
    var _ := list.Push(3);
    var _ := list.Push(4);
    var _ := list.RemoveAt(1);
    length := list.length;
    third := list.Get(2);
  }

  /** The corrected insertion at index 2 of 1, 2, 3 lands in front of 3. */
  method InsertAtExample() returns (values: seq<int>)
    ensures values == [1, 2, 9, 3]
  {
    var list := new DoublyLinkedList<int>();
    var _ := list.Push(1);
    var _ := list.Push(2);
    var _ := list.Push(3);
    var _ := list.InsertAt(2, 9);
    values := list.ToArray();
  }
}
