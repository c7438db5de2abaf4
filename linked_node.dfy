/**
 * The list node shared by data-structures/Queue.js, data-structures/Stack.js and
 * data-structures/SinglyLinkedList.js: a value and a link to the next node.
 */
module LinkedNode {
  import opened Sequences

  class Node<T> {
    var value: T
    var next: Node?<T>

    constructor (value: T, next: Node?<T>)
      ensures this.value == value && this.next == next
    {
      this.value := value;
      this.next := next;
    }
  }

  /** `spine` is a null-terminated chain of distinct nodes starting at `first`,
      holding `contents` in order. */
  ghost predicate Chain<T>(first: Node?<T>, spine: seq<Node<T>>, contents: seq<T>)
    reads set n | n in spine
  {
    && |spine| == |contents|
    && (spine == [] <==> first == null)
    && (spine != [] ==> first == spine[0] && spine[|spine| - 1].next == null)
    && (forall i :: 0 <= i < |spine| - 1 ==> spine[i].next == spine[i + 1])
    && (forall i :: 0 <= i < |spine| ==> spine[i].value == contents[i])
    && Distinct(spine)
  }

  /** Dropping the first node of a chain leaves a chain starting at its successor. */
  lemma ChainTail<T>(first: Node?<T>, spine: seq<Node<T>>, contents: seq<T>)
    requires Chain(first, spine, contents) && spine != []
    ensures Chain(spine[0].next, spine[1..], contents[1..])
    ensures spine[0] !in spine[1..]
  {
    if |spine| > 1 {
      assert spine[0].next == spine[1];
    }
    forall i | 0 <= i < |spine| - 1
      ensures spine[1..][i] != spine[0]
    {
      assert spine[1..][i] == spine[i + 1];
    }
  }

  /** In a chain, only the last node has no successor. */
  lemma ChainEnd<T>(first: Node?<T>, spine: seq<Node<T>>, contents: seq<T>, k: nat)
    requires Chain(first, spine, contents) && k < |spine| && spine[k].next == null
    ensures k == |spine| - 1
  {
    forall i | 0 <= i < |spine| - 1
      ensures spine[i].next != null
    {
      assert spine[i].next == spine[i + 1];
    }
  }

  /** Nodes whose links all point backwards form, read from the last one, the
      reversed chain. */
  lemma ReversedChain<T>(s: seq<Node<T>>, c: seq<T>)
    requires |s| == |c| && Distinct(s)
    requires s != [] ==> s[0].next == null
    requires forall i :: 0 < i < |s| ==> s[i].next == s[i - 1]
    requires forall i :: 0 <= i < |s| ==> s[i].value == c[i]
    ensures Chain(if s == [] then null else s[|s| - 1], Reverse(s), Reverse(c))
  {
    DistinctReverse(s);
    var r := Reverse(s);
    forall i | 0 <= i < |r|
      ensures r[i] == s[|s| - 1 - i] && r[i].value == Reverse(c)[i]
      ensures i < |r| - 1 ==> r[i].next == r[i + 1]
    {
    }
  }
}
