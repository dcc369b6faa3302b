/**
 * demo1.py's singly linked list: `Node` holds a value and a `next` link,
 * `LinkedList` holds the `head`. `append` walks to the last node and links a
 * new one after it; `to_list` walks from the head collecting the values.
 *
 * The ghost sequence `spine` lists the nodes in link order and `Contents`
 * their values; `Valid()` ties both to the `head`/`next` fields.
 */
module LinkedLists {

  class Node<T> {
    var value: T
    var next: Node?<T>

    constructor (value: T)
      ensures this.value == value && next == null
    {
      this.value := value;
      next := null;
    }
  }

  class LinkedList<T> {
    var head: Node?<T>

    ghost var spine: seq<Node<T>>
    ghost var Contents: seq<T>
    ghost var Repr: set<object>

    ghost predicate Valid()
      reads this, Repr
    {
      && this in Repr
      && (forall i :: 0 <= i < |spine| ==> spine[i] in Repr)
      && |Contents| == |spine|
      && head == (if spine == [] then null else spine[0])
      && (forall i :: 0 <= i < |spine| ==> spine[i].value == Contents[i])
      && (forall i :: 0 <= i < |spine| ==>
            spine[i].next == if i + 1 < |spine| then spine[i + 1] else null)
    }

    /** `LinkedList()`: an empty list, `head = None`. */
    constructor ()
      ensures Valid() && fresh(Repr)
      ensures head == null && Contents == []
    {
      head := null;
      spine := [];
      Contents := [];
      Repr := {this};
    }

    lemma NextOf(k: int)
      requires Valid() && 0 <= k < |spine|
      ensures spine[k].next == if k + 1 < |spine| then spine[k + 1] else null
    {
    }

    /** `append(value)`: link a new node after the last one (or make it the head). */
    method Append(value: T)
      requires Valid()
      modifies Repr
      ensures Valid() && fresh(Repr - old(Repr))
      ensures Contents == old(Contents) + [value]
    {
      ghost var node: Node<T>;
      if head == null {
        head := new Node(value);
        node := head;
      } else {
        var curr := head;
        ghost var k := 0;
        while curr.next != null
          modifies {}
          invariant 0 <= k < |spine| && curr == spine[k]
          decreases |spine| - k
        {
          NextOf(k);
          curr := curr.next;
          k := k + 1;
        }
        NextOf(k);
        // the earlier nodes all link onward, so none of them is the last one relinked here
        forall i | 0 <= i < k
          ensures spine[i].next == spine[i + 1] && spine[i] != curr
        {
          NextOf(i);
        }
        curr.next := new Node(value);
        node := curr.next;
      }
      spine := spine + [node];
      Contents := Contents + [value];
      Repr := Repr + {node};
    }

    /** `to_list()`: the values from the head to the end, in link order. */
    method ToList() returns (result: seq<T>)
      requires Valid()
      ensures result == Contents
    {
      result := [];
      var curr := head;
      ghost var k := 0;
      while curr != null
        invariant 0 <= k <= |spine|
        invariant curr == if k < |spine| then spine[k] else null
        invariant result == Contents[..k]
        decreases |spine| - k
      {
        result := result + [curr.value];
        curr := curr.next;
        k := k + 1;
      }
    }
  }

  /**
   * The linked-list demo of `main`: append each value to a fresh list, then
   * read it back with `to_list`; the list returns exactly the appended values.
   */
  method LinkedListDemo<T>(values: seq<T>) returns (contents: seq<T>)
    ensures contents == values
  {
    var list := new LinkedList<T>();
    for i := 0 to |values|
      invariant list.Valid() && fresh(list.Repr)
      invariant list.Contents == values[..i]
    {
      list.Append(values[i]);
    }
    contents := list.ToList();
  }
}
