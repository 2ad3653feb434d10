/**
 * A double-ended queue kept as a doubly linked list of nodes, with an
 * iterator that walks the list from the front. A Java `null` item is an
 * `Option<T>` that is `None`; the exceptions the list throws are the
 * `Throws` case of a `Result`.
 */
module Deques {
  import opened Wrappers

  /** One cell of the list. */
  class Node<T> {
    var next: Node?<T>
    var prev: Node?<T>
    var item: T

    constructor (next: Node?<T>, prev: Node?<T>, item: T)
      ensures this.next == next && this.prev == prev && this.item == item
    {
      this.next := next;
      this.prev := prev;
      this.item := item;
    }
  }

  class Deque<T> {
    var first: Node?<T>
    var last: Node?<T>
    var size: int

    /** The items from front to end. */
    ghost var Contents: seq<T>
    /** The nodes from front to end; `nodes[i]` holds `Contents[i]`. */
    ghost var nodes: seq<Node<T>>
    ghost var Repr: set<object>

    /**
     * The list invariant: `first` and `last` are null exactly when the deque
     * is empty, `size` counts the nodes, and the nodes are distinct and
     * linked forwards by `next` and backwards by `prev`.
     */
    ghost predicate Valid()
      reads this, Repr
    {
      && this in Repr
      && (forall i | 0 <= i < |nodes| :: nodes[i] in Repr)
      && |nodes| == |Contents| == size
      && (first == null <==> size == 0)
      && (last == null <==> size == 0)
      && (size > 0 ==> first == nodes[0] && nodes[0].prev == null)
      && (size > 0 ==> last == nodes[size - 1] && nodes[size - 1].next == null)
      && (forall i | 0 <= i < |nodes| :: nodes[i].item == Contents[i])
      && (forall i | 0 <= i < |nodes| - 1 :: nodes[i].next == nodes[i + 1])
      && (forall i | 0 < i < |nodes| :: nodes[i].prev == nodes[i - 1])
      && (forall i, j | 0 <= i < j < |nodes| :: nodes[i] != nodes[j])
    }

    /** An empty deque. */
    constructor ()
      ensures Valid() && fresh(Repr)
      ensures Contents == []
    {
      first := null;
      last := null;
      size := 0;
      Contents := [];
      nodes := [];
      Repr := {this};
    }

    function IsEmpty(): (e: bool)
      requires Valid()
      reads this, Repr
      ensures e <==> Contents == []
    {
      Size() == 0
    }

    function Size(): (n: int)
      requires Valid()
      reads this, Repr
      ensures n == |Contents|
    {
      size
    }

    /** Inserts `item` at the front; a null item throws and changes nothing. */
    method AddFirst(item: Option<T>) returns (r: Result<()>)
      requires Valid()
      modifies Repr
      ensures Valid() && fresh(Repr - old(Repr))
      ensures item.None? ==> r == Throws(NullPointer) && unchanged(this) && Contents == old(Contents)
      ensures item.Some? ==> r == Ok(()) && Contents == [item.value] + old(Contents)
    {
      if item.None? {
        return Throws(NullPointer);
      }
      LinkFirst(item.value);
      r := Ok(());
    }

    /** Inserts `item` at the end; a null item throws and changes nothing. */
    method AddLast(item: Option<T>) returns (r: Result<()>)
      requires Valid()
      modifies Repr
      ensures Valid() && fresh(Repr - old(Repr))
      ensures item.None? ==> r == Throws(NullPointer) && unchanged(this) && Contents == old(Contents)
      ensures item.Some? ==> r == Ok(()) && Contents == old(Contents) + [item.value]
    {
      if item.None? {
        return Throws(NullPointer);
      }
      LinkLast(item.value);
      r := Ok(());
    }

    /** Links a new node holding `x` in front of the first one. */
    method LinkFirst(x: T)
      requires Valid()
      modifies Repr
      ensures Valid() && fresh(Repr - old(Repr))
      ensures Contents == [x] + old(Contents)
    {
      ghost var n0 := nodes;
      var newFirst := new Node(null, null, x);
      if size == 0 {
        first := newFirst;
        last := newFirst;
      } else {
        newFirst.next := first;
        first.prev := newFirst;
        first := newFirst;
      }
      size := size + 1;
      nodes := [newFirst] + n0;
      Contents := [x] + Contents;
      Repr := Repr + {newFirst};
      assert forall i | 0 < i < |nodes| :: nodes[i] == n0[i - 1] && nodes[i] != newFirst;
      assert forall i | 1 < i < |nodes| :: nodes[i] != n0[0];
    }

    /** Links a new node holding `x` after the last one. */
    method LinkLast(x: T)
      requires Valid()
      modifies Repr
      ensures Valid() && fresh(Repr - old(Repr))
      ensures Contents == old(Contents) + [x]
    {
      ghost var n0 := nodes;
      var newLast := new Node(null, null, x);
      if size == 0 {
        first := newLast;
        last := newLast;
      } else {
        newLast.prev := last;
        last.next := newLast;
        last := newLast;
      }
      size := size + 1;
      nodes := n0 + [newLast];
      Contents := Contents + [x];
      Repr := Repr + {newLast};
      assert forall i | 0 <= i < |n0| :: nodes[i] == n0[i] && nodes[i] != newLast;
      assert forall i | 0 <= i < |n0| - 1 :: nodes[i] != n0[|n0| - 1];
    }

    /** Removes and returns the front item; an empty deque throws. */
    method RemoveFirst() returns (r: Result<T>)
      requires Valid()
      modifies Repr
      ensures Valid() && Repr <= old(Repr)
      ensures old(Contents) == [] ==> r == Throws(NoSuchElement) && unchanged(this)
      ensures old(Contents) != [] ==> r == Ok(old(Contents)[0]) && Contents == old(Contents)[1..]
    {
      if size == 0 {
        return Throws(NoSuchElement);
      }
      ghost var n0 := nodes;
      var firstItem := first.item;
      first := first.next;
      if first != null {
        assert first == n0[1];
        first.prev := null;
      } else {
        last := null;
      }
      size := size - 1;
      nodes := n0[1..];
      Contents := Contents[1..];
      Repr := Repr - {n0[0]};
      assert forall i | 0 <= i < |nodes| :: nodes[i] == n0[i + 1] && n0[i + 1] != n0[0];
      assert forall i | 1 <= i < |nodes| :: nodes[i] != n0[1];
      r := Ok(firstItem);
    }

    /** Removes and returns the end item; an empty deque throws. */
    method RemoveLast() returns (r: Result<T>)
      requires Valid()
      modifies Repr
      ensures Valid() && Repr <= old(Repr)
      ensures old(Contents) == [] ==> r == Throws(NoSuchElement) && unchanged(this)
      ensures old(Contents) != [] ==> r == Ok(old(Contents)[|old(Contents)| - 1]) && Contents == old(Contents)[..|old(Contents)| - 1]
    {
      if size == 0 {
        return Throws(NoSuchElement);
      }
      ghost var n0 := nodes;
      var lastItem := last.item;
      last := last.prev;
      if last != null {
        assert last == n0[size - 2];
        last.next := null;
      } else {
        first := null;
      }
      size := size - 1;
      nodes := n0[..size];
      Contents := Contents[..size];
      Repr := Repr - {n0[size]};
      assert forall i | 0 <= i < |nodes| :: nodes[i] == n0[i] && n0[i] != n0[size];
      assert forall i | 0 <= i < |nodes| - 1 :: nodes[i] != n0[size - 1];
      r := Ok(lastItem);
    }

    /** An iterator positioned at the front. */
    method Iterator() returns (it: DequeIterator<T>)
      requires Valid()
      ensures fresh(it) && it.Valid() && it.deque == this && it.position == 0
    {
      it := new DequeIterator(this);
    }
  }

  /** Walks a deque from front to end; `position` counts the items already returned. */
  class DequeIterator<T> {
    var lastAccessed: Node?<T>
    ghost const deque: Deque<T>
    ghost var position: nat

    ghost predicate Valid()
      reads this, deque, deque.Repr
    {
      && deque.Valid()
      && this !in deque.Repr
      && position <= |deque.nodes|
      && lastAccessed == (if position < |deque.nodes| then deque.nodes[position] else null)
    }

    constructor (d: Deque<T>)
      requires d.Valid()
      ensures Valid() && deque == d && position == 0
    {
      lastAccessed := d.first;
      deque := d;
      position := 0;
    }

    function HasNext(): (b: bool)
      requires Valid()
      reads this, deque, deque.Repr
      ensures b <==> position < |deque.Contents|
    {
      lastAccessed != null
    }

    /** Returns the next item, or throws once every item has been returned. */
    method Next() returns (r: Result<T>)
      requires Valid()
      modifies this
      ensures Valid()
      ensures old(position) == |deque.Contents| ==> r == Throws(NoSuchElement) && unchanged(this)
      ensures old(position) < |deque.Contents| ==> r == Ok(deque.Contents[old(position)]) && position == old(position) + 1
    {
      if lastAccessed == null {
        return Throws(NoSuchElement);
      }
      var nextItem := lastAccessed.item;
      lastAccessed := lastAccessed.next;
      position := position + 1;
      r := Ok(nextItem);
    }
  }

  /**
   * A for-each loop over the deque: the iterator returns the items front to
   * end and throws once they are exhausted.
   */
  method Drain<T>(d: Deque<T>) returns (items: seq<T>, after: Result<T>)
    requires d.Valid()
    ensures items == d.Contents && after == Throws(NoSuchElement)
  {
    var it := d.Iterator();
    items := [];
    while it.HasNext()
      invariant it.Valid() && it.deque == d
      invariant items == d.Contents[..it.position]
      decreases |d.Contents| - it.position
    {
      var x := it.Next();
      items := items + [x.value];
    }
    after := it.Next();
  }

  /**
   * A new deque is empty; items come back out of the end they are taken
   * from; a null item and a removal from an empty deque throw.
   */
  method DequeExample() returns (wasEmpty: bool, nullAdd: Result<()>, back: Result<int>, front: Result<int>, drained: Result<int>)
    ensures wasEmpty && nullAdd == Throws(NullPointer)
    ensures back == Ok(2) && front == Ok(1) && drained == Throws(NoSuchElement)
  {
    var d := new Deque<int>();
    wasEmpty := d.IsEmpty();
    var _ := d.AddFirst(Some(1));
    var _ := d.AddLast(Some(2));
    nullAdd := d.AddFirst(None);
    back := d.RemoveLast();
    front := d.RemoveFirst();
    drained := d.RemoveFirst();
  }
}
