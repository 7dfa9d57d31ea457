/** The double-ended queue (Deques/src/Deque.java): a ring of doubly linked
    nodes through a sentinel node, with a size counter, and its front-to-back
    iterator. A null item is the None of an Option; the exceptions are the
    failures of a Result or an Outcome. */
module Deque {
  import opened Wrappers

  class Node<T> {
    var item: Option<T>
    var prev: Node?<T>
    var next: Node?<T>

    constructor (item: Option<T>, prev: Node?<T>, next: Node?<T>)
      ensures this.item == item && this.prev == prev && this.next == next
    {
      this.item := item;
      this.prev := prev;
      this.next := next;
    }
  }

  /** Position i of the ring: the nodes in order, with the sentinel before
      the first and after the last. */
  function Ring<T>(nodes: seq<Node<T>>, sentinel: Node<T>, i: int): Node<T> {
    if 0 <= i < |nodes| then nodes[i] else sentinel
  }

  /** s back to front. */
  function Reverse<T>(s: seq<T>): (r: seq<T>)
    ensures |r| == |s|
  {
    if s == [] then [] else Reverse(s[1..]) + [s[0]]
  }

  lemma {:induction false} ReverseAppend<T>(s: seq<T>, x: T)
    ensures Reverse(s + [x]) == [x] + Reverse(s)
  {
    if s != [] {
      assert (s + [x])[1..] == s[1..] + [x];
      ReverseAppend(s[1..], x);
    } else {
      assert Reverse([x]) == Reverse([x][1..]) + [x];
    }
  }

  class Deque<T> {
    const sentinel: Node<T>
    var size: int
    /** The nodes of the ring after the sentinel, front to back, and the
        items they hold. */
    ghost var nodes: seq<Node<T>>
    ghost var items: seq<T>
    ghost var Repr: set<object>

    /** Node i of the ring holds item i and is linked to its neighbours. */
    ghost predicate Linked(i: int)
      reads this, Repr
    {
      && 0 <= i < |nodes| && i < |items|
      && nodes[i] in Repr && nodes[i] != sentinel
      && nodes[i].item == Some(items[i])
      && nodes[i].next == Ring(nodes, sentinel, i + 1)
      && nodes[i].prev == Ring(nodes, sentinel, i - 1)
    }

    /** The ring is closed through the sentinel, `prev` and `next` agree,
        every node but the sentinel holds an item, and `size` counts the
        nodes. */
    ghost predicate Valid()
      reads this, Repr
      ensures Valid() ==> this in Repr
    {
      && this in Repr && sentinel in Repr
      && size == |nodes| && |items| == |nodes|
      && (forall i, j :: 0 <= i < j < |nodes| ==> nodes[i] != nodes[j])
      && sentinel.next == Ring(nodes, sentinel, 0)
      && sentinel.prev == Ring(nodes, sentinel, |nodes| - 1)
      && forall i :: 0 <= i < |nodes| ==> Linked(i)
    }

    /** An empty deque: the sentinel linked to itself. */
    constructor ()
      ensures Valid() && fresh(Repr) && items == []
      ensures sentinel.next == sentinel && sentinel.prev == sentinel
    {
      var s := new Node<T>(None, null, null);
      s.prev := s;
      s.next := s;
      sentinel := s;
      size := 0;
      nodes := [];
      items := [];
      Repr := {this, s};
    }

    method IsEmpty() returns (r: bool)
      requires Valid()
      ensures r <==> items == []
    {
      return size == 0;
    }

    method Size() returns (r: int)
      requires Valid()
      ensures r == |items|
    {
      return size;
    }

    /** `addFirst`: a null item throws; otherwise a new node goes between
        the sentinel and the old first node. */
    method AddFirst(item: Option<T>) returns (r: Outcome)
      requires Valid()
      modifies Repr
      ensures Valid() && fresh(Repr - old(Repr))
      ensures item.None? ==> r == Fail(IllegalArgument) && items == old(items)
      ensures item.Some? ==> r == Pass && items == [item.value] + old(items)
    {
      if item.None? {
        return Fail(IllegalArgument);
      }
      var first: Node<T> := sentinel.next;
      assert first in Repr && first == Ring(nodes, sentinel, 0) && (|nodes| > 0 ==> first != sentinel) by {
        if |nodes| > 0 {
          assert Linked(0);
        }
      }
      var node := new Node(item, sentinel, first);
      first.prev := node;
      sentinel.next := node;
      size := size + 1;
      nodes := [node] + nodes;
      items := [item.value] + items;
      Repr := Repr + {node};
      forall i | 0 <= i < |nodes|
        ensures Linked(i)
      {
        if i > 0 {
          assert old(Linked(i - 1));
        }
      }
      if |old(nodes)| == 0 {
        assert sentinel.prev == node;
      } else {
        assert sentinel.prev == old(sentinel.prev) == old(nodes)[|old(nodes)| - 1];
        assert nodes[|nodes| - 1] == old(nodes)[|old(nodes)| - 1];
      }
      return Pass;
    }

    /** `addLast`: a null item throws; otherwise a new node goes between
        the old last node and the sentinel. */
    method AddLast(item: Option<T>) returns (r: Outcome)
      requires Valid()
      modifies Repr
      ensures Valid() && fresh(Repr - old(Repr))
      ensures item.None? ==> r == Fail(IllegalArgument) && items == old(items)
      ensures item.Some? ==> r == Pass && items == old(items) + [item.value]
    {
      if item.None? {
        return Fail(IllegalArgument);
      }
      var last: Node<T> := sentinel.prev;
      assert last in Repr && last == Ring(nodes, sentinel, |nodes| - 1) && (|nodes| > 0 ==> last != sentinel) by {
        if |nodes| > 0 {
          assert Linked(|nodes| - 1);
        }
      }
      var node := new Node(item, last, sentinel);
      last.next := node;
      sentinel.prev := node;
      size := size + 1;
      nodes := nodes + [node];
      items := items + [item.value];
      Repr := Repr + {node};
      forall i | 0 <= i < |nodes|
        ensures Linked(i)
      {
        if i < |nodes| - 1 {
          assert old(Linked(i));
        }
      }
      if |old(nodes)| == 0 {
        assert sentinel.next == node;
      } else {
        assert sentinel.next == old(sentinel.next) == old(nodes)[0];
        assert nodes[0] == old(nodes)[0];
      }
      return Pass;
    }

    /** `removeFirst`: an empty deque throws; otherwise the first node is
        unlinked and its item returned. */
    method RemoveFirst() returns (r: Result<T>)
      requires Valid()
      modifies Repr
      ensures Valid() && Repr == old(Repr)
      ensures old(items) == [] ==> r == Failure(NoSuchElement) && items == old(items)
      ensures old(items) != [] ==> r == Success(old(items)[0]) && items == old(items)[1..]
    {
      if size == 0 {
        return Failure(NoSuchElement);
      }
      assert Linked(0);
      var first := sentinel.next.item;
      var second: Node<T> := sentinel.next.next;
      assert second in Repr && second == Ring(nodes, sentinel, 1) && (|nodes| > 1 ==> second != sentinel) by {
        if |nodes| > 1 {
          assert Linked(1);
        }
      }
      sentinel.next := second;
      second.prev := sentinel;
      size := size - 1;
      nodes := nodes[1..];
      items := items[1..];
      forall i | 0 <= i < |nodes|
        ensures Linked(i)
      {
        assert old(Linked(i + 1));
      }
      if |nodes| == 0 {
        assert sentinel.prev == sentinel;
      } else {
        assert sentinel.prev == old(sentinel.prev) == old(nodes)[|old(nodes)| - 1];
        assert nodes[|nodes| - 1] == old(nodes)[|old(nodes)| - 1];
      }
      r := Success(first.value);
    }

    /** `removeLast`: an empty deque throws; otherwise the last node is
        unlinked and its item returned. */
    method RemoveLast() returns (r: Result<T>)
      requires Valid()
      modifies Repr
      ensures Valid() && Repr == old(Repr)
      ensures old(items) == [] ==> r == Failure(NoSuchElement) && items == old(items)
      ensures old(items) != [] ==> r == Success(old(items)[|old(items)| - 1]) && items == old(items)[..|old(items)| - 1]
    {
      if size == 0 {
        return Failure(NoSuchElement);
      }
      var k := |nodes| - 1;
      assert Linked(k);
      var last := sentinel.prev.item;
      var before: Node<T> := sentinel.prev.prev;
      assert before in Repr && before == Ring(nodes, sentinel, k - 1) && (k > 0 ==> before != sentinel) by {
        if k > 0 {
          assert Linked(k - 1);
        }
      }
      sentinel.prev := before;
      before.next := sentinel;
      size := size - 1;
      nodes := nodes[..k];
      items := items[..k];
      forall i | 0 <= i < |nodes|
        ensures Linked(i)
      {
        assert old(Linked(i));
      }
      if |nodes| == 0 {
        assert sentinel.next == sentinel;
      } else {
        assert sentinel.next == old(sentinel.next) == old(nodes)[0];
        assert nodes[0] == old(nodes)[0];
      }
      r := Success(last.value);
    }

    /** `iterator`: a new iterator over the items, front to back. */
    method Iterator() returns (it: DequeIterator<T>)
      requires Valid()
      ensures fresh(it) && it.Valid() && it.deque == this && it.position == 0
    {
      it := new DequeIterator(this);
    }
  }

  /** The iterator: the node it stands on and how many items it has
      returned. */
  class DequeIterator<T> {
    const deque: Deque<T>
    var current: Node<T>
    var position: int

    ghost predicate Valid()
      reads this, deque, deque.Repr
    {
      && deque.Valid() && this !in deque.Repr
      && 0 <= position <= |deque.items|
      && current == Ring(deque.nodes, deque.sentinel, position)
    }

    /** Starts at the first node. */
    constructor (d: Deque<T>)
      requires d.Valid()
      ensures Valid() && deque == d && position == 0
    {
      deque := d;
      current := d.sentinel.next;
      position := 0;
    }

    method HasNext() returns (b: bool)
      requires Valid()
      ensures b <==> position < |deque.items|
    {
      return position < deque.size;
    }

    /** `next`: the item at the current position, front to back; past the
        end it throws. */
    method Next() returns (r: Result<T>)
      requires Valid()
      modifies this
      ensures Valid()
      ensures old(position) < |deque.items| ==>
                r == Success(deque.items[old(position)]) && position == old(position) + 1
      ensures old(position) >= |deque.items| ==>
                r == Failure(NoSuchElement) && position == old(position)
    {
      if position >= deque.size {
        return Failure(NoSuchElement);
      }
      assert deque.Linked(position);
      var item := current.item;
      current := current.next;
      position := position + 1;
      return Success(item.value);
    }

    /** `remove` is not supported. */
    method Remove() returns (r: Outcome)
      ensures r == Fail(Unsupported)
    {
      return Fail(Unsupported);
    }
  }

  /** The unit test of the source, for any two lists of items: adding the
      first list at the front and the second at the back, the iterator then
      yields the first list backwards followed by the second. */
  method FrontAndBack<T>(a: seq<T>, b: seq<T>) returns (out: seq<T>)
    ensures out == Reverse(a) + b
  {
    var d := Fill(a, b);
    out := Drain(d);
  }

  /** addFirst of every item of a, then addLast of every item of b. */
  method Fill<T>(a: seq<T>, b: seq<T>) returns (d: Deque<T>)
    ensures fresh(d.Repr) && d.Valid() && d.items == Reverse(a) + b
  {
    d := new Deque<T>();
    for i := 0 to |a|
      invariant d.Valid() && fresh(d.Repr)
      invariant d.items == Reverse(a[..i])
    {
      var _ := d.AddFirst(Some(a[i]));
      assert a[..i + 1] == a[..i] + [a[i]];
      ReverseAppend(a[..i], a[i]);
    }
    assert a[..|a|] == a;
    for i := 0 to |b|
      invariant d.Valid() && fresh(d.Repr)
      invariant d.items == Reverse(a) + b[..i]
    {
      var _ := d.AddLast(Some(b[i]));
      assert b[..i + 1] == b[..i] + [b[i]];
    }
    assert b[..|b|] == b;
  }

  /** The items the iterator yields, in order. */
  method Drain<T>(d: Deque<T>) returns (out: seq<T>)
    requires d.Valid()
    ensures out == d.items
  {
    var it := d.Iterator();
    out := [];
    var more := it.HasNext();
    while more
      invariant it.Valid() && it.deque == d
      invariant out == d.items[..it.position]
      invariant more <==> it.position < |d.items|
      decreases |d.items| - it.position
    {
      ghost var k := it.position;
      var x := it.Next();
      assert d.items[..k + 1] == d.items[..k] + [d.items[k]];
      out := out + [x.value];
      more := it.HasNext();
    }
  }
}
