/** The randomized queue (Deques/src/RandomizedQueue.java): a resizing array
    bag whose removals and samples take a random slot. The random slot is a
    parameter (any slot below the size, as StdRandom.uniformInt(size)
    returns), and the shuffle of the iterator is a permutation parameter.
    Null slots are None. */
module RandomizedQueue {
  import opened Wrappers
  import opened Lex

  /** The initial capacity. */
  const InitSize: int := 8

  /** The capacities the array takes: 8, doubled any number of times. */
  predicate IsCapacity(c: int)
    decreases if c < 0 then 0 else c
  {
    c == InitSize || (c > InitSize && c % 2 == 0 && IsCapacity(c / 2))
  }

  lemma {:induction false} CapacityAtLeastInit(c: int)
    requires IsCapacity(c)
    ensures c >= InitSize
    decreases if c < 0 then 0 else c
  {
    if c != InitSize {
      CapacityAtLeastInit(c / 2);
    }
  }

  /** Removing slot k by moving the last item into it takes away one copy
      of the item at k and keeps the others. */
  lemma RemoveBySwap<T>(s: seq<T>, k: int)
    requires 0 <= k < |s|
    ensures multiset(s[k := s[|s| - 1]][..|s| - 1]) == multiset(s) - multiset{s[k]}
  {
    var n := |s|;
    var t := s[k := s[n - 1]];
    if k == n - 1 {
      assert s == s[..n - 1] + [s[n - 1]];
      assert t[..n - 1] == s[..n - 1];
    } else {
      assert s == s[..k] + [s[k]] + s[k + 1..n - 1] + [s[n - 1]];
      assert t[..n - 1] == s[..k] + [s[n - 1]] + s[k + 1..n - 1];
    }
  }

  /** Listing the items in a permuted order keeps every item. */
  lemma PermutedItems<T>(s: seq<T>, order: seq<int>)
    requires IsPermutation(order, |s|)
    ensures multiset(seq(|s|, j requires 0 <= j < |s| => s[order[j]])) == multiset(s)
  {
    var n := |s|;
    if n > 0 {
      var f := (i: int) => s[if 0 <= i < n then i else 0];
      MapPreservesMultiset(f, order, Range(n));
      assert MapSeq(f, order) == seq(n, j requires 0 <= j < n => s[order[j]]);
      assert MapSeq(f, Range(n)) == s;
    }
  }

  class RandomizedQueue<T> {
    var items: array<Option<T>>
    var size: int
    var arraySize: int
    /** The items in the first `size` slots, in slot order. */
    ghost var elems: seq<T>

    /** Slots below `size` hold the items, slots from `size` on are null,
        and the capacity is 8 doubled some number of times. */
    ghost predicate Valid()
      reads this, items
    {
      && items.Length == arraySize && IsCapacity(arraySize)
      && 0 <= size <= arraySize && |elems| == size
      && (forall i :: 0 <= i < size ==> items[i] == Some(elems[i]))
      && (forall i :: size <= i < arraySize ==> items[i] == None)
    }

    /** An empty queue of capacity 8. */
    constructor ()
      ensures Valid() && fresh(items) && elems == [] && arraySize == InitSize
    {
      items := new Option<T>[InitSize](_ => None);
      size := 0;
      arraySize := InitSize;
      elems := [];
    }

    method IsEmpty() returns (r: bool)
      requires Valid()
      ensures r <==> elems == []
    {
      return size == 0;
    }

    method Size() returns (r: int)
      requires Valid()
      ensures r == |elems|
    {
      return size;
    }

    /** `resize`: a new array of the given capacity holding the items. */
    method Resize(capacity: int)
      requires Valid() && IsCapacity(capacity) && size <= capacity
      modifies this
      ensures Valid() && fresh(items)
      ensures elems == old(elems) && size == old(size) && arraySize == capacity
    {
      var temp := new Option<T>[capacity](_ => None);
      for i := 0 to size
        modifies temp
        invariant forall j :: 0 <= j < i ==> temp[j] == items[j]
        invariant forall j :: i <= j < capacity ==> temp[j] == None
      {
        temp[i] := items[i];
      }
      items := temp;
      arraySize := capacity;
    }

    /** `enqueue`: a null item throws; a full array doubles first; the item
        goes to slot `size`. */
    method Enqueue(item: Option<T>) returns (r: Outcome)
      requires Valid()
      modifies this, items
      ensures Valid() && (items == old(items) || fresh(items))
      ensures item.None? ==> r == Fail(IllegalArgument) && elems == old(elems) && arraySize == old(arraySize)
      ensures item.Some? ==> r == Pass && elems == old(elems) + [item.value]
      ensures item.Some? ==> arraySize == if old(size) == old(arraySize) then 2 * old(arraySize) else old(arraySize)
    {
      if item.None? {
        return Fail(IllegalArgument);
      }
      if size == arraySize {
        assert (2 * arraySize) / 2 == arraySize;
        CapacityAtLeastInit(arraySize);
        Resize(arraySize * 2);
      }
      items[size] := item;
      size := size + 1;
      elems := elems + [item.value];
      return Pass;
    }

    /** `dequeue`, with the random slot `index`: an empty queue throws;
        otherwise the item at `index` is returned, the last item moves into
        its slot, and the array halves when it is more than 8 long and
        less than a quarter full (`size < 0.25 * arraySize`, exact). */
    method Dequeue(index: int) returns (r: Result<T>)
      requires Valid()
      requires size > 0 ==> 0 <= index < size
      modifies this, items
      ensures Valid() && (items == old(items) || fresh(items))
      ensures old(size) == 0 ==> r == Failure(NoSuchElement) && elems == old(elems) && arraySize == old(arraySize)
      ensures old(size) > 0 ==>
                && r == Success(old(elems)[index])
                && elems == old(elems)[index := old(elems)[old(size) - 1]][..old(size) - 1]
                && multiset(elems) == multiset(old(elems)) - multiset{r.value}
      ensures old(size) > 0 ==>
                arraySize == if old(arraySize) > InitSize && 4 * (old(size) - 1) < old(arraySize)
                             then old(arraySize) / 2 else old(arraySize)
    {
      if size == 0 {
        return Failure(NoSuchElement);
      }
      var item := RemoveAt(index);
      if arraySize > InitSize && 4 * size < arraySize {
        assert IsCapacity(arraySize / 2);
        Resize(arraySize / 2);
      }
      return Success(item);
    }

    /** The removal step of `dequeue`: the item at `index` is taken out and
        the last item moves into its slot, in the same array. */
    method RemoveAt(index: int) returns (item: T)
      requires Valid() && 0 <= index < size
      modifies this`size, this`elems, items
      ensures Valid() && arraySize == old(arraySize)
      ensures item == old(elems)[index]
      ensures elems == old(elems)[index := old(elems)[old(size) - 1]][..old(size) - 1]
      ensures multiset(elems) == multiset(old(elems)) - multiset{item}
    {
      RemoveBySwap(elems, index);
      var last := size - 1;
      var slot := items[index];
      items[index] := items[last];
      items[last] := None;
      size := size - 1;
      elems := elems[index := elems[last]][..last];
      item := slot.value;
    }

    /** `sample`, with the random slot `index`: the item there, or an
        exception for an empty queue; nothing changes. */
    method Sample(index: int) returns (r: Result<T>)
      requires Valid()
      requires size > 0 ==> 0 <= index < size
      ensures |elems| == 0 ==> r == Failure(NoSuchElement)
      ensures |elems| > 0 ==> r == Success(elems[index])
    {
      if size == 0 {
        return Failure(NoSuchElement);
      }
      return Success(items[index].value);
    }

    /** `iterator`, with the shuffle given as the permutation `order`: the
        items copied out and listed in that order. */
    method Iterator(order: seq<int>) returns (it: RandomDequeIterator<T>)
      requires Valid() && IsPermutation(order, size)
      ensures fresh(it) && it.queue == this && it.position == 0
      ensures |it.randomized| == |elems| && multiset(it.randomized) == multiset(elems)
    {
      var n := size;
      ghost var e := elems;
      var copy: seq<T> := [];
      for j := 0 to n
        invariant |copy| == j && forall m :: 0 <= m < j ==> copy[m] == elems[order[m]]
      {
        copy := copy + [items[order[j]].value];
      }
      PermutedItems(e, order);
      assert copy == seq(n, j requires 0 <= j < n => e[order[j]]);
      it := new RandomDequeIterator(this, copy);
    }
  }

  /** The iterator: the shuffled copy and how many items it has returned.
      `hasNext` compares with the current size of the queue. */
  class RandomDequeIterator<T> {
    const queue: RandomizedQueue<T>
    const randomized: seq<T>
    var position: int

    constructor (q: RandomizedQueue<T>, copy: seq<T>)
      ensures queue == q && randomized == copy && position == 0
    {
      queue := q;
      randomized := copy;
      position := 0;
    }

    method HasNext() returns (b: bool)
      ensures b <==> position < queue.size
    {
      return position < queue.size;
    }

    /** `next`: past the size of the queue it throws; a queue that grew
        since the copy was made runs off the end of the copy, after the
        position has already been advanced (the increment is evaluated
        before the array access fails). */
    method Next() returns (r: Result<T>)
      requires 0 <= position
      modifies this
      ensures old(position) >= queue.size ==> r == Failure(NoSuchElement) && position == old(position)
      ensures old(position) < queue.size && old(position) >= |randomized| ==>
                r == Failure(IndexOutOfBounds) && position == old(position) + 1
      ensures old(position) < queue.size && old(position) < |randomized| ==>
                r == Success(randomized[old(position)]) && position == old(position) + 1
    {
      if position >= queue.size {
        return Failure(NoSuchElement);
      }
      if position >= |randomized| {
        position := position + 1;
        return Failure(IndexOutOfBounds);
      }
      r := Success(randomized[position]);
      position := position + 1;
    }

    /** `remove` is not supported. */
    method Remove() returns (r: Outcome)
      ensures r == Fail(Unsupported)
    {
      return Fail(Unsupported);
    }
  }

  /** The dequeue half of the unit test of the source: dequeuing as many
      times as there are items, with any slot choices, returns every item
      exactly once and leaves the queue empty. */
  method DequeueAll<T>(q: RandomizedQueue<T>, picks: seq<int>) returns (out: seq<T>)
    requires q.Valid() && |picks| == |q.elems|
    requires forall i :: 0 <= i < |picks| ==> 0 <= picks[i] < |picks| - i
    modifies q, q.items
    ensures q.Valid() && q.elems == [] && multiset(out) == multiset(old(q.elems))
  {
    out := [];
    for i := 0 to |picks|
      invariant q.Valid() && (q.items == old(q.items) || fresh(q.items))
      invariant |q.elems| == |picks| - i
      invariant multiset(out) + multiset(q.elems) == multiset(old(q.elems))
    {
      var r := q.Dequeue(picks[i]);
      out := out + [r.value];
    }
  }
}
