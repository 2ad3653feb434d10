/**
 * A randomized queue kept in a resizing array. Each slot holds an
 * `Option<T>`: `None` is Java's `null`, which marks the unused slots past
 * `size`. Every draw from the random-number library is an arbitrary choice
 * in its range, so what is proved here holds for every outcome.
 */
module RandomizedQueues {
  import opened Wrappers

  /** The indices `0, 1, ..., n - 1` in order. */
  function Range(n: nat): (r: seq<int>)
    ensures |r| == n && forall k | 0 <= k < n :: r[k] == k
  {
    seq(n, i => i)
  }

  /** `n` empty slots. */
  function Nones<E>(n: nat): (r: seq<Option<E>>)
    ensures |r| == n && forall k | 0 <= k < n :: r[k] == None
  {
    seq(n, _ => None)
  }

  /** Every entry of `idx` is an index into `a`. */
  predicate Indexes<E>(a: seq<E>, idx: seq<int>)
  {
    forall k | 0 <= k < |idx| :: 0 <= idx[k] < |a|
  }

  /** The elements of `a` at the positions `idx`, in that order. */
  function Gather<E>(a: seq<E>, idx: seq<int>): (r: seq<E>)
    requires Indexes(a, idx)
    ensures |r| == |idx| && forall k | 0 <= k < |idx| :: r[k] == a[idx[k]]
  {
    seq(|idx|, k requires 0 <= k < |idx| => a[idx[k]])
  }

  /** Gathering along `0, ..., n - 1` reads the first `n` elements. */
  lemma GatherRange<E>(a: seq<E>, n: nat)
    requires n <= |a|
    ensures Indexes(a, Range(n)) && Gather(a, Range(n)) == a[..n]
  {
  }

  /** The members of `multiset(Range(n))` are exactly `0, ..., n - 1`. */
  lemma RangeMembers(n: nat, x: int)
    ensures x in multiset(Range(n)) <==> 0 <= x < n
  {
    if 0 <= x < n {
      assert Range(n)[x] == x;
    }
  }

  /** Dropping position `j` of `s` takes one copy of `s[j]` out of its multiset. */
  lemma DropOne<E>(s: seq<E>, j: int)
    requires 0 <= j < |s|
    ensures multiset(s[..j] + s[j + 1..]) == multiset(s) - multiset{s[j]}
  {
    assert s == s[..j] + [s[j]] + s[j + 1..];
  }

  /** Dropping index `j` from `idx` takes one copy of `a[idx[j]]` out of the gathered multiset. */
  lemma GatherDropOne<E>(a: seq<E>, idx: seq<int>, j: int)
    requires Indexes(a, idx) && 0 <= j < |idx|
    ensures Indexes(a, idx[..j] + idx[j + 1..])
    ensures multiset(Gather(a, idx)) == multiset(Gather(a, idx[..j] + idx[j + 1..])) + multiset{a[idx[j]]}
  {
    var g := Gather(a, idx);
    assert Gather(a, idx[..j] + idx[j + 1..]) == g[..j] + g[j + 1..];
    DropOne(g, j);
  }

  /** Removing the same index from two rearrangements leaves two rearrangements. */
  lemma DropMatching(idx: seq<int>, idx2: seq<int>, j: int)
    requires multiset(idx) == multiset(idx2) && |idx| > 0
    requires 0 <= j < |idx2| && idx2[j] == idx[|idx| - 1]
    ensures multiset(idx[..|idx| - 1]) == multiset(idx2[..j] + idx2[j + 1..])
  {
    var n := |idx|;
    DropOne(idx, n - 1);
    DropOne(idx2, j);
    assert idx[..n - 1] + idx[n..] == idx[..n - 1];
  }

  /**
   * Gathering along two rearrangements of the same indices gives the same
   * multiset of elements.
   */
  lemma {:induction false} GatherPermutation<E>(a: seq<E>, idx: seq<int>, idx2: seq<int>)
    requires Indexes(a, idx) && Indexes(a, idx2)
    requires multiset(idx) == multiset(idx2)
    ensures multiset(Gather(a, idx)) == multiset(Gather(a, idx2))
    decreases |idx|
  {
    if |idx| == 0 {
      assert |multiset(idx2)| == 0;
    } else {
      var n := |idx|;
      assert idx[n - 1] in multiset(idx2) by {
        assert idx[n - 1] in multiset(idx);
      }
      var j :| 0 <= j < |idx2| && idx2[j] == idx[n - 1];
      DropMatching(idx, idx2, j);
      GatherDropOne(a, idx, n - 1);
      GatherDropOne(a, idx2, j);
      assert idx[..n - 1] + idx[n..] == idx[..n - 1];
      GatherPermutation(a, idx[..n - 1], idx2[..j] + idx2[j + 1..]);
    }
  }

  /** The slots of `s` all hold an item exactly when `None` is not among them. */
  lemma AllSome<E>(s: seq<Option<E>>)
    ensures (forall i | 0 <= i < |s| :: s[i].Some?) <==> None !in multiset(s)
  {
    if None in multiset(s) {
      var i :| 0 <= i < |s| && s[i] == None;
    }
  }

  /**
   * Overwriting `s[k]` with the last element and dropping the last slot takes
   * one copy of `s[k]` out of the multiset.
   */
  lemma TakeOut<E>(s: seq<E>, k: int)
    requires 0 <= k < |s|
    ensures var n := |s| - 1;
      multiset(if k < n then s[..n][k := s[n]] else s[..n]) == multiset(s) - multiset{s[k]}
  {
    var n := |s| - 1;
    assert s == s[..n] + [s[n]];
  }

  /**
   * The slot layout of the queue's array: the first `n` slots hold items and
   * every later slot is empty.
   */
  ghost predicate Slots<E>(s: seq<Option<E>>, n: int)
  {
    && 0 <= n <= |s|
    && (forall i | 0 <= i < n :: s[i].Some?)
    && (forall i | n <= i < |s| :: s[i] == None)
  }

  /** Rearranging the first `n` slots keeps the layout. */
  lemma StirredSlots<E>(s: seq<Option<E>>, t: seq<Option<E>>, n: int)
    requires Slots(s, n) && |t| == |s|
    requires multiset(t[..n]) == multiset(s[..n]) && t[n..] == s[n..]
    ensures Slots(t, n)
  {
    AllSome(s[..n]);
    AllSome(t[..n]);
    forall i | 0 <= i < n
      ensures t[i].Some?
    {
      assert t[..n][i] == t[i];
    }
    forall i | n <= i < |t|
      ensures t[i] == None
    {
      assert t[i] == t[n..][i - n] == s[n..][i - n];
    }
  }

  /** Filling the first empty slot with an item keeps the layout, one slot longer. */
  lemma PushSlot<E>(s: seq<Option<E>>, n: int, x: Option<E>)
    requires Slots(s, n) && n < |s| && x.Some?
    ensures Slots(s[n := x], n + 1) && s[n := x][..n + 1] == s[..n] + [x]
  {
  }

  /**
   * Moving the last item into slot `k` and clearing the last slot keeps the
   * layout, one slot shorter, and takes one copy of `s[k]` out of the items.
   */
  lemma TakeOutSlots<E>(s: seq<Option<E>>, n: int, k: int)
    requires Slots(s, n + 1) && 0 <= k <= n
    ensures Slots(s[k := s[n]][n := None], n)
    ensures multiset(s[k := s[n]][n := None][..n]) == multiset(s[..n + 1]) - multiset{s[k]}
  {
    var t := s[k := s[n]][n := None];
    TakeOut(s[..n + 1], k);
    if k < n {
      assert t[..n] == s[..n + 1][..n][k := s[n]];
    } else {
      assert t[..n] == s[..n + 1][..n];
    }
  }

  /** Exchanging two entries inside `s[lo..hi]` keeps its multiset and everything outside it. */
  lemma SwapInside<E>(s: seq<E>, lo: int, hi: int, i: int, j: int)
    requires 0 <= lo <= i < hi <= |s| && lo <= j < hi
    ensures multiset(s[i := s[j]][j := s[i]][lo..hi]) == multiset(s[lo..hi])
  {
    var t := s[i := s[j]][j := s[i]];
    assert t[lo..hi] == s[lo..hi][i - lo := s[j]][j - lo := s[i]];
  }

  /** Exchanges `a[i]` and `a[j]`. */
  method Swap<E>(a: array<E>, i: int, j: int)
    requires 0 <= i < a.Length && 0 <= j < a.Length
    modifies a
    ensures a[..] == old(a[..])[i := old(a[j])][j := old(a[i])]
  {
    a[i], a[j] := a[j], a[i];
  }

  /** Exchanges two slots of `a[lo..hi)`; nothing outside the range moves. */
  method SwapWithin<E>(a: array<E>, lo: int, hi: int, i: int, j: int)
    requires 0 <= lo <= i < hi <= a.Length && lo <= j < hi
    modifies a
    ensures multiset(a[lo..hi]) == old(multiset(a[lo..hi]))
    ensures a[..lo] == old(a[..lo]) && a[hi..] == old(a[hi..])
  {
    ghost var before := a[..];
    Swap(a, i, j);
    SwapInside(before, lo, hi, i, j);
  }

  /**
   * Rearranges `a[lo..hi)` the way a Fisher-Yates shuffle does: each slot in
   * turn is exchanged with an arbitrarily chosen slot at or after it. Nothing
   * outside the range moves.
   */
  method Shuffle<E>(a: array<E>, lo: int, hi: int)
    requires 0 <= lo <= hi <= a.Length
    modifies a
    ensures multiset(a[lo..hi]) == old(multiset(a[lo..hi]))
    ensures a[..lo] == old(a[..lo]) && a[hi..] == old(a[hi..])
  {
    for i := lo to hi
      invariant multiset(a[lo..hi]) == old(multiset(a[lo..hi]))
      invariant a[..lo] == old(a[..lo]) && a[hi..] == old(a[hi..])
    {
      var r :| i <= r < hi;
      SwapWithin(a, lo, hi, i, r);
    }
  }

  class RandomizedQueue<T> {
    var items: array<Option<T>>
    var size: int

    /**
     * The queue invariant: the capacity is at least 2, the first `size`
     * slots hold the items and every slot after them is empty.
     */
    ghost predicate Valid()
      reads this, items
    {
      2 <= items.Length && Slots(items[..], size)
    }

    /** The items on the queue, each wrapped in `Some`. */
    ghost function Live(): multiset<Option<T>>
      requires Valid()
      reads this, items
    {
      multiset(items[..size])
    }

    /** An empty queue with room for two items. */
    constructor ()
      ensures Valid() && fresh(items)
      ensures items.Length == 2 && size == 0 && Live() == multiset{}
    {
      items := new Option<T>[2](_ => None);
      size := 0;
    }

    function IsEmpty(): (e: bool)
      requires Valid()
      reads this, items
      ensures e <==> Live() == multiset{}
    {
      Size() <= 0
    }

    function Size(): (n: int)
      requires Valid()
      reads this, items
      ensures n == |Live()|
    {
      size
    }

    /** Adds `item`, doubling the array first when it is full; a null item throws. */
    method Enqueue(item: Option<T>) returns (r: Result<()>)
      requires Valid()
      modifies this, items
      ensures Valid() && (items == old(items) || fresh(items))
      ensures item.None? ==> r == Throws(NullPointer) && unchanged(this) && unchanged(old(items))
      ensures item.Some? ==> r == Ok(()) && Live() == old(Live()) + multiset{item}
      ensures item.Some? ==> size == old(size) + 1
      ensures item.Some? ==> items.Length == if old(items.Length) <= old(size) then 2 * old(items.Length) else old(items.Length)
    {
      if item.None? {
        return Throws(NullPointer);
      }
      if items.Length <= size {
        ItemsRealloc(items.Length * 2);
      }
      PushSlot(items[..], size, item);
      items[size] := item;
      size := size + 1;
      RandomSwap();
      r := Ok(());
    }

    /** Removes and returns an arbitrary item, shrinking the array when it is at most a quarter full. */
    method Dequeue() returns (r: Result<T>)
      requires Valid()
      modifies this, items
      ensures Valid() && (items == old(items) || fresh(items))
      ensures old(size) == 0 ==> r == Throws(NoSuchElement) && unchanged(this) && unchanged(old(items))
      ensures old(size) > 0 ==> r.Ok? && Some(r.value) in old(Live())
      ensures old(size) > 0 ==> Live() == old(Live()) - multiset{Some(r.value)} && size == old(size) - 1
      ensures old(size) > 0 ==> items.Length == if old(items.Length) >= old(size) * 4 then old(size) * 2 else old(items.Length)
    {
      if IsEmpty() {
        return Throws(NoSuchElement);
      }
      if items.Length >= size * 4 {
        ItemsRealloc(size * 2);
      }
      RandomSwap();
      var item := TakeRandom();
      return Ok(item);
    }

    /** Takes an arbitrary item out, moving the last item into its slot and clearing the last slot. */
    method TakeRandom() returns (item: T)
      requires Valid() && size >= 1
      modifies this, items
      ensures Valid() && items == old(items)
      ensures Some(item) in old(Live()) && Live() == old(Live()) - multiset{Some(item)}
      ensures size == old(size) - 1
    {
      ghost var before := items[..];
      size := size - 1;
      var randomIndex := 0;
      if size > 0 {
        randomIndex :| 0 <= randomIndex < size;
      }
      var randomItem := items[randomIndex];
      items[randomIndex] := items[size];
      items[size] := None;
      assert items[..] == before[randomIndex := before[size]][size := None];
      TakeOutSlots(before, size, randomIndex);
      return randomItem.value;
    }

    /** Returns an arbitrary item without removing it. */
    method Sample() returns (r: Result<T>)
      requires Valid()
      ensures size == 0 ==> r == Throws(NoSuchElement)
      ensures size > 0 ==> r.Ok? && Some(r.value) in Live()
    {
      if IsEmpty() {
        return Throws(NoSuchElement);
      }
      var k :| 0 <= k < size;
      return Ok(items[k].value);
    }

    /** An iterator over the items in an arbitrary order. */
    method Iterator() returns (it: RandomizedQueueIterator<T>)
      requires Valid()
      ensures fresh(it) && fresh(it.randomIndices) && it.Valid()
      ensures it.iteratorItems == items && it.numItems == size && it.currentItem == 0
    {
      it := new RandomizedQueueIterator(items, size);
    }

    /** Moves the items, in order, into a new empty array of `newSize` slots. */
    method ItemsRealloc(newSize: int)
      requires 0 <= size <= items.Length && size <= newSize
      modifies this
      ensures fresh(items) && size == old(size)
      ensures items[..] == old(items[..size]) + Nones(newSize - size)
    {
      var newItems := new Option<T>[newSize](_ => None);
      var oldItems, n := items, size;
      for i := 0 to n
        invariant newItems[..] == oldItems[..i] + Nones(newSize - i)
        modifies newItems
      {
        newItems[i] := oldItems[i];
      }
      items := newItems;
    }

    /**
     * Stirs the items after an insertion or before a removal: with more than
     * ten items it exchanges two arbitrary ones, otherwise it shuffles them all.
     */
    method RandomSwap()
      requires Valid() && 1 <= size
      modifies items
      ensures Valid()
      ensures multiset(items[..size]) == old(multiset(items[..size]))
      ensures items[size..] == old(items[size..])
    {
      ghost var before := items[..];
      if size > 10 {
        var rnd1 :| 0 <= rnd1 < size;
        var rnd2 :| 0 <= rnd2 < size;
        SwapWithin(items, 0, size, rnd1, rnd2);
      } else {
        Shuffle(items, 0, size);
      }
      assert items[..size] == items[..][..size] && items[size..] == items[..][size..];
      StirredSlots(before, items[..], size);
    }
  }

  /**
   * Walks a snapshot of the queue's slots `0 .. numItems - 1` in the order of
   * a shuffled index array. The slots themselves are shared with the queue.
   */
  class RandomizedQueueIterator<T> {
    const iteratorItems: array<Option<T>>
    const randomIndices: array<int>
    const numItems: int
    var currentItem: int

    /** `randomIndices` holds each of `0, ..., numItems - 1` exactly once. */
    ghost predicate Valid()
      reads this, randomIndices
    {
      && 0 <= numItems <= iteratorItems.Length
      && randomIndices.Length == numItems
      && multiset(randomIndices[..]) == multiset(Range(numItems))
      && (forall k | 0 <= k < numItems :: 0 <= randomIndices[k] < numItems)
      && 0 <= currentItem <= numItems
    }

    constructor (items: array<Option<T>>, n: int)
      requires 0 <= n <= items.Length
      ensures Valid() && fresh(randomIndices)
      ensures iteratorItems == items && numItems == n && currentItem == 0
    {
      var indices := new int[n];
      for i := 0 to n
        invariant indices[..i] == Range(i)
      {
        indices[i] := i;
      }
      assert indices[..] == indices[..n];
      Shuffle(indices, 0, n);
      assert indices[..] == indices[0..n];
      forall k | 0 <= k < n
        ensures 0 <= indices[k] < n
      {
        assert indices[k] in multiset(indices[..]);
        RangeMembers(n, indices[k]);
      }
      iteratorItems := items;
      numItems := n;
      randomIndices := indices;
      currentItem := 0;
    }

    function HasNext(): (b: bool)
      requires Valid()
      reads this, randomIndices
      ensures b <==> currentItem < randomIndices.Length
    {
      currentItem < numItems
    }

    /** Returns the slot at the next shuffled index, or throws once all have been visited. */
    method Next() returns (r: Result<Option<T>>)
      requires Valid()
      modifies this
      ensures Valid()
      ensures old(currentItem) >= numItems ==> r == Throws(NoSuchElement) && currentItem == old(currentItem)
      ensures old(currentItem) < numItems ==> r == Ok(iteratorItems[randomIndices[old(currentItem)]]) && currentItem == old(currentItem) + 1
    {
      if currentItem >= numItems {
        return Throws(NoSuchElement);
      }
      r := Ok(iteratorItems[randomIndices[currentItem]]);
      currentItem := currentItem + 1;
    }
  }

  /**
   * A for-each loop over the queue: it meets every item exactly once, in
   * some order, and the iterator then throws.
   */
  method Drain<T>(q: RandomizedQueue<T>) returns (visited: seq<Option<T>>, after: Result<Option<T>>)
    requires q.Valid()
    ensures multiset(visited) == q.Live()
    ensures after == Throws(NoSuchElement)
  {
    var it := q.Iterator();
    visited := [];
    while it.HasNext()
      invariant it.Valid() && it.iteratorItems == q.items && it.numItems == q.size
      invariant Indexes(q.items[..], it.randomIndices[..it.currentItem])
      invariant visited == Gather(q.items[..], it.randomIndices[..it.currentItem])
      decreases it.numItems - it.currentItem
    {
      var x := it.Next();
      visited := visited + [x.value];
    }
    assert it.randomIndices[..it.currentItem] == it.randomIndices[..];
    GatherRange(q.items[..], q.size);
    GatherPermutation(q.items[..], it.randomIndices[..], Range(q.size));
    after := it.Next();
  }

  /**
   * Three insertions into a new queue double its two slots; a null item
   * throws; a removal returns one of the items and leaves two.
   */
  method QueueExample() returns (nullAdd: Result<()>, removed: Result<int>, capacity: int, left: int)
    ensures nullAdd == Throws(NullPointer)
    ensures removed.Ok? && removed.value in {1, 2, 3}
    ensures capacity == 4 && left == 2
  {
    var q := new RandomizedQueue<int>();
    nullAdd := q.Enqueue(None);
    var _ := q.Enqueue(Some(1));
    var _ := q.Enqueue(Some(2));
    var _ := q.Enqueue(Some(3));
    capacity := q.items.Length;
    assert q.Live() == multiset{Some(1), Some(2), Some(3)};
    removed := q.Dequeue();
    left := q.Size();
  }
}
