/**
  The scenario that usd/heap_test.c exercises once for a max heap and once for a
  min heap: insert three (key, string) pairs, enumerate the heap by popping a
  clone until it is empty, change the key of a stored pair, and confirm that
  two change requests for pairs that are not stored fail.
 */
module HeapSuite {
  import opened Wrappers
  import opened BinaryHeap

  /** The pairs drained so far and the pairs still stored: together they are
      all the pairs, the drained ones are in heap order, and each of them
      dominates every pair still stored. */
  ghost predicate Draining<V>(order: Order, out: seq<(real, V)>, rest: seq<(real, V)>, all: multiset<(real, V)>)
  {
    multiset(out) + multiset(rest) == all &&
    (forall i, j :: 0 <= i < j < |out| ==> Above(order, out[i].0, out[j].0)) &&
    (forall i, e :: 0 <= i < |out| && e in rest ==> Above(order, out[i].0, e.0))
  }

  /** Popping the top pair, which dominates what is left, keeps the drain in order. */
  lemma DrainStep<V>(order: Order, out: seq<(real, V)>, before: seq<(real, V)>, after: seq<(real, V)>,
                     all: multiset<(real, V)>)
    requires Draining(order, out, before, all) && before != []
    requires multiset(after) == multiset(before) - multiset{before[0]}
    requires forall e :: e in after ==> Above(order, before[0].0, e.0)
    ensures Draining(order, out + [before[0]], after, all)
  {
    var out' := out + [before[0]];
    assert before[0] in multiset(before);
    forall i, e | 0 <= i < |out'| && e in after
      ensures Above(order, out'[i].0, e.0)
    {
      if i < |out| {
        assert e in multiset(after);
        assert e in before;
      }
    }
  }

  /** test_enumerate: pop a clone of the heap until it is empty, reading the
      top pair before each pop.  The pairs come out in heap order (each key
      dominates every later one) and are exactly the stored pairs; the heap
      itself is left as it was. */
  method Enumerate<V(==,0)>(h: Heap<V>) returns (out: seq<(real, V)>)
    requires h.Valid() && h.IsHeap()
    ensures multiset(out) == multiset(h.Contents())
    ensures forall i, j :: 0 <= i < j < |out| ==> Above(h.order, out[i].0, out[j].0)
  {
    var clone := h.Clone();
    out := [];
    while clone.length > 0
      invariant clone.Valid() && clone.IsHeap() && fresh(clone.key) && fresh(clone.value) && clone.order == h.order
      invariant Draining(h.order, out, clone.Contents(), multiset(h.Contents()))
      decreases clone.length
    {
      ghost var before := clone.Contents();
      var k, v := clone.key[1], clone.value[1];
      assert before[0] == (k, v);
      var _ := clone.Pop();
      DrainStep(h.order, out, before, clone.Contents(), multiset(h.Contents()));
      out := out + [(k, v)];
    }
  }

  /** The three pairs the suite stores. */
  const Data: multiset<(real, string)> :=
    multiset{(12.0, "hello world"), (-13.0, "too much negativity"), (42.9, "byebye universe")}

  /** test_create: a heap of capacity 3 / 2 + 1 = 2 holding the three pairs
      (the third insert grows it). */
  method Create(order: Order) returns (heap: Heap<string>)
    ensures fresh(heap) && fresh(heap.key) && fresh(heap.value) && heap.Valid() && heap.IsHeap() && heap.order == order
    ensures heap.capacity == 4 && multiset(heap.Contents()) == Data
  {
    heap := new Heap<string>(order, 3 / 2 + 1);
    heap.Insert(12.0, "hello world");
    heap.Insert(-13.0, "too much negativity");
    heap.Insert(42.9, "byebye universe");
  }

  /** The pairs stored once the key of "hello world" has been changed. */
  const Changed: multiset<(real, string)> :=
    multiset{(-22.0, "hello world"), (-13.0, "too much negativity"), (42.9, "byebye universe")}

  /** A change request for a pair that is not stored fails and leaves the
      stored pairs as they were. */
  method RejectAbsent(heap: Heap<string>, oldKey: real, newKey: real, v: string) returns (r: int)
    requires heap.Valid() && heap.IsHeap() && (oldKey, v) !in heap.Contents()
    modifies heap.key, heap.value
    ensures heap.Valid() && heap.IsHeap()
    ensures r != 0 && heap.Contents() == old(heap.Contents())
  {
    r := heap.ChangeKey(oldKey, newKey, v);
  }

  /** The first change request of suite(): the key of a stored pair changes
      from 12 to -22. */
  method ChangeStored(heap: Heap<string>) returns (r: int)
    requires heap.Valid() && heap.IsHeap() && multiset(heap.Contents()) == Data
    modifies heap.key, heap.value
    ensures heap.Valid() && heap.IsHeap()
    ensures r == 0 && multiset(heap.Contents()) == Changed
  {
    assert (12.0, "hello world") in Data;
    r := heap.ChangeKey(12.0, -22.0, "hello world");
    assert multiset(heap.Contents()) == Changed;
  }

  /** The three change requests of suite(): the first (a stored pair) must
      succeed, the second (wrong old key) and the third (a value that is not
      stored) must fail.  The status is 0, -2, -3 or -4 as in the test. */
  method ChangeRequests(heap: Heap<string>) returns (status: int)
    requires heap.Valid() && heap.IsHeap() && multiset(heap.Contents()) == Data
    modifies heap.key, heap.value
    ensures heap.Valid() && heap.IsHeap()
    ensures status == 0 && multiset(heap.Contents()) == Changed
  {
    var r := ChangeStored(heap);
    if r != 0 {
      return -2;
    }
    assert (888.999, "hello world") !in multiset(heap.Contents());
    r := RejectAbsent(heap, 888.999, -1.0, "hello world");
    if r == 0 {
      return -3;
    }
    assert (-13.0, "blah") !in multiset(heap.Contents());
    r := RejectAbsent(heap, -13.0, 22000.3, "blah");
    if r == 0 {
      return -4;
    }
    status := 0;
  }

  /** suite(): returns 0 when every step behaves as the test expects, and the
      negative code of the first step that does not.  Besides the status it
      returns the two enumerations the test prints. */
  method Suite(order: Order) returns (status: int, first: seq<(real, string)>, second: seq<(real, string)>)
    ensures status == 0
    ensures multiset(first) == Data
    ensures forall i, j :: 0 <= i < j < |first| ==> Above(order, first[i].0, first[j].0)
    ensures multiset(second) == Changed
    ensures forall i, j :: 0 <= i < j < |second| ==> Above(order, second[i].0, second[j].0)
  {
    var heap := Create(order);
    first := Enumerate(heap);
    second := [];
    status := ChangeRequests(heap);
    if status != 0 {
      return;
    }
    second := Enumerate(heap);
  }
}
