/**
  The array-backed binary heap of heap.c: keys are doubles, values opaque,
  the first element is stored at index 1 and the children of slot i are
  slots 2i and 2i+1.  Whether it is a max heap or a min heap is decided by
  the key comparison it was created with (heap_keycmp_more or
  heap_keycmp_less); here that choice is the constant `order`.

  The reasoning about the heap property is done on sequences (the contents
  of the key array, `key[..]`), so the lemmas below are about values and the
  class methods only connect the arrays to them.
 */
module BinaryHeap {
  import opened Wrappers

  datatype Order = MaxHeap | MinHeap

  /** heap_keycmp_more (max heap: lhs - rhs) and heap_keycmp_less (min heap:
      rhs - lhs).  A positive result says lhs belongs nearer the top. */
  function KeyCmp(order: Order, lhs: real, rhs: real): (d: real)
    ensures d > 0.0 <==> (if order == MaxHeap then lhs > rhs else lhs < rhs)
    ensures d == 0.0 <==> lhs == rhs
  {
    match order
    case MaxHeap => lhs - rhs
    case MinHeap => rhs - lhs
  }

  /** Key a may sit above key b: keycmp(a, b) >= 0. */
  predicate Above(order: Order, a: real, b: real)
  {
    KeyCmp(order, a, b) >= 0.0
  }

  /** Capacity after heap_grow as written: cc = capacity * 2 + 1 slots, and the
      new capacity is cc - 1.  It never shrinks, and it fails to grow exactly
      when the capacity is 0. */
  function GrownCapacityAsWritten(capacity: nat): (c: nat)
    ensures c >= capacity
    ensures c == capacity <==> capacity == 0
  {
    capacity * 2 + 1 - 1
  }

  /** Growing a heap of capacity 0 as written leaves it at capacity 0 and one
      array slot, so the insert that asked for the growth stores its element
      at slot 1, past the end of the arrays. */
  lemma GrowAsWrittenStaysFull(length: nat)
    requires length == 0
    ensures GrownCapacityAsWritten(length) == length
    ensures !(length + 1 < GrownCapacityAsWritten(length) + 1)
  {
  }

  /** The growth the insert relies on: always room for one more element,
      doubling a non-zero capacity. */
  function GrownCapacity(capacity: nat): (c: nat)
    ensures c > capacity
    ensures capacity > 0 ==> c == 2 * capacity
  {
    if capacity == 0 then 1 else capacity * 2
  }

  /** The (key, value) pairs stored in slots 1..n. */
  function Pairs<V>(ks: seq<real>, vs: seq<V>, n: nat): (p: seq<(real, V)>)
    requires n < |ks| && n < |vs|
    ensures |p| == n
    ensures forall i :: 0 <= i < n ==> p[i] == (ks[i + 1], vs[i + 1])
  {
    seq(n, i requires 0 <= i < n => (ks[i + 1], vs[i + 1]))
  }

  /** s with the entries at i and j exchanged (heap_swap). */
  function Swapped<T>(s: seq<T>, i: nat, j: nat): (r: seq<T>)
    requires i < |s| && j < |s|
    ensures |r| == |s| && r[i] == s[j] && r[j] == s[i]
    ensures forall m :: 0 <= m < |s| && m != i && m != j ==> r[m] == s[m]
  {
    s[i := s[j]][j := s[i]]
  }

  /** The heap property on slots 1..n: no child is above its parent. */
  ghost predicate HeapOrdered(order: Order, k: seq<real>, n: nat)
    requires n < |k|
  {
    forall i :: 2 <= i <= n ==> Above(order, k[i / 2], k[i])
  }

  /** The state bubble_up works in: the heap property holds except possibly
      between idx and its parent, and that parent already dominates the
      children of idx. */
  ghost predicate OrderedExceptUp(order: Order, k: seq<real>, n: nat, idx: nat)
    requires n < |k| && 1 <= idx <= n
  {
    (forall i :: 2 <= i <= n && i != idx ==> Above(order, k[i / 2], k[i])) &&
    (idx >= 2 ==> forall i :: 2 <= i <= n && i / 2 == idx ==> Above(order, k[idx / 2], k[i]))
  }

  /** The state bubble_down works in: the heap property holds except possibly
      between idx and its children, and the parent of idx already dominates
      those children. */
  ghost predicate OrderedExceptDown(order: Order, k: seq<real>, n: nat, idx: nat)
    requires n < |k| && 1 <= idx
  {
    (forall i :: 2 <= i <= n && i / 2 != idx ==> Above(order, k[i / 2], k[i])) &&
    (2 <= idx <= n ==> forall i :: 2 <= i <= n && i / 2 == idx ==> Above(order, k[idx / 2], k[i]))
  }

  /** Exchanging two slots permutes the stored pairs. */
  lemma SwapPermutes<V>(ks: seq<real>, vs: seq<V>, n: nat, i: nat, j: nat)
    requires n < |ks| && n < |vs| && 1 <= i <= n && 1 <= j <= n
    ensures multiset(Pairs(Swapped(ks, i, j), Swapped(vs, i, j), n)) == multiset(Pairs(ks, vs, n))
  {
    var p := Pairs(ks, vs, n);
    var q := Pairs(Swapped(ks, i, j), Swapped(vs, i, j), n);
    assert q == Swapped(p, i - 1, j - 1);
  }

  /** One step of bubble_up: a child above its parent moves up, and the
      exception moves to the parent. */
  lemma SwapUpStep(order: Order, k: seq<real>, n: nat, idx: nat)
    requires n < |k| && 2 <= idx <= n && OrderedExceptUp(order, k, n, idx)
    requires KeyCmp(order, k[idx], k[idx / 2]) > 0.0
    ensures OrderedExceptUp(order, Swapped(k, idx, idx / 2), n, idx / 2)
  {
    var p := idx / 2;
    var k' := Swapped(k, idx, p);
    forall i | 2 <= i <= n && i != p
      ensures Above(order, k'[i / 2], k'[i])
    {
      if i == idx {
      } else if i / 2 == idx {
      } else if i / 2 == p {
        assert Above(order, k[p], k[i]);
      } else if i / 2 == idx / 2 {
      }
    }
    if p >= 2 {
      forall i | 2 <= i <= n && i / 2 == p
        ensures Above(order, k'[p / 2], k'[i])
      {
        assert Above(order, k[p / 2], k[p]);
        if i != idx {
          assert Above(order, k[p], k[i]);
        }
      }
    }
  }

  /** One step of bubble_down: the child t that is above idx and its sibling
      moves up, and the exception moves down to t. */
  lemma SwapDownStep(order: Order, k: seq<real>, n: nat, idx: nat, t: nat)
    requires n < |k| && 1 <= idx && OrderedExceptDown(order, k, n, idx)
    requires 2 <= t <= n && t / 2 == idx && KeyCmp(order, k[t], k[idx]) > 0.0
    requires forall i :: 2 <= i <= n && i / 2 == idx ==> Above(order, k[t], k[i])
    ensures OrderedExceptDown(order, Swapped(k, t, idx), n, t)
  {
    var k' := Swapped(k, t, idx);
    forall i | 2 <= i <= n && i / 2 != t
      ensures Above(order, k'[i / 2], k'[i])
    {
      if i == idx {
        assert Above(order, k[idx / 2], k[t]);
      } else if i == t {
      } else if i / 2 == idx {
        assert Above(order, k[t], k[i]);
      }
    }
    forall i | 2 <= i <= n && i / 2 == t
      ensures Above(order, k'[t / 2], k'[i])
    {
      assert Above(order, k[t], k[i]);
    }
  }

  /** Appending an element to a heap leaves bubble_up's state at the new slot. */
  lemma AppendState<V>(order: Order, k: seq<real>, v: seq<V>, n: nat, x: real, y: V)
    requires n + 1 < |k| && n + 1 < |v| && HeapOrdered(order, k, n)
    ensures OrderedExceptUp(order, k[n + 1 := x], n + 1, n + 1)
    ensures Pairs(k[n + 1 := x], v[n + 1 := y], n + 1) == Pairs(k, v, n) + [(x, y)]
  {
  }

  /** Moving the last element to the root leaves bubble_down's state at the root,
      and the pairs lose exactly the former top. */
  lemma PopState<V>(order: Order, k: seq<real>, v: seq<V>, n: nat)
    requires n < |k| && n < |v| && 1 <= n && HeapOrdered(order, k, n)
    ensures OrderedExceptDown(order, k[1 := k[n]], n - 1, 1)
    ensures multiset(Pairs(k[1 := k[n]], v[1 := v[n]], n - 1)) ==
            multiset(Pairs(k, v, n)) - multiset{(k[1], v[1])}
  {
    var p := Pairs(k, v, n);
    var q := Pairs(k[1 := k[n]], v[1 := v[n]], n - 1);
    if n > 1 {
      assert q == [p[n - 1]] + p[1..n - 1];
      assert p == [p[0]] + p[1..n - 1] + [p[n - 1]];
    } else {
      assert p == [p[0]];
    }
  }

  /** Giving slot idx a key nearer the top leaves bubble_up's state there. */
  lemma RaiseState(order: Order, k: seq<real>, n: nat, idx: nat, x: real)
    requires n < |k| && 1 <= idx <= n && HeapOrdered(order, k, n)
    requires Above(order, x, k[idx])
    ensures OrderedExceptUp(order, k[idx := x], n, idx)
  {
    var k' := k[idx := x];
    forall i | 2 <= i <= n && i != idx
      ensures Above(order, k'[i / 2], k'[i])
    {
      if i / 2 == idx {
        assert Above(order, k[idx], k[i]);
      }
    }
    if idx >= 2 {
      forall i | 2 <= i <= n && i / 2 == idx
        ensures Above(order, k'[idx / 2], k'[i])
      {
        assert Above(order, k[idx / 2], k[idx]);
        assert Above(order, k[idx], k[i]);
      }
    }
  }

  /** Giving slot idx a key farther from the top leaves bubble_down's state there. */
  lemma LowerState(order: Order, k: seq<real>, n: nat, idx: nat, x: real)
    requires n < |k| && 1 <= idx <= n && HeapOrdered(order, k, n)
    requires Above(order, k[idx], x)
    ensures OrderedExceptDown(order, k[idx := x], n, idx)
  {
    var k' := k[idx := x];
    forall i | 2 <= i <= n && i / 2 != idx
      ensures Above(order, k'[i / 2], k'[i])
    {
      if i == idx {
        assert Above(order, k[idx / 2], k[idx]);
      }
    }
    if idx >= 2 {
      forall i | 2 <= i <= n && i / 2 == idx
        ensures Above(order, k'[idx / 2], k'[i])
      {
        assert Above(order, k[idx / 2], k[idx]);
        assert Above(order, k[idx], k[i]);
      }
    }
  }

  /** Slot i lies in the subtree rooted at slot root. */
  predicate InSubtree(i: nat, root: nat)
    decreases i
  {
    i == root || (i > root && InSubtree(i / 2, root))
  }

  /** The subtree of a child of root lies inside the subtree of root. */
  lemma {:induction false} ChildSubtree(i: nat, child: nat, root: nat)
    requires root >= 1 && child / 2 == root && InSubtree(i, child)
    ensures InSubtree(i, root)
  {
    if i != child {
      ChildSubtree(i / 2, child, root);
    }
  }

  /** Every slot lies in the subtree of the root slot 1. */
  lemma {:induction false} AllUnderRoot(i: nat)
    requires i >= 1
    ensures InSubtree(i, 1)
  {
    if i > 1 {
      AllUnderRoot(i / 2);
    }
  }

  /** A slot below root, other than root itself, lies under one of root's two children. */
  lemma {:induction false} SubtreeSplit(i: nat, root: nat)
    requires root >= 1 && InSubtree(i, root) && i != root
    ensures InSubtree(i, 2 * root) || InSubtree(i, 2 * root + 1)
  {
    if i / 2 != root {
      SubtreeSplit(i / 2, root);
    }
  }

  /** Under the heap property the key at root dominates its whole subtree. */
  lemma {:induction false} SubtreeDominated(order: Order, k: seq<real>, n: nat, root: nat, i: nat)
    requires n < |k| && HeapOrdered(order, k, n)
    requires 1 <= root && InSubtree(i, root) && i <= n
    ensures Above(order, k[root], k[i])
  {
    if i != root {
      SubtreeDominated(order, k, n, root, i / 2);
      assert Above(order, k[i / 2], k[i]);
    }
  }

  class Heap<V(==,0)> {
    const order: Order
    var key: array<real>
    var value: array<V>
    var capacity: nat
    var length: nat

    /** Both arrays hold capacity + 1 slots (slot 0 unused) and at most
        capacity elements are stored. */
    ghost predicate Valid()
      reads this, key, value
    {
      (key as object) != (value as object) &&
      key.Length == capacity + 1 && value.Length == capacity + 1 &&
      length <= capacity
    }

    ghost predicate IsHeap()
      reads this, key, value
      requires Valid()
    {
      HeapOrdered(order, key[..], length)
    }

    /** The stored (key, value) pairs, slot 1 first. */
    ghost function Contents(): seq<(real, V)>
      reads this, key, value
      requires Valid()
    {
      Pairs(key[..], value[..], length)
    }

    /** heap_create (maxheap_create and minheap_create fix the order). */
    constructor (order: Order, capacity: nat)
      ensures Valid() && IsHeap() && fresh(key) && fresh(value)
      ensures this.order == order && this.capacity == capacity && length == 0
      ensures Contents() == []
    {
      this.order := order;
      key := new real[capacity + 1];
      value := new V[capacity + 1];
      this.capacity := capacity;
      length := 0;
    }

    /** heap_clone: a new heap of the same order whose capacity is exactly the
        length of this one, holding the same pairs in the same slots. */
    method Clone() returns (c: Heap<V>)
      requires Valid()
      ensures fresh(c) && fresh(c.key) && fresh(c.value) && c.Valid()
      ensures c.order == order && c.length == length && c.capacity == length
      ensures c.Contents() == Contents()
      ensures IsHeap() ==> c.IsHeap()
    {
      c := new Heap(order, length);
      c.length := length;
      forall i | 1 <= i <= length {
        c.key[i] := key[i];
      }
      forall i | 1 <= i <= length {
        c.value[i] := value[i];
      }
      assert c.key[..][1..length + 1] == key[..][1..length + 1];
      assert forall i :: 1 <= i <= length ==> c.key[..][i] == key[..][i];
    }

    /** heap_grow: both arrays are reallocated to the grown capacity with the
        stored slots kept. */
    method Grow()
      requires Valid()
      modifies this
      ensures Valid() && fresh(key) && fresh(value)
      ensures capacity == GrownCapacity(old(capacity)) && length == old(length)
      ensures key[..old(capacity) + 1] == old(key[..]) && value[..old(capacity) + 1] == old(value[..])
      ensures Contents() == old(Contents())
      ensures old(IsHeap()) ==> IsHeap()
    {
      var cc := GrownCapacity(capacity) + 1;
      var k0, v0 := key, value;
      var kk := new real[cc](i requires 0 <= i < cc reads k0 => if i < k0.Length then k0[i] else 0.0);
      var vv := new V[cc](i requires 0 <= i < cc reads v0 => if i < v0.Length then v0[i] else v0[0]);
      capacity := cc - 1;
      key := kk;
      value := vv;
      assert key[..old(capacity) + 1] == old(key[..]);
      assert value[..old(capacity) + 1] == old(value[..]);
      assert forall i :: 0 <= i <= length ==> key[..][i] == old(key[..])[i];
    }

    /** heap_swap */
    method Swap(i: nat, j: nat)
      requires Valid() && 1 <= i <= length && 1 <= j <= length
      modifies key, value
      ensures Valid()
      ensures key[..] == Swapped(old(key[..]), i, j)
      ensures value[..] == Swapped(old(value[..]), i, j)
      ensures multiset(Contents()) == multiset(old(Contents()))
    {
      var kk := key[i];
      var vv := value[i];
      key[i] := key[j];
      value[i] := value[j];
      key[j] := kk;
      value[j] := vv;
      assert key[..] == Swapped(old(key[..]), i, j);
      assert value[..] == Swapped(old(value[..]), i, j);
      SwapPermutes(old(key[..]), old(value[..]), length, i, j);
    }

    /** heap_bubble_up: move the element at index up while it belongs above
        its parent. */
    method BubbleUp(index: nat)
      requires Valid() && 1 <= index <= length
      requires OrderedExceptUp(order, key[..], length, index)
      modifies key, value
      ensures Valid() && IsHeap()
      ensures multiset(Contents()) == multiset(old(Contents()))
    {
      var idx := index;
      var parent := idx / 2;
      while parent > 0 && KeyCmp(order, key[idx], key[parent]) > 0.0
        invariant Valid() && 1 <= idx <= length && parent == idx / 2
        invariant OrderedExceptUp(order, key[..], length, idx)
        invariant multiset(Contents()) == multiset(old(Contents()))
        decreases idx
      {
        SwapUpStep(order, key[..], length, idx);
        Swap(idx, parent);
        idx := parent;
        parent := idx / 2;
      }
    }

    /** heap_insert: store the pair in the slot after the last one, growing
        first when the heap is full, then bubble it up. */
    method Insert(k: real, v: V)
      requires Valid() && IsHeap()
      modifies this, key, value
      ensures Valid() && IsHeap()
      ensures if old(length) == old(capacity) then fresh(key) && fresh(value)
              else key == old(key) && value == old(value)
      ensures length == old(length) + 1
      ensures capacity == if old(length) == old(capacity) then GrownCapacity(old(capacity)) else old(capacity)
      ensures multiset(Contents()) == multiset(old(Contents())) + multiset{(k, v)}
    {
      if length == capacity {
        Grow();
      }
      ghost var k0, v0, c0 := key[..], value[..], Contents();
      AppendState(order, k0, v0, length, k, v);
      length := length + 1;
      key[length] := k;
      value[length] := v;
      assert key[..] == k0[length := k] && value[..] == v0[length := v];
      assert Contents() == c0 + [(k, v)];
      BubbleUp(length);
    }

    /** heap_find_element: the slot of the subtree rooted at root holding the
        pair (k, v), or 0; subtrees whose root lies strictly below k are not
        searched. */
    function FindElement(k: real, v: V, root: nat): (r: nat)
      reads this, key, value
      requires Valid() && root >= 1
      decreases length + 1 - root
      ensures r == 0 || (root <= r <= length && InSubtree(r, root) && key[r] == k && value[r] == v)
    {
      if root > length then 0
      else if KeyCmp(order, key[root], k) < 0.0 then 0
      else if key[root] == k && value[root] == v then root
      else
        var guess := FindElement(k, v, 2 * root);
        if guess != 0 then
          ChildSubtree(guess, 2 * root, root);
          guess
        else
          var other := FindElement(k, v, 2 * root + 1);
          if other != 0 then ChildSubtree(other, 2 * root + 1, root); other else 0
    }

    /** The pruned search misses nothing: under the heap property, when it
        reports 0 no slot of the subtree holds the pair. */
    lemma {:induction false} FindElementComplete(k: real, v: V, root: nat)
      requires Valid() && IsHeap() && root >= 1
      decreases length + 1 - root
      ensures FindElement(k, v, root) == 0 ==>
                forall i :: root <= i <= length && InSubtree(i, root) ==> !(key[i] == k && value[i] == v)
    {
      if root <= length && FindElement(k, v, root) == 0 {
        forall i | root <= i <= length && InSubtree(i, root)
          ensures !(key[i] == k && value[i] == v)
        {
          if KeyCmp(order, key[root], k) < 0.0 {
            SubtreeDominated(order, key[..], length, root, i);
          } else if i != root {
            FindElementComplete(k, v, 2 * root);
            FindElementComplete(k, v, 2 * root + 1);
            SubtreeSplit(i, root);
          }
        }
      }
    }

    /** Searching from the root finds a slot exactly when the pair is stored. */
    lemma FindElementCorrect(k: real, v: V)
      requires Valid() && IsHeap()
      ensures FindElement(k, v, 1) != 0 <==> (k, v) in Contents()
      ensures FindElement(k, v, 1) != 0 ==> Contents()[FindElement(k, v, 1) - 1] == (k, v)
    {
      var r := FindElement(k, v, 1);
      var c := Contents();
      if r != 0 {
        assert c[r - 1] == (k, v);
      } else {
        FindElementComplete(k, v, 1);
        forall j | 0 <= j < |c|
          ensures c[j] != (k, v)
        {
          AllUnderRoot(j + 1);
        }
      }
    }

    /** heap_bubble_down: move the element at index down below the child that
        belongs above it, until neither child does. */
    method BubbleDown(index: nat)
      requires Valid() && 1 <= index <= length
      requires OrderedExceptDown(order, key[..], length, index)
      modifies key, value
      ensures Valid() && IsHeap()
      ensures multiset(Contents()) == multiset(old(Contents()))
    {
      var idx := index;
      var target := idx;
      while true
        invariant Valid() && 1 <= idx <= length && target == idx
        invariant OrderedExceptDown(order, key[..], length, idx)
        invariant multiset(Contents()) == multiset(old(Contents()))
        decreases length - idx
      {
        ghost var k := key[..];
        var left := 2 * idx;
        var right := left + 1;
        if left <= length && KeyCmp(order, key[left], key[target]) > 0.0 {
          target := left;
        }
        assert Above(order, k[target], k[idx]);
        assert left <= length ==> Above(order, k[target], k[left]);
        if right <= length && KeyCmp(order, key[right], key[target]) > 0.0 {
          target := right;
        }
        assert left <= length ==> Above(order, k[target], k[left]);
        assert right <= length ==> Above(order, k[target], k[right]);
        if target == idx {
          return;
        }
        assert KeyCmp(order, k[target], k[idx]) > 0.0;
        SwapDownStep(order, k, length, idx, target);
        Swap(target, idx);
        idx := target;
      }
    }

    /** heap_pop: remove the top pair and return its value, or None when the
        heap is empty.  The removed key dominates every key left behind. */
    method Pop() returns (r: Option<V>)
      requires Valid() && IsHeap()
      modifies key, value, this
      ensures Valid() && IsHeap()
      ensures key == old(key) && value == old(value) && capacity == old(capacity)
      ensures old(length) == 0 ==> r == None && length == 0 && Contents() == old(Contents())
      ensures old(length) > 0 ==>
                r == Some(old(value[1])) && length == old(length) - 1 &&
                multiset(Contents()) == multiset(old(Contents())) - multiset{(old(key[1]), old(value[1]))} &&
                forall e :: e in Contents() ==> Above(order, old(key[1]), e.0)
    {
      if length == 0 {
        return None;
      }
      TopIsExtreme();
      ghost var top, oc := key[1], Contents();
      var vv := value[1];
      PopState(order, key[..], value[..], length);
      key[1] := key[length];
      value[1] := value[length];
      length := length - 1;
      if length > 0 {
        BubbleDown(1);
      }
      forall e | e in Contents()
        ensures Above(order, top, e.0)
      {
        assert e in multiset(Contents());
        assert e in multiset(oc);
      }
      r := Some(vv);
    }

    /** The top slot dominates every stored key. */
    lemma TopIsExtreme()
      requires Valid() && IsHeap() && length > 0
      ensures forall e :: e in Contents() ==> Above(order, key[1], e.0)
    {
      forall e | e in Contents()
        ensures Above(order, key[1], e.0)
      {
        var j :| 0 <= j < length && Contents()[j] == e;
        AllUnderRoot(j + 1);
        SubtreeDominated(order, key[..], length, 1, j + 1);
      }
    }

    /** heap_change_key: find the pair (oldKey, v) from the root; if absent
        return -1, otherwise store the new key in its slot and bubble it up or
        down according to the heap's order, returning 0. */
    method ChangeKey(oldKey: real, newKey: real, v: V) returns (r: int)
      requires Valid() && IsHeap()
      modifies key, value
      ensures Valid() && IsHeap()
      ensures r == 0 || r == -1
      ensures r == -1 <==> (oldKey, v) !in old(Contents())
      ensures r == -1 ==> key[..] == old(key[..]) && value[..] == old(value[..])
      ensures r == 0 ==> multiset(Contents()) == multiset(old(Contents())) - multiset{(oldKey, v)} + multiset{(newKey, v)}
      ensures r == 0 && newKey == oldKey ==> key[..] == old(key[..]) && value[..] == old(value[..])
    {
      FindElementCorrect(oldKey, v);
      var index := FindElement(oldKey, v, 1);
      if index == 0 {
        return -1;
      }
      ghost var c := Contents();
      assert c[index - 1] == (oldKey, v);
      ghost var k0 := key[..];
      key[index] := newKey;
      assert key[..] == k0[index := newKey];
      assert Contents() == c[index - 1 := (newKey, v)];
      match order {
        case MaxHeap =>
          if newKey > oldKey {
            RaiseState(order, k0, length, index, newKey);
            BubbleUp(index);
          } else if newKey < oldKey {
            LowerState(order, k0, length, index, newKey);
            BubbleDown(index);
          } else {
            assert key[..] == k0;
          }
        case MinHeap =>
          if newKey < oldKey {
            RaiseState(order, k0, length, index, newKey);
            BubbleUp(index);
          } else if newKey > oldKey {
            LowerState(order, k0, length, index, newKey);
            BubbleDown(index);
          } else {
            assert key[..] == k0;
          }
      }
      r := 0;
    }
  }
}
