/**
  The propagation queue of both transforms, a std::multimap<double, size_t>
  from key to cell index, as a sequence of entries kept in key order.  A new
  entry goes after every entry whose key is not greater (std::multimap places
  equal keys in insertion order), begin() is the first entry, lower_bound(k)
  the first position whose key is not below k.  The same type serves as the
  local multimap of candidate propagators built by update().
 */
module CellQueue {
  import opened Grid

  datatype Entry = Entry(key: real, cell: nat)

  ghost predicate Sorted(q: seq<Entry>)
  {
    forall i, j :: 0 <= i < j < |q| ==> q[i].key <= q[j].key
  }

  /** No two entries of q share a cell. */
  ghost predicate DistinctCells(q: seq<Entry>)
  {
    forall i, j :: 0 <= i < j < |q| ==> q[i].cell != q[j].cell
  }

  /** Whether some entry of q is for cell c. */
  predicate HasCell(q: seq<Entry>, c: nat)
  {
    exists i :: 0 <= i < |q| && q[i].cell == c
  }

  /** Position after the last entry whose key is not greater than k
      (std::multimap::upper_bound on a sorted queue). */
  function UpperBound(q: seq<Entry>, k: real): (p: nat)
    ensures p <= |q|
    ensures forall j :: 0 <= j < p ==> q[j].key <= k
    ensures Sorted(q) ==> forall j :: p <= j < |q| ==> q[j].key > k
  {
    if q == [] || k < q[0].key then 0 else 1 + UpperBound(q[1..], k)
  }

  /** Position of the first entry whose key is not below k
      (std::multimap::lower_bound on a sorted queue). */
  function LowerBound(q: seq<Entry>, k: real): (p: nat)
    ensures p <= |q|
    ensures forall j :: 0 <= j < p ==> q[j].key < k
    ensures Sorted(q) ==> forall j :: p <= j < |q| ==> q[j].key >= k
  {
    if q == [] || q[0].key >= k then 0 else 1 + LowerBound(q[1..], k)
  }

  /** std::multimap::insert. */
  function Insert(q: seq<Entry>, e: Entry): (r: seq<Entry>)
    ensures |r| == |q| + 1
  {
    if q == [] || e.key < q[0].key then [e] + q else [q[0]] + Insert(q[1..], e)
  }

  /** The insert adds exactly the new entry. */
  lemma {:induction false} InsertMultiset(q: seq<Entry>, e: Entry)
    ensures multiset(Insert(q, e)) == multiset(q) + multiset{e}
  {
    if q != [] && e.key >= q[0].key {
      InsertMultiset(q[1..], e);
      assert q == [q[0]] + q[1..];
    }
  }

  /** The queue after the insert, entry by entry: the new entry lands right
      after the entries whose key is not greater, and the queue around it is
      otherwise the old one, in the old order. */
  lemma {:induction false} InsertIndex(q: seq<Entry>, e: Entry)
    ensures var p := UpperBound(q, e.key);
            Insert(q, e)[p] == e &&
            (forall i :: 0 <= i < p ==> Insert(q, e)[i] == q[i]) &&
            (forall i :: p < i <= |q| ==> Insert(q, e)[i] == q[i - 1])
  {
    if q != [] && e.key >= q[0].key {
      var t := q[1..];
      InsertIndex(t, e);
      var r := Insert(q, e);
      var u := Insert(t, e);
      assert r == [q[0]] + u;
      var p := UpperBound(t, e.key);
      forall i | 1 <= i < p + 1
        ensures r[i] == q[i]
      {
        assert r[i] == u[i - 1] && t[i - 1] == q[i];
      }
      forall i | p + 1 < i <= |q|
        ensures r[i] == q[i - 1]
      {
        assert r[i] == u[i - 1] && t[i - 2] == q[i - 1];
      }
    }
  }

  /** Inserting keeps a sorted queue sorted. */
  lemma InsertSorted(q: seq<Entry>, e: Entry)
    requires Sorted(q)
    ensures Sorted(Insert(q, e))
  {
    InsertIndex(q, e);
    var p := UpperBound(q, e.key);
    var r := Insert(q, e);
    forall i, j | 0 <= i < j < |r|
      ensures r[i].key <= r[j].key
    {
      var ki := if i < p then q[i].key else if i == p then e.key else q[i - 1].key;
      var kj := if j < p then q[j].key else if j == p then e.key else q[j - 1].key;
      if i < p { assert r[i] == q[i]; } else if i > p { assert r[i] == q[i - 1]; }
      if j < p { assert r[j] == q[j]; } else if j > p { assert r[j] == q[j - 1]; }
      assert r[i].key == ki && r[j].key == kj;
    }
  }

  /** An entry is in the queue after the insert iff it was before or is the new one. */
  lemma InsertMembers(q: seq<Entry>, e: Entry)
    ensures forall x :: x in Insert(q, e) <==> x in q || x == e
  {
    InsertMultiset(q, e);
    var r := Insert(q, e);
    forall x
      ensures x in r <==> x in q || x == e
    {
      assert x in r <==> x in multiset(r);
      assert x in q <==> x in multiset(q);
    }
  }

  /** Inserting an entry for a cell that has none keeps at most one entry per cell. */
  lemma InsertDistinct(q: seq<Entry>, e: Entry)
    requires DistinctCells(q) && !HasCell(q, e.cell)
    ensures DistinctCells(Insert(q, e))
  {
    InsertIndex(q, e);
    var p := UpperBound(q, e.key);
    var r := Insert(q, e);
    forall i, j | 0 <= i < j < |r|
      ensures r[i].cell != r[j].cell
    {
      if i < p { assert r[i] == q[i]; } else if i > p { assert r[i] == q[i - 1]; }
      if j < p { assert r[j] == q[j]; } else if j > p { assert r[j] == q[j - 1]; }
    }
  }

  /** Position of the first entry for cell c, or |q| when there is none. */
  function FirstCell(q: seq<Entry>, c: nat): (p: nat)
    ensures p <= |q|
    ensures forall j :: 0 <= j < p ==> q[j].cell != c
    ensures p < |q| ==> q[p].cell == c
  {
    if q == [] || q[0].cell == c then 0 else 1 + FirstCell(q[1..], c)
  }

  /** The first-entry search finds an entry exactly when the cell has one. */
  lemma FirstCellFound(q: seq<Entry>, c: nat)
    ensures FirstCell(q, c) < |q| <==> HasCell(q, c)
  {
    var p := FirstCell(q, c);
    if p < |q| {
      assert q[p].cell == c;
    }
  }

  /** q without its first entry for cell c (the queue's erase of that entry). */
  function RemoveCell(q: seq<Entry>, c: nat): seq<Entry>
  {
    var p := FirstCell(q, c);
    if p < |q| then q[..p] + q[p + 1..] else q
  }

  /** The erased queue, entry by entry, in terms of the old one. */
  lemma RemoveCellIndex(q: seq<Entry>, c: nat)
    ensures var p := FirstCell(q, c);
            p < |q| ==> |RemoveCell(q, c)| == |q| - 1 &&
                        (forall i :: 0 <= i < p ==> RemoveCell(q, c)[i] == q[i]) &&
                        (forall i :: p <= i < |q| - 1 ==> RemoveCell(q, c)[i] == q[i + 1])
  {
    var p := FirstCell(q, c);
    if p < |q| {
      var r := q[..p] + q[p + 1..];
      assert RemoveCell(q, c) == r;
      forall i | 0 <= i < p
        ensures r[i] == q[i]
      {
        assert r[i] == q[..p][i];
      }
      forall i | p <= i < |q| - 1
        ensures r[i] == q[i + 1]
      {
        assert r[i] == q[p + 1..][i - p];
      }
    }
  }

  /** Dropping position p of q drops one occurrence of q[p] from its multiset. */
  lemma MultisetRemoveAt(q: seq<Entry>, p: nat)
    requires p < |q|
    ensures multiset(q[..p] + q[p + 1..]) == multiset(q) - multiset{q[p]}
  {
    assert q == q[..p] + [q[p]] + q[p + 1..];
  }

  /** Erasing the first entry of a cell changes nothing when the cell has no
      entry, and otherwise removes exactly that one entry. */
  lemma RemoveCellCount(q: seq<Entry>, c: nat)
    ensures !HasCell(q, c) ==> RemoveCell(q, c) == q
    ensures HasCell(q, c) ==> |RemoveCell(q, c)| == |q| - 1 &&
                              multiset(RemoveCell(q, c)) == multiset(q) - multiset{q[FirstCell(q, c)]}
  {
    FirstCellFound(q, c);
    var p := FirstCell(q, c);
    if p < |q| {
      MultisetRemoveAt(q, p);
    }
  }

  /** Erasing an entry keeps every other entry. */
  lemma RemoveCellKeepsOthers(q: seq<Entry>, c: nat)
    ensures forall x :: x in RemoveCell(q, c) ==> x in q
    ensures forall x :: x in q && x.cell != c ==> x in RemoveCell(q, c)
  {
    var p := FirstCell(q, c);
    if p < |q| {
      var r := RemoveCell(q, c);
      RemoveCellIndex(q, c);
      forall x | x in r ensures x in q {
        var i :| 0 <= i < |r| && r[i] == x;
        if i < p { assert r[i] == q[i]; } else { assert r[i] == q[i + 1]; }
      }
      forall x | x in q && x.cell != c ensures x in r {
        var i :| 0 <= i < |q| && q[i] == x;
        if i < p { assert r[i] == q[i]; } else { assert i > p && r[i - 1] == q[i]; }
      }
    }
  }

  /** Erasing an entry keeps a sorted queue sorted. */
  lemma RemoveCellSorted(q: seq<Entry>, c: nat)
    requires Sorted(q)
    ensures Sorted(RemoveCell(q, c))
  {
    var p := FirstCell(q, c);
    if p < |q| {
      RemoveCellIndex(q, c);
      var r := RemoveCell(q, c);
      forall i, j | 0 <= i < j < |r|
        ensures r[i].key <= r[j].key
      {
        if i < p { assert r[i] == q[i]; } else { assert r[i] == q[i + 1]; }
        if j < p { assert r[j] == q[j]; } else { assert r[j] == q[j + 1]; }
      }
    }
  }

  /** With at most one entry per cell, erasing the cell's entry leaves none. */
  lemma RemoveCellDistinct(q: seq<Entry>, c: nat)
    requires DistinctCells(q)
    ensures DistinctCells(RemoveCell(q, c)) && !HasCell(RemoveCell(q, c), c)
  {
    FirstCellFound(q, c);
    var p := FirstCell(q, c);
    var r := RemoveCell(q, c);
    if p < |q| {
      RemoveCellIndex(q, c);
      forall i | 0 <= i < |r| ensures r[i].cell != c {
        if i >= p {
          assert r[i] == q[i + 1] && q[i + 1].cell != q[p].cell;
        }
      }
      forall i, j | 0 <= i < j < |r|
        ensures r[i].cell != r[j].cell
      {
        if i < p { assert r[i] == q[i]; } else { assert r[i] == q[i + 1]; }
        if j < p { assert r[j] == q[j]; } else { assert r[j] == q[j + 1]; }
      }
    }
  }

  /** Removing the first entry for c is removing the entry at its first position p. */
  lemma RemoveCellAt(q: seq<Entry>, c: nat, p: nat)
    requires p < |q| && q[p].cell == c
    requires forall j :: 0 <= j < p ==> q[j].cell != c
    ensures RemoveCell(q, c) == q[..p] + q[p + 1..]
  {
    var f := FirstCell(q, c);
    assert f == p;
  }

  /** The erase loop of unqueue(): scan from lower_bound(k) to the end of the
      queue for the first entry of cell c and erase it. */
  method Unqueue(q: seq<Entry>, k: real, c: nat) returns (r: seq<Entry>, found: bool)
    ensures found <==> exists p :: LowerBound(q, k) <= p < |q| && q[p].cell == c
    ensures !found ==> r == q
    ensures found ==> exists p :: LowerBound(q, k) <= p < |q| && q[p].cell == c &&
                                  (forall j :: LowerBound(q, k) <= j < p ==> q[j].cell != c) &&
                                  r == q[..p] + q[p + 1..]
  {
    var i := LowerBound(q, k);
    while i < |q|
      invariant LowerBound(q, k) <= i <= |q|
      invariant forall j :: LowerBound(q, k) <= j < i ==> q[j].cell != c
    {
      if q[i].cell == c {
        r, found := q[..i] + q[i + 1..], true;
        return;
      }
      i := i + 1;
    }
    r, found := q, false;
  }

  /** In a sorted queue with at most one entry per cell, the scan of unqueue()
      started at the entry's own key finds exactly that entry. */
  lemma UnqueueFindsEntry(q: seq<Entry>, k: real, c: nat)
    requires Sorted(q) && DistinctCells(q) && Entry(k, c) in q
    ensures exists p :: LowerBound(q, k) <= p < |q| && q[p].cell == c
    ensures forall p :: LowerBound(q, k) <= p < |q| && q[p].cell == c &&
                        (forall j :: LowerBound(q, k) <= j < p ==> q[j].cell != c) ==>
                        q[..p] + q[p + 1..] == RemoveCell(q, c)
  {
    var p0 :| 0 <= p0 < |q| && q[p0] == Entry(k, c);
    assert LowerBound(q, k) <= p0;
    forall p | LowerBound(q, k) <= p < |q| && q[p].cell == c &&
               (forall j :: LowerBound(q, k) <= j < p ==> q[j].cell != c)
      ensures q[..p] + q[p + 1..] == RemoveCell(q, c)
    {
      assert p == p0;
      RemoveCellAt(q, c, p);
    }
  }

  /** The first entry of a sorted queue has the least key (what begin() pops). */
  lemma FirstIsMinimal(q: seq<Entry>)
    requires Sorted(q) && q != []
    ensures forall e :: e in q ==> q[0].key <= e.key
  {
  }

  /** The multimap obtained by inserting the entries of xs in order. */
  function InsertAll(xs: seq<Entry>): seq<Entry>
  {
    if xs == [] then [] else Insert(InsertAll(xs[..|xs| - 1]), xs[|xs| - 1])
  }

  /** Inserting entries one by one yields a sorted queue holding exactly them. */
  lemma {:induction false} InsertAllProperties(xs: seq<Entry>)
    ensures Sorted(InsertAll(xs))
    ensures forall e :: e in InsertAll(xs) <==> e in xs
  {
    if xs != [] {
      var init, last := xs[..|xs| - 1], xs[|xs| - 1];
      InsertAllProperties(init);
      InsertSorted(InsertAll(init), last);
      InsertMembers(InsertAll(init), last);
      assert xs == init + [last];
    }
  }

  /** The cells of ns whose value magnitude lies below bound, in the order of
      ns, each keyed by that magnitude. */
  function Passing(vals: seq<real>, ns: seq<nat>, bound: real): seq<Entry>
    requires forall i :: 0 <= i < |ns| ==> ns[i] < |vals|
  {
    if ns == [] then []
    else
      var rest := Passing(vals, ns[1..], bound);
      if Abs(vals[ns[0]]) < bound then [Entry(Abs(vals[ns[0]]), ns[0])] + rest else rest
  }

  /** An entry passes exactly when it is the entry of a cell of ns whose
      magnitude lies below the bound. */
  lemma {:induction false} PassingMembers(vals: seq<real>, ns: seq<nat>, bound: real)
    requires forall i :: 0 <= i < |ns| ==> ns[i] < |vals|
    ensures forall e :: e in Passing(vals, ns, bound) <==>
              e.cell in ns && e.cell < |vals| && e.key == Abs(vals[e.cell]) && e.key < bound
  {
    if ns != [] {
      PassingMembers(vals, ns[1..], bound);
      assert forall n :: n in ns <==> n == ns[0] || n in ns[1..];
    }
  }

  /** The local candidate multimap of the transforms' update and gradient
      steps: the passing neighbours inserted in the order of ns. */
  function Candidates(vals: seq<real>, ns: seq<nat>, bound: real): seq<Entry>
    requires forall i :: 0 <= i < |ns| ==> ns[i] < |vals|
  {
    InsertAll(Passing(vals, ns, bound))
  }

  /** The candidates are sorted by key and are exactly the entries of the
      cells of ns whose magnitude lies below the bound; there is none exactly
      when no cell of ns lies below it. */
  lemma CandidatesProperties(vals: seq<real>, ns: seq<nat>, bound: real)
    requires forall i :: 0 <= i < |ns| ==> ns[i] < |vals|
    ensures Sorted(Candidates(vals, ns, bound))
    ensures forall e :: e in Candidates(vals, ns, bound) <==>
              e.cell in ns && e.cell < |vals| && e.key == Abs(vals[e.cell]) && e.key < bound
    ensures Candidates(vals, ns, bound) == [] <==> forall i :: 0 <= i < |ns| ==> Abs(vals[ns[i]]) >= bound
  {
    var xs := Passing(vals, ns, bound);
    InsertAllProperties(xs);
    PassingMembers(vals, ns, bound);
    var cs := Candidates(vals, ns, bound);
    if cs != [] {
      assert cs[0] in cs;
    }
    forall i | 0 <= i < |ns| && Abs(vals[ns[i]]) < bound
      ensures cs != []
    {
      assert Entry(Abs(vals[ns[i]]), ns[i]) in cs;
    }
  }

  /** The candidate propagators of the transforms' update(): the south,
      north, west and east neighbours whose value magnitude is finite, keyed
      by that magnitude, in key order. */
  function Propagators(dimx: nat, dimy: nat, vals: seq<real>, index: nat): seq<Entry>
    requires |vals| == dimx * dimy && index < dimx * dimy
  {
    Candidates(vals, Neighbours(dimx, dimy, index), Infinity)
  }

  /** The propagators are sorted by key and are exactly the entries of the
      in-grid neighbours whose value magnitude is finite. */
  lemma PropagatorsProperties(dimx: nat, dimy: nat, vals: seq<real>, index: nat)
    requires |vals| == dimx * dimy && index < dimx * dimy
    ensures dimx > 0
    ensures Sorted(Propagators(dimx, dimy, vals, index))
    ensures forall e :: e in Propagators(dimx, dimy, vals, index) <==>
              e.cell < dimx * dimy && IsNeighbour(dimx, dimy, index, e.cell) &&
              e.key == Abs(vals[e.cell]) && e.key < Infinity
  {
    NeighboursMembers(dimx, dimy, index);
    CandidatesProperties(vals, Neighbours(dimx, dimy, index), Infinity);
  }

  /** The bookkeeping between a transform's key map and its queue: the queue
      is sorted, holds at most one entry per cell, every entry is for a cell
      of the map and carries that cell's key, a key is either -1 ("not on
      queue") or non-negative, and every cell with a non-negative key has its
      entry on the queue. */
  ghost predicate Tracked(q: seq<Entry>, keys: seq<real>)
  {
    Sorted(q) && DistinctCells(q) &&
    (forall i :: 0 <= i < |q| ==> q[i].cell < |keys| && q[i].key >= 0.0 && keys[q[i].cell] == q[i].key) &&
    (forall c :: 0 <= c < |keys| ==> keys[c] == -1.0 || keys[c] >= 0.0) &&
    (forall c :: 0 <= c < |keys| && keys[c] >= 0.0 ==> Entry(keys[c], c) in q)
  }

  /** An empty queue with every cell "not on queue" is tracked. */
  lemma EmptyTracked(keys: seq<real>)
    requires forall c :: 0 <= c < |keys| ==> keys[c] == -1.0
    ensures Tracked([], keys)
  {
  }

  /** A cell has an entry exactly when its key is non-negative. */
  lemma TrackedOnQueue(q: seq<Entry>, keys: seq<real>, c: nat)
    requires Tracked(q, keys) && c < |keys|
    ensures HasCell(q, c) <==> keys[c] >= 0.0
  {
    if keys[c] >= 0.0 {
      var i :| 0 <= i < |q| && q[i] == Entry(keys[c], c);
    }
  }

  /** Erasing the entry of cell c and marking it "not on queue" keeps the
      bookkeeping. */
  lemma DropTracked(q: seq<Entry>, keys: seq<real>, c: nat)
    requires Tracked(q, keys) && c < |keys|
    ensures Tracked(RemoveCell(q, c), keys[c := -1.0])
    ensures keys[c] < 0.0 ==> RemoveCell(q, c) == q
  {
    TrackedOnQueue(q, keys, c);
    FirstCellFound(q, c);
    RemoveCellIndex(q, c);
    RemoveCellKeepsOthers(q, c);
    RemoveCellSorted(q, c);
    RemoveCellDistinct(q, c);
    var r := RemoveCell(q, c);
    var keys' := keys[c := -1.0];
    var p := FirstCell(q, c);
    forall i | 0 <= i < |r|
      ensures r[i].cell < |keys'| && r[i].key >= 0.0 && keys'[r[i].cell] == r[i].key
    {
      var j := if p < |q| && i >= p then i + 1 else i;
      assert r[i] == q[j];
      assert r[i].cell != c;
    }
    forall d | 0 <= d < |keys'| && keys'[d] >= 0.0
      ensures Entry(keys'[d], d) in r
    {
      assert Entry(keys[d], d) in q;
    }
  }

  /** Inserting an entry for a cell that is not on the queue, with a
      non-negative key recorded in the map, keeps the bookkeeping. */
  lemma AddTracked(q: seq<Entry>, keys: seq<real>, c: nat, k: real)
    requires Tracked(q, keys) && c < |keys| && keys[c] == -1.0 && k >= 0.0
    ensures Tracked(Insert(q, Entry(k, c)), keys[c := k])
  {
    TrackedOnQueue(q, keys, c);
    var e := Entry(k, c);
    var r := Insert(q, e);
    var keys' := keys[c := k];
    InsertSorted(q, e);
    InsertDistinct(q, e);
    InsertMembers(q, e);
    forall i | 0 <= i < |r|
      ensures r[i].cell < |keys'| && r[i].key >= 0.0 && keys'[r[i].cell] == r[i].key
    {
      assert r[i] in r;
      if r[i] != e {
        var j :| 0 <= j < |q| && q[j] == r[i];
      }
    }
    forall d | 0 <= d < |keys'| && keys'[d] >= 0.0
      ensures Entry(keys'[d], d) in r
    {
      if d != c {
        assert Entry(keys[d], d) in q;
      }
    }
  }

  /** Removing the first entry and marking its cell "not on queue" keeps the
      bookkeeping. */
  lemma PopTracked(q: seq<Entry>, keys: seq<real>)
    requires Tracked(q, keys) && q != []
    ensures q[0].cell < |keys| && Tracked(q[1..], keys[q[0].cell := -1.0])
  {
    var c := q[0].cell;
    RemoveCellAt(q, c, 0);
    assert q[..0] + q[1..] == q[1..];
    DropTracked(q, keys, c);
  }
}
