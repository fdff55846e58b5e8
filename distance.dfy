/**
  DistanceTransform: the two-field wavefront transform.  Each cell holds its
  distance in `value` and a one-step lookahead in `rhs` (an rhs <= 0 marks a
  seeded cell); `key` records the key under which the cell sits on the
  propagation queue (-1 when it is not on the queue).  A cell is queued only
  while its lookahead magnitude lies below its value, and it is expanded
  once: propagate() copies the lookahead into the value and updates the
  four neighbours.

  As for the single-field transform, every operation that changes the maps
  or the queue is specified by a function on the abstract State, and the
  lemmas about those functions carry the properties of the transform.
 */
module Distance {
  import opened Wrappers
  import opened Grid
  import opened CellQueue

  datatype State = State(value: seq<real>, rhs: seq<real>, key: seq<real>, queue: seq<Entry>)

  class DistanceTransform {
    const dimx: nat
    const dimy: nat
    const ncells: nat
    const scale: real
    /** pow(scale, 2) */
    const scale2: real
    /** The library square root used by the two-point interpolation. */
    const sqrt: real -> real
    const value: array<real>
    const rhs: array<real>
    const key: array<real>
    var queue: seq<Entry>

    /** The state sizes match the grid. */
    ghost predicate Sized(s: State)
    {
      ncells == dimx * dimy && |s.value| == ncells && |s.rhs| == ncells && |s.key| == ncells
    }

    /** What the transform keeps for cell c: a value that is never negative,
        and, while c is queued, a key equal to the lookahead magnitude, which
        lies below the value. */
    ghost predicate Keyed(s: State, c: nat)
      requires Sized(s) && c < ncells
    {
      s.value[c] >= 0.0 &&
      (s.key[c] >= 0.0 ==> s.key[c] == Abs(s.rhs[c]) && Abs(s.rhs[c]) < s.value[c])
    }

    /** A state the transform can be in between its operations. */
    ghost predicate Consistent(s: State)
    {
      Sized(s) && Tracked(s.queue, s.key) &&
      forall c :: 0 <= c < ncells ==> Keyed(s, c)
    }

    /** A state in which only cell c may be out of date: what requeue(c) accepts. */
    ghost predicate Pending(s: State, c: nat)
    {
      Sized(s) && c < ncells && Tracked(s.queue, s.key) && s.value[c] >= 0.0 &&
      forall d :: 0 <= d < ncells && d != c ==> Keyed(s, d)
    }

    ghost function Current(): State
      reads this, value, rhs, key
    {
      State(value[..], rhs[..], key[..], queue)
    }

    /** Three distinct arrays of ncells entries. */
    ghost predicate Framed()
      reads this
    {
      value != rhs && value != key && rhs != key &&
      value.Length == ncells && rhs.Length == ncells && key.Length == ncells
    }

    ghost predicate Valid()
      reads this, value, rhs, key
    {
      Framed() && Consistent(Current())
    }

    /** The constructor: every value and lookahead infinite, no key, an empty queue. */
    constructor (dimx: nat, dimy: nat, scale: real, sqrt: real -> real)
      ensures Valid() && this.dimx == dimx && this.dimy == dimy && this.scale == scale && this.sqrt == sqrt
      ensures scale2 == scale * scale
      ensures fresh(value) && fresh(rhs) && fresh(key)
      ensures forall c :: 0 <= c < ncells ==> value[c] == Infinity && rhs[c] == Infinity && key[c] == -1.0
      ensures queue == []
    {
      this.dimx := dimx;
      this.dimy := dimy;
      ncells := dimx * dimy;
      this.scale := scale;
      scale2 := scale * scale;
      this.sqrt := sqrt;
      value := new real[dimx * dimy](_ => Infinity);
      rhs := new real[dimx * dimy](_ => Infinity);
      key := new real[dimx * dimy](_ => -1.0);
      queue := [];
      new;
      EmptyTracked(key[..]);
    }

    // ---------------------------------------------------------------------
    // The operations on the abstract state.

    /** requeue(): a cell whose lookahead is not below its value leaves the
        queue (and its lookahead is reset to the value when the two differ);
        otherwise it is entered under min(value, lookahead) magnitude, unless
        it already sits there under that key. */
    function RequeueState(s: State, c: nat): (r: State)
      requires Sized(s) && c < ncells
      ensures Sized(r)
    {
      var rh := Abs(s.rhs[c]);
      var v := Abs(s.value[c]);
      if rh >= v then
        var q := if s.key[c] >= 0.0 then RemoveCell(s.queue, c) else s.queue;
        var keys := if s.key[c] >= 0.0 then s.key[c := -1.0] else s.key;
        State(s.value, if rh != v then s.rhs[c := s.value[c]] else s.rhs, keys, q)
      else
        var k := if rh < v then rh else v;
        if s.key[c] < 0.0 then
          State(s.value, s.rhs, s.key[c := k], Insert(s.queue, Entry(k, c)))
        else if k != s.key[c] then
          State(s.value, s.rhs, s.key[c := k], Insert(RemoveCell(s.queue, c), Entry(k, c)))
        else
          s
    }

    /** The branch of requeue() for a lookahead not below the value: the cell
        leaves the queue and everything else keeps its bookkeeping. */
    lemma RequeueLeaves(s: State, c: nat)
      requires Pending(s, c) && Abs(s.rhs[c]) >= s.value[c]
      ensures var r := RequeueState(s, c);
              Consistent(r) && r.value == s.value &&
              r.key == s.key[c := -1.0] && r.queue == RemoveCell(s.queue, c) && !HasCell(r.queue, c) &&
              r.rhs == (if Abs(s.rhs[c]) != s.value[c] then s.rhs[c := s.value[c]] else s.rhs)
    {
      var r := RequeueState(s, c);
      DropTracked(s.queue, s.key, c);
      RemoveCellDistinct(s.queue, c);
      if s.key[c] < 0.0 {
        assert s.key[c := -1.0] == s.key;
      }
      forall d | 0 <= d < ncells
        ensures Keyed(r, d)
      {
        if d != c {
          assert Keyed(s, d);
        }
      }
    }

    /** The branch of requeue() for a lookahead below the value: afterwards the
        cell's key is the lookahead magnitude and its one entry carries it,
        whether it was inserted, moved, or already there. */
    lemma RequeueEnters(s: State, c: nat)
      requires Pending(s, c) && Abs(s.rhs[c]) < s.value[c]
      ensures var r := RequeueState(s, c);
              var k := Abs(s.rhs[c]);
              Tracked(r.queue, r.key) && r.value == s.value && r.rhs == s.rhs && r.key == s.key[c := k] &&
              (forall e :: e in r.queue <==> (e in s.queue && e.cell != c) || e == Entry(k, c)) &&
              (s.key[c] == k ==> r == s)
    {
      var r := RequeueState(s, c);
      var k := Abs(s.rhs[c]);
      TrackedOnQueue(s.queue, s.key, c);
      DropTracked(s.queue, s.key, c);
      RemoveCellKeepsOthers(s.queue, c);
      RemoveCellDistinct(s.queue, c);
      if s.key[c] < 0.0 || k != s.key[c] {
        var q := if s.key[c] >= 0.0 then RemoveCell(s.queue, c) else s.queue;
        assert s.key[c := -1.0][c := k] == s.key[c := k];
        if s.key[c] < 0.0 {
          assert s.key[c := -1.0] == s.key;
        }
        AddTracked(q, s.key[c := -1.0], c, k);
        InsertMembers(q, Entry(k, c));
      } else {
        assert s.key[c := k] == s.key;
        assert Entry(k, c) in s.queue;
        forall e | e in s.queue && e.cell == c
          ensures e == Entry(k, c)
        {
          var i :| 0 <= i < |s.queue| && s.queue[i] == e;
        }
      }
    }

    /** requeue() makes a pending state consistent and keeps the values.  A
        cell whose lookahead is not below its value is off the queue with its
        lookahead magnitude equal to the value; otherwise it has exactly one
        entry, keyed by the lookahead magnitude, and a cell already queued
        under that key is left as it was.  No other cell's key, lookahead or
        entries change. */
    lemma RequeueProperties(s: State, c: nat)
      requires Pending(s, c)
      ensures var r := RequeueState(s, c);
              Consistent(r) && r.value == s.value &&
              (forall d :: 0 <= d < ncells && d != c ==> r.key[d] == s.key[d] && r.rhs[d] == s.rhs[d]) &&
              (forall e: Entry :: e.cell != c ==> (e in r.queue <==> e in s.queue)) &&
              (Abs(s.rhs[c]) >= s.value[c] ==>
                 r.key[c] == -1.0 && !HasCell(r.queue, c) && Abs(r.rhs[c]) == s.value[c] &&
                 (Abs(s.rhs[c]) == s.value[c] ==> r.rhs == s.rhs)) &&
              (Abs(s.rhs[c]) < s.value[c] ==>
                 r.rhs == s.rhs && r.key[c] == Abs(s.rhs[c]) && Entry(Abs(s.rhs[c]), c) in r.queue &&
                 (forall e :: e in r.queue && e.cell == c ==> e == Entry(Abs(s.rhs[c]), c)) &&
                 (s.key[c] == Abs(s.rhs[c]) ==> r == s))
    {
      var r := RequeueState(s, c);
      if Abs(s.rhs[c]) >= s.value[c] {
        RequeueLeaves(s, c);
        RemoveCellKeepsOthers(s.queue, c);
      } else {
        RequeueEnters(s, c);
        forall d | 0 <= d < ncells
          ensures Keyed(r, d)
        {
          if d != c {
            assert Keyed(s, d);
          }
        }
      }
    }

    /** pop(): take the first entry off the queue and mark its cell "not on
        queue"; returns the cell. */
    function PopState(s: State): (r: (nat, State))
      requires Consistent(s) && s.queue != []
      ensures r.0 < ncells && Sized(r.1)
    {
      var c := s.queue[0].cell;
      PopTracked(s.queue, s.key);
      (c, State(s.value, s.rhs, s.key[c := -1.0], s.queue[1..]))
    }

    /** The popped cell is the one with the least key, its value lies above
        its lookahead magnitude, and afterwards it is off the queue in a
        consistent state. */
    lemma PopProperties(s: State)
      requires Consistent(s) && s.queue != []
      ensures var (c, r) := PopState(s);
              Consistent(r) && r.value == s.value && r.rhs == s.rhs &&
              s.queue[0].cell == c && (forall e :: e in s.queue ==> s.queue[0].key <= e.key) &&
              s.value[c] > Abs(s.rhs[c]) &&
              r.key[c] == -1.0 && !HasCell(r.queue, c)
    {
      PopTracked(s.queue, s.key);
      FirstIsMinimal(s.queue);
      var (c, r) := PopState(s);
      assert Keyed(s, c);
      TrackedOnQueue(r.queue, r.key, c);
      forall d | 0 <= d < ncells
        ensures Keyed(r, d)
      {
        assert Keyed(s, d);
      }
    }

    /** The search of update() for an interpolation partner among props[i..]:
        only when the primary is the north or south neighbour, the first
        secondary in another column that is closer than the scale to the
        primary. */
    function Interpolation(props: seq<Entry>, i: nat, primary: real, northsouth: bool, ix: nat): (r: Option<real>)
      requires dimx > 0 && 1 <= i <= |props|
      decreases |props| - i
      ensures r.Some? ==>
                northsouth &&
                exists j :: i <= j < |props| && ix != props[j].cell % dimx && scale > props[j].key - primary &&
                            r.value == TwoPoint(sqrt, primary, props[j].key, scale2)
      ensures r.None? ==>
                forall j :: i <= j < |props| && northsouth && ix != props[j].cell % dimx ==>
                              scale <= props[j].key - primary
    {
      if i == |props| then None
      else if northsouth && ix != props[i].cell % dimx && scale > props[i].key - primary then
        Some(TwoPoint(sqrt, primary, props[i].key, scale2))
      else
        Interpolation(props, i + 1, primary, northsouth, ix)
    }

    /** The lookahead update() computes for a cell with propagators props:
        the interpolated value if a partner exists, otherwise the primary plus
        the scale. */
    function NewRhs(index: nat, props: seq<Entry>): real
      requires dimx > 0 && props != []
    {
      var primary := props[0].key;
      var northsouth := index % dimx == props[0].cell % dimx;
      match Interpolation(props, 1, primary, northsouth, index % dimx)
      case Some(v) => v
      case None => primary + scale
    }

    /** The lookahead update() gives a non-fixed cell: infinity without
        propagators. */
    function Lookahead(vals: seq<real>, index: nat): real
      requires |vals| == ncells && ncells == dimx * dimy && index < ncells
    {
      var props := Propagators(dimx, dimy, vals, index);
      if props == [] then Infinity
      else
        NeighboursInGrid(dimx, dimy, index);
        NewRhs(index, props)
    }

    /** update(): skip a fixed cell, otherwise store the new lookahead and requeue. */
    function UpdateState(s: State, index: nat): (r: State)
      requires Sized(s) && index < ncells
      ensures Sized(r)
    {
      if s.value[index] <= 0.0 then s
      else RequeueState(State(s.value, s.rhs[index := Lookahead(s.value, index)], s.key, s.queue), index)
    }

    /** A new lookahead for cell index leaves it the only cell that may be
        out of date. */
    lemma PendingAfterLookahead(s: State, index: nat, l: real)
      requires Consistent(s) && index < ncells
      ensures Pending(State(s.value, s.rhs[index := l], s.key, s.queue), index)
    {
      var t := State(s.value, s.rhs[index := l], s.key, s.queue);
      assert Keyed(s, index);
      forall d | 0 <= d < ncells && d != index
        ensures Keyed(t, d)
      {
        assert Keyed(s, d);
      }
    }

    /** The lookahead update() computes: infinity without propagators;
        otherwise, with the primary the least propagator magnitude, either
        the primary plus the scale, or (only for a north or south primary)
        the two-point value with the first propagator in another column that
        is closer than the scale to the primary. */
    lemma LookaheadCases(vals: seq<real>, index: nat)
      requires |vals| == ncells && ncells == dimx * dimy && index < ncells
      ensures var props := Propagators(dimx, dimy, vals, index);
              var l := Lookahead(vals, index);
              (props == [] ==> l == Infinity) &&
              (props != [] ==>
                 var primary := props[0].key;
                 var northsouth := index % dimx == props[0].cell % dimx;
                 (forall e :: e in props ==> primary <= e.key) &&
                 (l == primary + scale ||
                  (northsouth &&
                   exists j :: 1 <= j < |props| && index % dimx != props[j].cell % dimx &&
                               scale > props[j].key - primary &&
                               l == TwoPoint(sqrt, primary, props[j].key, scale2))))
    {
      var props := Propagators(dimx, dimy, vals, index);
      PropagatorsProperties(dimx, dimy, vals, index);
      if props != [] {
        FirstIsMinimal(props);
      }
    }

    /** update() never changes a value and keeps the state consistent; it
        skips a cell whose value is not positive, and otherwise requeues the
        cell with the new lookahead: a lookahead not below the value takes
        the cell off the queue, a lower one queues it under its magnitude.
        No other cell changes. */
    lemma UpdateFrame(s: State, index: nat)
      requires Consistent(s) && index < ncells
      ensures var r := UpdateState(s, index);
              var l := Lookahead(s.value, index);
              Consistent(r) && r.value == s.value &&
              (forall d :: 0 <= d < ncells && d != index ==> r.key[d] == s.key[d] && r.rhs[d] == s.rhs[d]) &&
              (forall e: Entry :: e.cell != index ==> (e in r.queue <==> e in s.queue)) &&
              (s.value[index] <= 0.0 ==> r == s) &&
              (s.value[index] > 0.0 && Abs(l) >= s.value[index] ==>
                 r.key[index] == -1.0 && !HasCell(r.queue, index) && Abs(r.rhs[index]) == s.value[index]) &&
              (s.value[index] > 0.0 && Abs(l) < s.value[index] ==>
                 r.rhs[index] == l && r.key[index] == Abs(l) && Entry(Abs(l), index) in r.queue &&
                 (forall e :: e in r.queue && e.cell == index ==> e == Entry(Abs(l), index)))
    {
      if s.value[index] > 0.0 {
        var l := Lookahead(s.value, index);
        PendingAfterLookahead(s, index, l);
        RequeueProperties(State(s.value, s.rhs[index := l], s.key, s.queue), index);
      }
    }

    /** update() applied to the cells one after another. */
    function UpdateAll(s: State, cells: seq<nat>): (r: State)
      requires Sized(s) && forall i :: 0 <= i < |cells| ==> cells[i] < ncells
      ensures Sized(r)
      decreases |cells|
    {
      if cells == [] then s else UpdateAll(UpdateState(s, cells[0]), cells[1..])
    }

    /** Updating cells one after another keeps the state consistent, never
        changes a value, and leaves the key and lookahead of every other cell
        as they were. */
    lemma {:induction false} UpdateAllKeeps(s: State, cells: seq<nat>)
      requires Consistent(s) && forall i :: 0 <= i < |cells| ==> cells[i] < ncells
      ensures var r := UpdateAll(s, cells);
              Consistent(r) && r.value == s.value &&
              forall d :: 0 <= d < ncells && d !in cells ==> r.key[d] == s.key[d] && r.rhs[d] == s.rhs[d]
      decreases |cells|
    {
      if cells != [] {
        UpdateFrame(s, cells[0]);
        UpdateAllKeeps(UpdateState(s, cells[0]), cells[1..]);
        forall d | 0 <= d < ncells && d !in cells
          ensures d !in cells[1..] && d != cells[0]
        {
          assert cells[0] in cells;
        }
      }
    }

    /** Updating the cells of a + b is updating those of a, then those of b. */
    lemma {:induction false} UpdateAllAppend(s: State, a: seq<nat>, b: seq<nat>)
      requires Sized(s) && (forall i :: 0 <= i < |a| ==> a[i] < ncells) && (forall i :: 0 <= i < |b| ==> b[i] < ncells)
      ensures UpdateAll(s, a + b) == UpdateAll(UpdateAll(s, a), b)
      decreases |a|
    {
      if a != [] {
        assert (a + b)[1..] == a[1..] + b;
        UpdateAllAppend(UpdateState(s, a[0]), a[1..], b);
      } else {
        assert a + b == b;
      }
    }

    /** The value propagate() gives the popped cell: its lookahead magnitude
        when that lies below the value, infinity otherwise. */
    function Expanded(s: State, index: nat): (r: State)
      requires Sized(s) && index < ncells
      ensures Sized(r)
    {
      var rh := Abs(s.rhs[index]);
      State(s.value[index := if s.value[index] > rh then rh else Infinity], s.rhs, s.key, s.queue)
    }

    /** Expanding a cell that is off the queue keeps the state consistent. */
    lemma ExpandedConsistent(s: State, index: nat)
      requires Consistent(s) && index < ncells && s.key[index] == -1.0
      ensures Consistent(Expanded(s, index))
    {
      var r := Expanded(s, index);
      forall d | 0 <= d < ncells
        ensures Keyed(r, d)
      {
        assert Keyed(s, d);
      }
    }

    /** propagate(): pop the cell with the least key, expand it and update
        its in-grid south, north, west and east neighbours.  The queue must
        not be empty. */
    function PropagateState(s: State): (r: State)
      requires Consistent(s) && s.queue != []
      ensures Sized(r)
    {
      var (index, s0) := PopState(s);
      UpdateAll(Expanded(s0, index), Neighbours(dimx, dimy, index))
    }

    /** propagate() keeps the state consistent.  The popped cell, the one
        with the least key, always lies above its lookahead (so the branch
        that resets it to infinity is never taken): its value drops to its
        key, it leaves the queue, and its lookahead stays.  No other value
        changes. */
    lemma PropagateProperties(s: State)
      requires Consistent(s) && s.queue != []
      ensures var r := PropagateState(s);
              var c := s.queue[0].cell;
              Consistent(r) &&
              (forall e :: e in s.queue ==> s.queue[0].key <= e.key) &&
              s.value[c] > s.queue[0].key && s.queue[0].key == Abs(s.rhs[c]) &&
              r.value == s.value[c := s.queue[0].key] &&
              r.key[c] == -1.0 && r.rhs[c] == s.rhs[c]
    {
      PopProperties(s);
      var (index, s0) := PopState(s);
      assert Keyed(s, index);
      TrackedOnQueue(s.queue, s.key, index);
      assert s.queue[0] == Entry(s.key[index], index);
      ExpandedConsistent(s0, index);
      var ns := Neighbours(dimx, dimy, index);
      NeighboursInGrid(dimx, dimy, index);
      UpdateAllKeeps(Expanded(s0, index), ns);
      assert index !in ns;
    }

    /** compute(), with at most fuel propagation steps: propagate while the
        queue is not empty.  The result is consistent again. */
    function ComputeState(s: State, fuel: nat): (r: State)
      requires Consistent(s)
      ensures Consistent(r)
      decreases fuel
    {
      if s.queue == [] || fuel == 0 then s
      else
        PropagateProperties(s);
        ComputeState(PropagateState(s), fuel - 1)
    }

    /** One round of compute(): a propagation step, then the rest of the fuel. */
    lemma ComputeStep(s: State, fuel: nat)
      requires Consistent(s) && fuel > 0 && s.queue != []
      ensures Consistent(PropagateState(s))
      ensures ComputeState(s, fuel) == ComputeState(PropagateState(s), fuel - 1)
    {
      PropagateProperties(s);
    }

    /** set(): reject a negative distance or a linear index outside the grid;
        otherwise give the cell an infinite value and the lookahead -dist (a
        seed) and requeue it. */
    function SetState(s: State, ix: nat, iy: nat, dist: real): (r: (bool, State))
      requires Sized(s)
      ensures Sized(r.1)
    {
      if dist < 0.0 then (false, s)
      else
        var cell := Index(dimx, ix, iy);
        if cell >= ncells then (false, s)
        else (true, RequeueState(State(s.value[cell := Infinity], s.rhs[cell := -dist], s.key, s.queue), cell))
    }

    /** Seeding a cell leaves it the only cell that may be out of date. */
    lemma SeedPending(s: State, cell: nat, dist: real)
      requires Consistent(s) && cell < ncells
      ensures Pending(State(s.value[cell := Infinity], s.rhs[cell := -dist], s.key, s.queue), cell)
    {
      var t := State(s.value[cell := Infinity], s.rhs[cell := -dist], s.key, s.queue);
      forall d | 0 <= d < ncells && d != cell
        ensures Keyed(t, d)
      {
        assert Keyed(s, d);
      }
    }

    /** set() succeeds exactly for a non-negative distance and an in-grid
        linear index, and otherwise changes nothing.  On success the cell's
        value is infinite and, for a finite distance, the cell is a seed
        queued under that distance; other cells keep their lookahead. */
    lemma SetProperties(s: State, ix: nat, iy: nat, dist: real)
      requires Consistent(s)
      ensures var (ok, r) := SetState(s, ix, iy, dist);
              var cell := Index(dimx, ix, iy);
              Consistent(r) &&
              (ok <==> dist >= 0.0 && cell < ncells) &&
              (!ok ==> r == s) &&
              (ok ==> r.value == s.value[cell := Infinity] &&
                      (forall d :: 0 <= d < ncells && d != cell ==> r.rhs[d] == s.rhs[d]) &&
                      (dist < Infinity ==>
                         r.rhs[cell] == -dist && r.key[cell] == dist &&
                         (forall e :: e in r.queue <==> (e in s.queue && e.cell != cell) || e == Entry(dist, cell))) &&
                      (dist >= Infinity ==> r.key[cell] == -1.0 && Abs(r.rhs[cell]) == Infinity))
    {
      var cell := Index(dimx, ix, iy);
      if dist >= 0.0 && cell < ncells {
        var t := State(s.value[cell := Infinity], s.rhs[cell := -dist], s.key, s.queue);
        SeedPending(s, cell, dist);
        RequeueProperties(t, cell);
        if dist < Infinity {
          RequeueEnters(t, cell);
        }
      }
    }

    // ---------------------------------------------------------------------
    // A floor: with a non-negative scale and a square root that is never
    // negative, no value or lookahead ever drops below the smallest seed.

    /** Every value and every lookahead magnitude is at least m. */
    ghost predicate AtLeast(s: State, m: real)
    {
      Sized(s) && forall c :: 0 <= c < ncells ==> s.value[c] >= m && Abs(s.rhs[c]) >= m
    }

    /** Cell c has been expanded to the value m and is off the queue. */
    ghost predicate Settled(s: State, c: nat, m: real)
    {
      Sized(s) && c < ncells && s.value[c] == m && s.key[c] == -1.0
    }

    /** What the floor needs of the transform. */
    ghost predicate Monotone()
    {
      scale >= 0.0 && forall x :: sqrt(x) >= 0.0
    }

    /** A lookahead computed from values that are all at least m is at least m. */
    lemma LookaheadAtLeast(vals: seq<real>, index: nat, m: real)
      requires |vals| == ncells && ncells == dimx * dimy && index < ncells
      requires Monotone() && 0.0 <= m <= Infinity
      requires forall c :: 0 <= c < ncells ==> vals[c] >= m
      ensures Lookahead(vals, index) >= m
    {
      var props := Propagators(dimx, dimy, vals, index);
      LookaheadCases(vals, index);
      PropagatorsProperties(dimx, dimy, vals, index);
      if props != [] {
        assert props[0] in props;
        forall j | 1 <= j < |props|
          ensures TwoPoint(sqrt, props[0].key, props[j].key, scale2) >= m
        {
          assert props[j] in props;
          TwoPointAtLeastMean(sqrt, props[0].key, props[j].key, scale2);
        }
      }
    }

    /** update() keeps the floor and leaves a settled cell settled (its
        lookahead can never come below its value again). */
    lemma UpdateAtLeast(s: State, index: nat, m: real, c: nat)
      requires Consistent(s) && AtLeast(s, m) && index < ncells
      requires Monotone() && 0.0 < m <= Infinity
      ensures AtLeast(UpdateState(s, index), m)
      ensures Settled(s, c, m) ==> Settled(UpdateState(s, index), c, m)
    {
      UpdateFrame(s, index);
      if s.value[index] > 0.0 {
        LookaheadAtLeast(s.value, index, m);
      }
    }

    /** The same for a sequence of updates. */
    lemma {:induction false} UpdateAllAtLeast(s: State, cells: seq<nat>, m: real, c: nat)
      requires Consistent(s) && AtLeast(s, m) && forall i :: 0 <= i < |cells| ==> cells[i] < ncells
      requires Monotone() && 0.0 < m <= Infinity
      ensures AtLeast(UpdateAll(s, cells), m)
      ensures Settled(s, c, m) ==> Settled(UpdateAll(s, cells), c, m)
      decreases |cells|
    {
      if cells != [] {
        UpdateAtLeast(s, cells[0], m, c);
        UpdateFrame(s, cells[0]);
        UpdateAllAtLeast(UpdateState(s, cells[0]), cells[1..], m, c);
      }
    }

    /** propagate() keeps the floor and leaves a settled cell settled. */
    lemma PropagateAtLeast(s: State, m: real, c: nat)
      requires Consistent(s) && s.queue != [] && AtLeast(s, m)
      requires Monotone() && 0.0 < m <= Infinity
      ensures AtLeast(PropagateState(s), m)
      ensures Settled(s, c, m) ==> Settled(PropagateState(s), c, m)
    {
      PopProperties(s);
      var (index, s0) := PopState(s);
      ExpandedConsistent(s0, index);
      var t := Expanded(s0, index);
      if Settled(s, c, m) {
        TrackedOnQueue(s.queue, s.key, c);
        assert s.queue[0].cell != c;
      }
      UpdateAllAtLeast(t, Neighbours(dimx, dimy, index), m, c);
    }

    /** set() with a distance of at least m keeps the floor. */
    lemma SetAtLeast(s: State, ix: nat, iy: nat, dist: real, m: real)
      requires Consistent(s) && AtLeast(s, m) && dist >= m && m <= Infinity
      ensures AtLeast(SetState(s, ix, iy, dist).1, m)
    {
      SetProperties(s, ix, iy, dist);
    }

    /** The first propagation step from a single-entry queue settles the
        seed at its key. */
    lemma FirstStepSettles(s: State)
      requires Consistent(s) && |s.queue| == 1
      ensures Settled(PropagateState(s), s.queue[0].cell, s.queue[0].key)
    {
      PropagateProperties(s);
    }

    // ---------------------------------------------------------------------
    // The member functions, proved against the operations above.

    /** get(): the raw value of the cell, infinity outside the grid (only the
        linear index is checked). */
    function Get(ix: nat, iy: nat): (d: real)
      reads this, value, rhs, key
      requires Valid()
      ensures Index(dimx, ix, iy) >= ncells ==> d == Infinity
      ensures Index(dimx, ix, iy) < ncells ==> d == value[Index(dimx, ix, iy)] && d >= 0.0
    {
      var cell := Index(dimx, ix, iy);
      if cell >= ncells then Infinity
      else
        assert Keyed(Current(), cell);
        value[cell]
    }

    /** unqueue(): the erase loop from lower_bound(key[index]); it finds the
        entry exactly when the cell is on the queue. */
    method Unqueue(index: nat) returns (found: bool)
      requires Framed() && Sized(Current()) && Tracked(queue, key[..]) && index < ncells
      modifies this
      ensures found == (old(key[index]) >= 0.0)
      ensures queue == RemoveCell(old(queue), index)
    {
      TrackedOnQueue(queue, key[..], index);
      if key[index] >= 0.0 {
        UnqueueFindsEntry(queue, key[index], index);
      } else {
        RemoveCellCount(queue, index);
      }
      var r;
      r, found := CellQueue.Unqueue(queue, key[index], index);
      queue := r;
    }

    /** requeue(); the unqueue() calls always find the entry, so its error
        messages are never printed. */
    method Requeue(index: nat)
      requires Framed() && Pending(Current(), index)
      modifies this, rhs, key
      ensures Valid() && Current() == RequeueState(old(Current()), index)
    {
      ghost var s := Current();
      RequeueProperties(s, index);
      var rh := Abs(rhs[index]);
      var v := Abs(value[index]);
      if rh >= v {
        if key[index] >= 0.0 {
          var found := Unqueue(index);
          assert found;
          key[index] := -1.0;
        }
        assert key[..] == if s.key[index] >= 0.0 then s.key[index := -1.0] else s.key;
        if rh != v {
          rhs[index] := value[index];
        }
        assert rhs[..] == if rh != v then s.rhs[index := s.value[index]] else s.rhs;
        return;
      }
      var k := if rh < v then rh else v;
      if key[index] < 0.0 {
        key[index] := k;
        queue := Insert(queue, Entry(k, index));
      } else if k != key[index] {
        var found := Unqueue(index);
        assert found;
        key[index] := k;
        queue := Insert(queue, Entry(k, index));
      }
      assert key[..] == if s.key[index] < 0.0 || k != s.key[index] then s.key[index := k] else s.key;
    }

    /** set() */
    method Set(ix: nat, iy: nat, dist: real) returns (ok: bool)
      requires Valid()
      modifies this, value, rhs, key
      ensures Valid() && (ok, Current()) == SetState(old(Current()), ix, iy, dist)
    {
      ghost var s := Current();
      if dist < 0.0 {
        return false;
      }
      var cell := Index(dimx, ix, iy);
      if cell >= ncells {
        return false;
      }
      value[cell] := Infinity;
      rhs[cell] := -dist;
      assert Current() == State(s.value[cell := Infinity], s.rhs[cell := -dist], s.key, s.queue);
      SeedPending(s, cell, dist);
      Requeue(cell);
      ok := true;
    }

    /** The interpolation loop of update(): walk the propagators after the
        primary and stop at the first usable secondary. */
    method Interpolate(props: seq<Entry>, primary: real, northsouth: bool, ix: nat) returns (r: Option<real>)
      requires dimx > 0 && props != []
      ensures r == Interpolation(props, 1, primary, northsouth, ix)
    {
      var i := 1;
      while i < |props|
        invariant 1 <= i <= |props|
        invariant Interpolation(props, 1, primary, northsouth, ix) == Interpolation(props, i, primary, northsouth, ix)
      {
        if northsouth && ix != props[i].cell % dimx {
          var secondary := props[i].key;
          if scale > secondary - primary {
            return Some(TwoPoint(sqrt, primary, secondary, scale2));
          }
        }
        i := i + 1;
      }
      r := None;
    }

    /** update() */
    method Update(index: nat)
      requires Valid() && index < ncells
      modifies this, rhs, key
      ensures Valid() && Current() == UpdateState(old(Current()), index)
    {
      ghost var s := Current();
      if value[index] <= 0.0 {
        return;
      }
      var props := Propagators(dimx, dimy, value[..], index);
      if props == [] {
        rhs[index] := Infinity;
      } else {
        NeighboursInGrid(dimx, dimy, index);
        var primary := props[0].key;
        var ix := index % dimx;
        var northsouth := ix == props[0].cell % dimx;
        var found := Interpolate(props, primary, northsouth, ix);
        match found
        case Some(v) => rhs[index] := v;
        case None => rhs[index] := primary + scale;
      }
      assert Current() == State(s.value, s.rhs[index := Lookahead(s.value, index)], s.key, s.queue);
      PendingAfterLookahead(s, index, Lookahead(s.value, index));
      Requeue(index);
    }

    /** pop(): the queue is non-empty at every call. */
    method Pop() returns (index: nat)
      requires Valid() && queue != []
      modifies this, key
      ensures Valid() && (index, Current()) == PopState(old(Current()))
    {
      ghost var s := Current();
      PopProperties(s);
      index := queue[0].cell;
      queue := queue[1..];
      key[index] := -1.0;
      assert key[..] == s.key[index := -1.0];
    }

    /** One neighbour visit of propagate(): when the cells still to update
        start with cell, updating it leaves the rest to do. */
    method UpdateFirst(ghost cells: seq<nat>, cell: nat) returns (ghost rest: seq<nat>)
      requires Valid() && forall i :: 0 <= i < |cells| ==> cells[i] < ncells
      requires cells != [] && cells[0] == cell
      modifies this, rhs, key
      ensures Valid() && rest == cells[1..]
      ensures UpdateAll(Current(), rest) == UpdateAll(old(Current()), cells)
    {
      Update(cell);
      rest := cells[1..];
    }

    /** The south and north visits of propagate(). */
    method UpdateVertical(index: nat)
      requires Valid() && index < ncells
      modifies this, rhs, key
      ensures Valid() && Current() == UpdateAll(old(Current()), VerticalNeighbours(dimx, dimy, index))
    {
      NeighboursInGrid(dimx, dimy, index);
      ghost var t := if HasNorth(ncells, dimx, index) then [index + dimx] else [];
      ghost var cells := VerticalNeighbours(dimx, dimy, index);
      if index >= dimx {
        cells := UpdateFirst(cells, index - dimx);
      }
      assert cells == t;
      if index < ncells - dimx {
        cells := UpdateFirst(cells, index + dimx);
      }
      assert cells == [];
    }

    /** The west and east visits of propagate(). */
    method UpdateHorizontal(index: nat)
      requires Valid() && index < ncells
      modifies this, rhs, key
      ensures Valid() && Current() == UpdateAll(old(Current()), HorizontalNeighbours(dimx, dimy, index))
    {
      NeighboursInGrid(dimx, dimy, index);
      ghost var t := if HasEast(dimx, index) then [index + 1] else [];
      ghost var cells := HorizontalNeighbours(dimx, dimy, index);
      var ix := index % dimx;
      if ix > 0 {
        cells := UpdateFirst(cells, index - 1);
      }
      assert cells == t;
      if ix < dimx - 1 {
        cells := UpdateFirst(cells, index + 1);
      }
      assert cells == [];
    }

    /** The four neighbour visits of propagate(), in its order. */
    method UpdateNeighbours(index: nat)
      requires Valid() && index < ncells
      modifies this, rhs, key
      ensures Valid() && Current() == UpdateAll(old(Current()), Neighbours(dimx, dimy, index))
    {
      ghost var s := Current();
      UpdateVertical(index);
      UpdateHorizontal(index);
      UpdateAllAppend(s, VerticalNeighbours(dimx, dimy, index), HorizontalNeighbours(dimx, dimy, index));
    }

    /** propagate(): both of its branches update the same neighbours, so the
        branch only decides the value stored for the popped cell. */
    method Propagate()
      requires Valid() && queue != []
      modifies this, value, rhs, key
      ensures Valid() && Current() == PropagateState(old(Current()))
    {
      ghost var s := Current();
      var index := Pop();
      ghost var s0 := Current();
      var r := Abs(rhs[index]);
      value[index] := if value[index] > r then r else Infinity;
      assert Current() == Expanded(s0, index);
      ExpandedConsistent(s0, index);
      UpdateNeighbours(index);
    }

    /** One round of the loop of compute(). */
    method Round(fuel: nat) returns (rest: nat)
      requires Valid() && fuel > 0 && queue != []
      modifies this, value, rhs, key
      ensures Valid() && rest == fuel - 1
      ensures ComputeState(Current(), rest) == ComputeState(old(Current()), fuel)
    {
      ghost var s := Current();
      Propagate();
      rest := fuel - 1;
      ComputeStep(s, fuel);
    }

    /** compute(), bounded by fuel propagation steps; finished tells whether
        it stopped on its own exit condition, an empty queue. */
    method Compute(fuel: nat) returns (finished: bool)
      requires Valid()
      modifies this, value, rhs, key
      ensures Valid() && Current() == ComputeState(old(Current()), fuel)
      ensures finished <==> queue == []
    {
      ghost var target := ComputeState(Current(), fuel);
      var f := fuel;
      while f > 0 && queue != []
        invariant Valid() && ComputeState(Current(), f) == target
        decreases f
      {
        f := Round(f);
      }
      finished := queue == [];
    }
  }
}
