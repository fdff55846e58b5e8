/**
  SailboatTransform: the single-field wavefront transform.  Each cell holds a
  time in `value` (a value <= 0 marks a fixed cell, whose time is its
  magnitude), and `key` records the key under which the cell sits on the
  propagation queue (-1 when it is not on the queue).  `gx`, `gy`, `gn` cache
  the gradients computed by ComputeGradient.

  Every operation that changes the time map or the queue is specified by a
  function on the abstract State (time map, key map, queue); the lemmas
  about those functions carry the properties of the transform.  The speed
  model of the original is not modelled: update() behaves as with no model
  installed, so the cell radius is always `scale`.
 */
module Sailboat {
  import opened Wrappers
  import opened Grid
  import opened CellQueue

  datatype State = State(value: seq<real>, key: seq<real>, queue: seq<Entry>)

  /** computeGradient's result: the number of downwind neighbours used and
      the two gradient components. */
  datatype Gradient = Gradient(n: nat, gx: real, gy: real)

  class SailboatTransform {
    const dimx: nat
    const dimy: nat
    const ncells: nat
    const scale: real
    /** The library square root used by the two-point interpolation. */
    const sqrt: real -> real
    const value: array<real>
    const key: array<real>
    const gx: array<real>
    const gy: array<real>
    const gn: array<int>
    var queue: seq<Entry>

    /** The state sizes match the grid. */
    ghost predicate Sized(s: State)
    {
      ncells == dimx * dimy && |s.value| == ncells && |s.key| == ncells
    }

    /** A state the transform can be in: sized, with its queue tracked by its key map. */
    ghost predicate Consistent(s: State)
    {
      Sized(s) && Tracked(s.queue, s.key)
    }

    ghost function Current(): State
      reads this, value, key
    {
      State(value[..], key[..], queue)
    }

    ghost predicate Valid()
      reads this, value, key, gx, gy, gn
    {
      value != key && value != gx && value != gy && key != gx && key != gy && gx != gy &&
      value.Length == ncells && key.Length == ncells &&
      gx.Length == ncells && gy.Length == ncells && gn.Length == ncells &&
      Consistent(Current())
    }

    /** The constructor: every time infinite, no key, an empty queue and no
        cached gradient. */
    constructor (dimx: nat, dimy: nat, scale: real, sqrt: real -> real)
      ensures Valid() && this.dimx == dimx && this.dimy == dimy && this.scale == scale && this.sqrt == sqrt
      ensures fresh(value) && fresh(key) && fresh(gx) && fresh(gy) && fresh(gn)
      ensures forall c :: 0 <= c < ncells ==> value[c] == Infinity && key[c] == -1.0
      ensures forall c :: 0 <= c < ncells ==> gx[c] == 0.0 && gy[c] == 0.0 && gn[c] == -1
      ensures queue == []
    {
      this.dimx := dimx;
      this.dimy := dimy;
      ncells := dimx * dimy;
      this.scale := scale;
      this.sqrt := sqrt;
      value := new real[dimx * dimy](_ => Infinity);
      key := new real[dimx * dimy](_ => -1.0);
      gx := new real[dimx * dimy](_ => 0.0);
      gy := new real[dimx * dimy](_ => 0.0);
      gn := new int[dimx * dimy](_ => -1);
      queue := [];
      new;
      EmptyTracked(key[..]);
    }

    // ---------------------------------------------------------------------
    // The operations on the abstract state.

    /** requeue(): erase the cell's entry if it is on the queue, then enter it
        again keyed by the magnitude of its time. */
    function RequeueState(s: State, c: nat): (r: State)
      requires Sized(s) && c < ncells
      ensures Sized(r)
    {
      var q := if s.key[c] >= 0.0 then RemoveCell(s.queue, c) else s.queue;
      var k := Abs(s.value[c]);
      State(s.value, s.key[c := k], Insert(q, Entry(k, c)))
    }

    /** After requeue the cell has exactly one entry, keyed by the magnitude of
        its time, and the entries of all other cells are those of before. */
    lemma RequeueProperties(s: State, c: nat)
      requires Consistent(s) && c < ncells
      ensures var r := RequeueState(s, c);
              Consistent(r) && r.value == s.value &&
              r.key[c] == Abs(s.value[c]) && Entry(Abs(s.value[c]), c) in r.queue &&
              (forall e :: e in r.queue && e.cell == c ==> e == Entry(Abs(s.value[c]), c)) &&
              (forall e: Entry :: e.cell != c ==> (e in r.queue <==> e in s.queue))
    {
      var q := if s.key[c] >= 0.0 then RemoveCell(s.queue, c) else s.queue;
      var k := Abs(s.value[c]);
      DropTracked(s.queue, s.key, c);
      RemoveCellKeepsOthers(s.queue, c);
      RemoveCellDistinct(s.queue, c);
      assert s.key[c := -1.0][c := k] == s.key[c := k];
      AddTracked(q, s.key[c := -1.0], c, k);
      InsertMembers(q, Entry(k, c));
    }

    /** pop(): take the first entry off the queue and mark its cell "not on
        queue"; returns the cell. */
    function PopState(s: State): (r: (nat, State))
      requires Consistent(s) && s.queue != []
      ensures r.0 < ncells && Sized(r.1)
    {
      var c := s.queue[0].cell;
      PopTracked(s.queue, s.key);
      (c, State(s.value, s.key[c := -1.0], s.queue[1..]))
    }

    /** The popped cell is the one with the least key; afterwards it is off the
        queue and the state is still consistent. */
    lemma PopProperties(s: State)
      requires Consistent(s) && s.queue != []
      ensures var (c, r) := PopState(s);
              Consistent(r) && r.value == s.value &&
              s.queue[0].cell == c && (forall e :: e in s.queue ==> s.queue[0].key <= e.key) &&
              r.key[c] == -1.0 && !HasCell(r.queue, c)
    {
      PopTracked(s.queue, s.key);
      FirstIsMinimal(s.queue);
      var (c, r) := PopState(s);
      TrackedOnQueue(r.queue, r.key, c);
    }

    /** A secondary lies on the other axis than the primary: exactly one of them
        is in the column of the updated cell. */
    predicate OtherAxis(northsouth: bool, ix: nat, e: Entry)
      requires dimx > 0
    {
      northsouth != (ix == e.cell % dimx)
    }

    /** The search for an interpolation partner among props[i..]: the first
        secondary on the other axis, closer than the radius to the primary,
        whose two-point value lies below the current time. */
    function Interpolation(props: seq<Entry>, i: nat, primary: real, northsouth: bool, ix: nat, current: real): (r: Option<real>)
      requires dimx > 0 && 1 <= i <= |props|
      decreases |props| - i
      ensures r.Some? ==>
                r.value < current &&
                exists j :: i <= j < |props| && OtherAxis(northsouth, ix, props[j]) && scale > props[j].key - primary &&
                            r.value == TwoPoint(sqrt, primary, props[j].key, scale * scale)
      ensures r.None? ==>
                forall j :: i <= j < |props| && OtherAxis(northsouth, ix, props[j]) && scale > props[j].key - primary ==>
                              TwoPoint(sqrt, primary, props[j].key, scale * scale) >= current
    {
      if i == |props| then None
      else if OtherAxis(northsouth, ix, props[i]) && scale > props[i].key - primary &&
              TwoPoint(sqrt, primary, props[i].key, scale * scale) < current then
        Some(TwoPoint(sqrt, primary, props[i].key, scale * scale))
      else
        Interpolation(props, i + 1, primary, northsouth, ix, current)
    }

    /** The time update() would give a cell with candidate propagators props:
        the first interpolated value that improves on it, otherwise the
        primary plus the radius if that improves on it, otherwise none. */
    function Improvement(current: real, index: nat, props: seq<Entry>): Option<real>
      requires dimx > 0 && props != []
    {
      var primary := props[0].key;
      var northsouth := index % dimx == props[0].cell % dimx;
      match Interpolation(props, 1, primary, northsouth, index % dimx, current)
      case Some(rhs) => Some(rhs)
      case None => if primary + scale < current then Some(primary + scale) else None
    }

    /** The state after update() has interpolated the cell from props: the
        improved time, requeued, or the state unchanged. */
    function Lowered(s: State, index: nat, props: seq<Entry>): (r: State)
      requires Sized(s) && index < ncells && dimx > 0 && props != []
      ensures Sized(r)
    {
      match Improvement(s.value[index], index, props)
      case Some(rhs) => RequeueState(State(s.value[index := rhs], s.key, s.queue), index)
      case None => s
    }

    /** update(): recompute the time of a non-fixed cell from its neighbours. */
    function UpdateState(s: State, index: nat): (r: State)
      requires Sized(s) && index < ncells
      ensures Sized(r)
    {
      var v := s.value;
      if v[index] <= 0.0 then s
      else if scale >= Infinity then State(v[index := Infinity], s.key, s.queue)
      else
        var props := Propagators(dimx, dimy, v, index);
        if props == [] then RequeueState(State(v[index := Infinity], s.key, s.queue), index)
        else
          NeighboursInGrid(dimx, dimy, index);
          Lowered(s, index, props)
    }

    /** update() keeps the state consistent, changes no time, key or queue
        entry of a cell but its argument and never a fixed cell; an unreachable radius gives the cell an
        infinite time without requeueing it, and a cell without propagators
        gets an infinite time and is requeued. */
    lemma UpdateFrame(s: State, index: nat)
      requires Consistent(s) && index < ncells
      ensures var r := UpdateState(s, index);
              Consistent(r) &&
              (forall c :: 0 <= c < ncells && c != index ==> r.value[c] == s.value[c]) &&
              (forall c :: 0 <= c < ncells && c != index ==> r.key[c] == s.key[c]) &&
              (forall e: Entry :: e.cell != index ==> (e in r.queue <==> e in s.queue)) &&
              (s.value[index] <= 0.0 ==> r == s) &&
              (s.value[index] > 0.0 && scale >= Infinity ==>
                 r == State(s.value[index := Infinity], s.key, s.queue)) &&
              (s.value[index] > 0.0 && scale < Infinity && Propagators(dimx, dimy, s.value, index) == [] ==>
                 r.value[index] == Infinity && Entry(Infinity, index) in r.queue)
    {
      var v := s.value;
      if v[index] > 0.0 && scale < Infinity {
        var props := Propagators(dimx, dimy, v, index);
        if props == [] {
          RequeueProperties(State(v[index := Infinity], s.key, s.queue), index);
        } else {
          NeighboursInGrid(dimx, dimy, index);
          match Improvement(v[index], index, props)
          case Some(rhs) =>
            RequeueProperties(State(v[index := rhs], s.key, s.queue), index);
          case None =>
        }
      }
    }

    /** A cell with propagators only ever gets a lower time: either the
        primary (least) neighbour time plus the radius, or the two-point value
        with a secondary on the other axis that is closer than the radius to
        the primary; a lowered cell is requeued under its new time, and an
        unchanged time leaves the whole state unchanged. */
    lemma UpdateLowers(s: State, index: nat)
      requires Consistent(s) && index < ncells
      ensures var r := UpdateState(s, index);
              var props := Propagators(dimx, dimy, s.value, index);
              s.value[index] > 0.0 && scale < Infinity && props != [] ==>
                (forall e :: e in props ==> props[0].key <= e.key) &&
                r.value[index] <= s.value[index] &&
                (r.value[index] < s.value[index] ==>
                   Entry(Abs(r.value[index]), index) in r.queue &&
                   (r.value[index] == props[0].key + scale ||
                    exists j :: 1 <= j < |props| && OtherAxis(index % dimx == props[0].cell % dimx, index % dimx, props[j]) &&
                                scale > props[j].key - props[0].key &&
                                r.value[index] == TwoPoint(sqrt, props[0].key, props[j].key, scale * scale))) &&
                (r.value[index] == s.value[index] ==> r == s)
    {
      var v := s.value;
      if v[index] > 0.0 && scale < Infinity {
        var props := Propagators(dimx, dimy, v, index);
        if props != [] {
          PropagatorsProperties(dimx, dimy, v, index);
          FirstIsMinimal(props);
          NeighboursInGrid(dimx, dimy, index);
          match Improvement(v[index], index, props)
          case Some(rhs) =>
            RequeueProperties(State(v[index := rhs], s.key, s.queue), index);
          case None =>
        }
      }
    }

    /** update() applied to the cells one after another. */
    function UpdateAll(s: State, cells: seq<nat>): (r: State)
      requires Sized(s) && forall i :: 0 <= i < |cells| ==> cells[i] < ncells
      ensures Sized(r)
      decreases |cells|
    {
      if cells == [] then s else UpdateAll(UpdateState(s, cells[0]), cells[1..])
    }

    /** propagate(): pop the cell with the least key and update its in-grid
        south, north, west and east neighbours; false when the queue is empty. */
    function PropagateState(s: State): (r: (bool, State))
      requires Consistent(s)
      ensures Sized(r.1)
    {
      if s.queue == [] then (false, s)
      else
        var (index, s0) := PopState(s);
        (true, UpdateAll(s0, Neighbours(dimx, dimy, index)))
    }

    /** Updating cells one after another keeps the state consistent and
        leaves every fixed cell as it was. */
    lemma {:induction false} UpdateAllKeeps(s: State, cells: seq<nat>)
      requires Consistent(s) && forall i :: 0 <= i < |cells| ==> cells[i] < ncells
      ensures Consistent(UpdateAll(s, cells))
      ensures forall c :: 0 <= c < ncells && s.value[c] <= 0.0 ==> UpdateAll(s, cells).value[c] == s.value[c]
      decreases |cells|
    {
      if cells != [] {
        UpdateFrame(s, cells[0]);
        UpdateAllKeeps(UpdateState(s, cells[0]), cells[1..]);
      }
    }

    /** Updating the cells of a + b is updating those of a, then those of b. */
    lemma {:induction false} UpdateAllAppend(s: State, a: seq<nat>, b: seq<nat>)
      requires Sized(s) && (forall i :: 0 <= i < |a| ==> a[i] < ncells) && (forall i :: 0 <= i < |b| ==> b[i] < ncells)
      ensures UpdateAll(s, a + b) == UpdateAll(UpdateAll(s, a), b)
      decreases |a|
    {
      if a != [] {
        assert (a + b)[1..] == a[1..] + b;
        UpdateAllAppend(UpdateState(s, a[0]), a[1..], b);
      } else {
        assert a + b == b;
      }
    }

    /** Every fixed cell of s has the same time in r. */
    ghost predicate KeepsFixed(s: State, r: State)
      requires Sized(s) && Sized(r)
    {
      forall c :: 0 <= c < ncells && s.value[c] <= 0.0 ==> r.value[c] == s.value[c]
    }

    /** propagate() returns false exactly when the queue was empty, keeps the
        state consistent and never changes a fixed cell. */
    lemma PropagateProperties(s: State)
      requires Consistent(s)
      ensures var r := PropagateState(s);
              Consistent(r.1) && (r.0 <==> s.queue != []) && KeepsFixed(s, r.1)
    {
      if s.queue != [] {
        PopProperties(s);
        var (index, s0) := PopState(s);
        UpdateAllKeeps(s0, Neighbours(dimx, dimy, index));
      }
    }

    /** compute(ceiling), with at most fuel propagation steps: propagate while
        the queue is non-empty and its top key does not exceed the ceiling.
        The result is consistent again and keeps every fixed cell. */
    function ComputeState(s: State, ceiling: real, fuel: nat): (r: State)
      requires Consistent(s)
      ensures Consistent(r) && KeepsFixed(s, r)
      decreases fuel
    {
      if s.queue == [] || s.queue[0].key > ceiling || fuel == 0 then s
      else
        PropagateProperties(s);
        var t := PropagateState(s).1;
        var r := ComputeState(t, ceiling, fuel - 1);
        assert KeepsFixed(s, r) by {
          forall c | 0 <= c < ncells && s.value[c] <= 0.0
            ensures r.value[c] == s.value[c]
          {
            assert t.value[c] == s.value[c];
          }
        }
        r
    }

    /** One round of compute(): a propagation step, then the rest of the fuel. */
    lemma ComputeStep(s: State, ceiling: real, fuel: nat)
      requires Consistent(s) && fuel > 0 && s.queue != [] && s.queue[0].key <= ceiling
      ensures Consistent(PropagateState(s).1)
      ensures ComputeState(s, ceiling, fuel) == ComputeState(PropagateState(s).1, ceiling, fuel - 1)
    {
      PropagateProperties(s);
    }

    /** setTime(): reject a negative time or a linear index outside the grid;
        otherwise fix the cell at the time and requeue it. */
    function SetTimeState(s: State, ix: nat, iy: nat, time: real): (r: (bool, State))
      requires Sized(s)
      ensures Sized(r.1)
    {
      if time < 0.0 then (false, s)
      else
        var cell := Index(dimx, ix, iy);
        if cell >= ncells then (false, s)
        else (true, RequeueState(State(s.value[cell := -time], s.key, s.queue), cell))
    }

    /** setTime() succeeds exactly for a non-negative time and an in-grid linear
        index, and then leaves the cell fixed at that time with exactly one
        queue entry keyed by it; otherwise nothing changes. */
    lemma SetTimeProperties(s: State, ix: nat, iy: nat, time: real)
      requires Consistent(s)
      ensures var (ok, r) := SetTimeState(s, ix, iy, time);
              var cell := Index(dimx, ix, iy);
              Consistent(r) &&
              (ok <==> time >= 0.0 && cell < ncells) &&
              (!ok ==> r == s) &&
              (ok ==> r.value == s.value[cell := -time] && r.value[cell] <= 0.0 && Abs(r.value[cell]) == time &&
                      Entry(time, cell) in r.queue &&
                      (forall e :: e in r.queue && e.cell == cell ==> e == Entry(time, cell)))
    {
      var cell := Index(dimx, ix, iy);
      if time >= 0.0 && cell < ncells {
        RequeueProperties(State(s.value[cell := -time], s.key, s.queue), cell);
      }
    }

    /** The search of computeGradient for a second downwind neighbour: the first
        entry of dwn[i..] on the other axis than the lowest one. */
    function SecondLowest(dwn: seq<Entry>, i: nat, alongY: bool, ix: nat): (r: Option<Entry>)
      requires dimx > 0 && i <= |dwn|
      decreases |dwn| - i
      ensures r.Some? ==> r.value in dwn[i..] && OtherAxis(alongY, ix, r.value)
      ensures r.Some? ==> exists j :: i <= j < |dwn| && dwn[j] == r.value &&
                            forall k :: i <= k < j ==> !OtherAxis(alongY, ix, dwn[k])
      ensures r.None? ==> forall j :: i <= j < |dwn| ==> !OtherAxis(alongY, ix, dwn[j])
    {
      if i == |dwn| then None
      else if OtherAxis(alongY, ix, dwn[i]) then Some(dwn[i])
      else SecondLowest(dwn, i + 1, alongY, ix)
    }

    /** The signed height difference towards a downwind neighbour: counted
        positive when the neighbour lies at the lower index. */
    function Slope(ixy: nat, e: Entry, height: real): real
    {
      if ixy < e.cell then e.key - height else height - e.key
    }

    /** The neighbours computeGradient() tests, in its order: south when
        iy > 0, north when the linear index lies below the top row, west when
        ix > 0, east when ix < dimx - 1. */
    function DownwindCells(ix: nat, iy: nat): (ns: seq<nat>)
      requires ncells == dimx * dimy && Index(dimx, ix, iy) < ncells
      ensures forall i :: 0 <= i < |ns| ==> ns[i] < ncells
    {
      var ixy := Index(dimx, ix, iy);
      CoordinatesInGrid(dimx, dimy, ix, iy);
      (if iy > 0 then [ixy - dimx] else []) +
      ((if ixy < ncells - dimx then [ixy + dimx] else []) +
       ((if ix > 0 then [ixy - 1] else []) +
        (if ix < dimx - 1 then [ixy + 1] else [])))
    }

    /** The examined cells, spelled out. */
    lemma DownwindCellsMembers(ix: nat, iy: nat)
      requires ncells == dimx * dimy && Index(dimx, ix, iy) < ncells
      ensures var ixy := Index(dimx, ix, iy);
              forall n :: n in DownwindCells(ix, iy) <==>
                (iy > 0 && n + dimx == ixy) || (ixy < ncells - dimx && n == ixy + dimx) ||
                (ix > 0 && n + 1 == ixy) || (ix < dimx - 1 && n == ixy + 1)
    {
      CoordinatesInGrid(dimx, dimy, ix, iy);
    }

    /** The downwind neighbours of cell (ix, iy): the examined cells whose time
        magnitude lies below that of the cell. */
    function Downwind(vals: seq<real>, ix: nat, iy: nat): seq<Entry>
      requires ncells == dimx * dimy && |vals| == ncells && Index(dimx, ix, iy) < ncells
    {
      Candidates(vals, DownwindCells(ix, iy), Abs(vals[Index(dimx, ix, iy)]))
    }

    /** The gradient from the downwind neighbours dwn of cell ixy (column ix,
        time magnitude height): none without a neighbour; from the lowest one
        along its axis and, when there is one on the other axis, from the
        first such as well. */
    function GradientFrom(dwn: seq<Entry>, ixy: nat, ix: nat, height: real): Gradient
      requires dimx > 0
    {
      if dwn == [] then Gradient(0, 0.0, 0.0)
      else
        var alongY := ix == dwn[0].cell % dimx;
        var d0 := Slope(ixy, dwn[0], height);
        match SecondLowest(dwn, 1, alongY, ix)
        case Some(e) =>
          var d1 := Slope(ixy, e, height);
          if alongY then Gradient(2, d1, d0) else Gradient(2, d0, d1)
        case None =>
          if alongY then Gradient(1, 0.0, d0) else Gradient(1, d0, 0.0)
    }

    /** computeGradient() without the cache. */
    function GradientAt(vals: seq<real>, ix: nat, iy: nat): Gradient
      requires ncells == dimx * dimy && |vals| == ncells && Index(dimx, ix, iy) < ncells
    {
      CoordinatesInGrid(dimx, dimy, ix, iy);
      GradientFrom(Downwind(vals, ix, iy), Index(dimx, ix, iy), ix, Abs(vals[Index(dimx, ix, iy)]))
    }

    /** What computeGradient() promises about the gradient g of a cell ixy
        (column ix, time magnitude height) with downwind neighbours dwn, lowest
        first: no neighbour gives the zero gradient; otherwise the component
        along the lowest neighbour's axis is the height difference towards it,
        and the other component is the height difference towards the first
        later neighbour on the other axis (n == 2) or zero when there is none
        (n == 1). */
    ghost predicate GradientShape(g: Gradient, dwn: seq<Entry>, ixy: nat, ix: nat, height: real)
      requires dimx > 0
    {
      if dwn == [] then g == Gradient(0, 0.0, 0.0)
      else
        var alongY := ix == dwn[0].cell % dimx;
        var lowest := if alongY then g.gy else g.gx;
        var other := if alongY then g.gx else g.gy;
        lowest == Slope(ixy, dwn[0], height) &&
        (g.n == 1 || g.n == 2) &&
        (g.n == 2 <==> exists j :: 1 <= j < |dwn| && OtherAxis(alongY, ix, dwn[j])) &&
        (g.n == 1 ==> other == 0.0) &&
        (g.n == 2 ==> exists j :: 1 <= j < |dwn| && OtherAxis(alongY, ix, dwn[j]) &&
                        (forall k :: 1 <= k < j ==> !OtherAxis(alongY, ix, dwn[k])) &&
                        other == Slope(ixy, dwn[j], height))
    }

    /** The gradient of computeGradient() from its downwind neighbours has the
        shape above.  When every downwind key lies below the height, the
        component along the lowest neighbour is negative exactly when that
        neighbour has the higher index (north or east), and no component
        taken from a neighbour is zero. */
    lemma GradientFromCases(dwn: seq<Entry>, ixy: nat, ix: nat, height: real)
      requires dimx > 0 && forall e :: e in dwn ==> e.key < height
      ensures var g := GradientFrom(dwn, ixy, ix, height);
              GradientShape(g, dwn, ixy, ix, height) &&
              (g.n == 0 <==> dwn == []) &&
              (g.n == 1 ==> (g.gx == 0.0) != (g.gy == 0.0)) &&
              (g.n == 2 ==> g.gx != 0.0 && g.gy != 0.0)
      ensures dwn != [] ==>
              var g := GradientFrom(dwn, ixy, ix, height);
              var lowest := if ix == dwn[0].cell % dimx then g.gy else g.gx;
              lowest < 0.0 <==> ixy < dwn[0].cell
    {
      if dwn != [] {
        assert dwn[0] in dwn;
        var alongY := ix == dwn[0].cell % dimx;
        match SecondLowest(dwn, 1, alongY, ix)
        case Some(e) =>
          assert e in dwn;
          var j :| 1 <= j < |dwn| && dwn[j] == e && forall k :: 1 <= k < j ==> !OtherAxis(alongY, ix, dwn[k]);
        case None =>
      }
    }

    /** computeGradient() without the cache: its downwind neighbours are the
        examined cells whose time magnitude lies below the cell's, lowest
        first, and the gradient has the shape above; it uses no neighbour
        exactly when none of the examined neighbours lies below the cell. */
    lemma GradientCases(vals: seq<real>, ix: nat, iy: nat)
      requires ncells == dimx * dimy && |vals| == ncells && Index(dimx, ix, iy) < ncells
      ensures dimx > 0
      ensures var g := GradientAt(vals, ix, iy);
              var cells := DownwindCells(ix, iy);
              var dwn := Downwind(vals, ix, iy);
              var height := Abs(vals[Index(dimx, ix, iy)]);
              Sorted(dwn) &&
              (forall e :: e in dwn <==> e.cell in cells && e.key == Abs(vals[e.cell]) && e.key < height) &&
              GradientShape(g, dwn, Index(dimx, ix, iy), ix, height) &&
              (g.n == 0 <==> forall i :: 0 <= i < |cells| ==> Abs(vals[cells[i]]) >= height) &&
              (g.n == 1 ==> (g.gx == 0.0) != (g.gy == 0.0)) &&
              (g.n == 2 ==> g.gx != 0.0 && g.gy != 0.0)
    {
      CoordinatesInGrid(dimx, dimy, ix, iy);
      var height := Abs(vals[Index(dimx, ix, iy)]);
      CandidatesProperties(vals, DownwindCells(ix, iy), height);
      GradientFromCases(Downwind(vals, ix, iy), Index(dimx, ix, iy), ix, height);
    }

    // ---------------------------------------------------------------------
    // The member functions, proved against the operations above.

    /** getTime(): the magnitude of the cell's time, infinity outside the grid
        (only the linear index is checked). */
    function GetTime(ix: nat, iy: nat): (t: real)
      reads this, value, key, gx, gy, gn
      requires Valid()
      ensures Index(dimx, ix, iy) >= ncells ==> t == Infinity
      ensures Index(dimx, ix, iy) < ncells ==> t == Abs(value[Index(dimx, ix, iy)]) && t >= 0.0
    {
      var cell := Index(dimx, ix, iy);
      if cell >= ncells then Infinity else Abs(value[cell])
    }

    /** unqueue(): the erase loop from lower_bound(key[index]); it finds the
        entry exactly when the cell is on the queue. */
    method Unqueue(index: nat) returns (found: bool)
      requires Valid() && index < ncells
      modifies this
      ensures found == (old(key[index]) >= 0.0)
      ensures queue == RemoveCell(old(queue), index)
    {
      TrackedOnQueue(queue, key[..], index);
      if key[index] >= 0.0 {
        UnqueueFindsEntry(queue, key[index], index);
      } else {
        RemoveCellCount(queue, index);
      }
      var r;
      r, found := CellQueue.Unqueue(queue, key[index], index);
      queue := r;
    }

    method Requeue(index: nat)
      requires Valid() && index < ncells
      modifies this, key
      ensures Valid() && Current() == RequeueState(old(Current()), index)
    {
      ghost var s := Current();
      RequeueProperties(s, index);
      if key[index] >= 0.0 {
        var _ := Unqueue(index);
      }
      key[index] := Abs(value[index]);
      queue := Insert(queue, Entry(key[index], index));
      assert key[..] == s.key[index := Abs(s.value[index])];
    }

    /** setTime() */
    method SetTime(ix: nat, iy: nat, time: real) returns (ok: bool)
      requires Valid()
      modifies this, value, key
      ensures Valid() && (ok, Current()) == SetTimeState(old(Current()), ix, iy, time)
      ensures ok ==> GetTime(ix, iy) == time
    {
      ghost var s := Current();
      SetTimeProperties(s, ix, iy, time);
      if time < 0.0 {
        return false;
      }
      var cell := Index(dimx, ix, iy);
      if cell >= ncells {
        return false;
      }
      value[cell] := -time;
      Requeue(cell);
      ok := true;
    }

    /** The interpolation loop of update(): walk the propagators after the
        primary and stop at the first secondary that yields a lower time. */
    method Interpolate(props: seq<Entry>, primary: real, northsouth: bool, ix: nat, current: real)
      returns (r: Option<real>)
      requires dimx > 0 && props != []
      ensures r == Interpolation(props, 1, primary, northsouth, ix, current)
    {
      var r2 := scale * scale;
      var i := 1;
      while i < |props|
        invariant 1 <= i <= |props|
        invariant Interpolation(props, 1, primary, northsouth, ix, current) ==
                  Interpolation(props, i, primary, northsouth, ix, current)
      {
        if northsouth != (ix == props[i].cell % dimx) {
          var secondary := props[i].key;
          if scale > secondary - primary {
            var rhs := TwoPoint(sqrt, primary, secondary, r2);
            if rhs < current {
              return Some(rhs);
            }
          }
        }
        i := i + 1;
      }
      r := None;
    }

    /** update() */
    method Update(index: nat)
      requires Valid() && index < ncells
      modifies this, value, key
      ensures Valid() && Current() == UpdateState(old(Current()), index)
    {
      ghost var s := Current();
      if value[index] <= 0.0 {
        return;
      }
      var radius := scale;
      if radius >= Infinity {
        value[index] := Infinity;
        return;
      }
      var props := Propagators(dimx, dimy, value[..], index);
      if props == [] {
        value[index] := Infinity;
        assert Current() == State(s.value[index := Infinity], s.key, s.queue);
        Requeue(index);
        return;
      }
      Lower(index, props);
    }

    /** The interpolating half of update(): the cell has a positive time, a
        reachable radius and at least one propagator. */
    method Lower(index: nat, props: seq<Entry>)
      requires Valid() && index < ncells && dimx > 0 && props != []
      modifies this, value, key
      ensures Valid() && Current() == Lowered(old(Current()), index, props)
    {
      ghost var s := Current();
      var primary := props[0].key;
      var ix := index % dimx;
      var northsouth := ix == props[0].cell % dimx;
      var found := Interpolate(props, primary, northsouth, ix, value[index]);
      var rhs := if found.Some? then found.value else primary + scale;
      assert Improvement(s.value[index], index, props) ==
             if found.Some? || rhs < s.value[index] then Some(rhs) else None;
      if found.Some? || rhs < value[index] {
        value[index] := rhs;
        assert Current() == State(s.value[index := rhs], s.key, s.queue);
        Requeue(index);
      }
    }

    /** pop(): the queue is non-empty at every call. */
    method Pop() returns (index: nat)
      requires Valid() && queue != []
      modifies this, key
      ensures Valid() && (index, Current()) == PopState(old(Current()))
    {
      ghost var s := Current();
      PopProperties(s);
      index := queue[0].cell;
      queue := queue[1..];
      key[index] := -1.0;
      assert key[..] == s.key[index := -1.0];
    }

    /** One neighbour visit of propagate(): when the cells still to update
        start with cell, updating it leaves the rest to do. */
    method UpdateFirst(ghost cells: seq<nat>, cell: nat) returns (ghost rest: seq<nat>)
      requires Valid() && forall i :: 0 <= i < |cells| ==> cells[i] < ncells
      requires cells != [] && cells[0] == cell
      modifies this, value, key
      ensures Valid() && rest == cells[1..]
      ensures UpdateAll(Current(), rest) == UpdateAll(old(Current()), cells)
    {
      Update(cell);
      rest := cells[1..];
    }

    /** The south and north visits of propagate(). */
    method UpdateVertical(index: nat)
      requires Valid() && index < ncells
      modifies this, value, key
      ensures Valid() && Current() == UpdateAll(old(Current()), VerticalNeighbours(dimx, dimy, index))
    {
      NeighboursInGrid(dimx, dimy, index);
      ghost var t := if HasNorth(ncells, dimx, index) then [index + dimx] else [];
      ghost var cells := VerticalNeighbours(dimx, dimy, index);
      if index >= dimx {
        cells := UpdateFirst(cells, index - dimx);
      }
      assert cells == t;
      if index < ncells - dimx {
        cells := UpdateFirst(cells, index + dimx);
      }
      assert cells == [];
    }

    /** The west and east visits of propagate(). */
    method UpdateHorizontal(index: nat)
      requires Valid() && index < ncells
      modifies this, value, key
      ensures Valid() && Current() == UpdateAll(old(Current()), HorizontalNeighbours(dimx, dimy, index))
    {
      NeighboursInGrid(dimx, dimy, index);
      ghost var t := if HasEast(dimx, index) then [index + 1] else [];
      ghost var cells := HorizontalNeighbours(dimx, dimy, index);
      var ix := index % dimx;
      if ix > 0 {
        cells := UpdateFirst(cells, index - 1);
      }
      assert cells == t;
      if ix < dimx - 1 {
        cells := UpdateFirst(cells, index + 1);
      }
      assert cells == [];
    }

    /** The four neighbour visits of propagate(), in its order. */
    method UpdateNeighbours(index: nat)
      requires Valid() && index < ncells
      modifies this, value, key
      ensures Valid() && Current() == UpdateAll(old(Current()), Neighbours(dimx, dimy, index))
    {
      ghost var s := Current();
      UpdateVertical(index);
      UpdateHorizontal(index);
      UpdateAllAppend(s, VerticalNeighbours(dimx, dimy, index), HorizontalNeighbours(dimx, dimy, index));
    }

    /** propagate() */
    method Propagate() returns (r: bool)
      requires Valid()
      modifies this, value, key
      ensures Valid() && (r, Current()) == PropagateState(old(Current()))
    {
      if queue == [] {
        return false;
      }
      var index := Pop();
      UpdateNeighbours(index);
      r := true;
    }

    /** One round of the loop of compute(). */
    method Round(ghost ceiling: real, fuel: nat) returns (rest: nat)
      requires Valid() && fuel > 0 && queue != [] && queue[0].key <= ceiling
      modifies this, value, key
      ensures Valid() && rest == fuel - 1
      ensures ComputeState(Current(), ceiling, rest) == ComputeState(old(Current()), ceiling, fuel)
    {
      ComputeStep(Current(), ceiling, fuel);
      var _ := Propagate();
      rest := fuel - 1;
    }

    /** compute(ceiling), bounded by fuel propagation steps; finished tells
        whether it stopped on its own exit condition. */
    method Compute(ceiling: real, fuel: nat) returns (finished: bool)
      requires Valid()
      modifies this, value, key
      ensures Valid() && Current() == ComputeState(old(Current()), ceiling, fuel)
      ensures finished <==> queue == [] || queue[0].key > ceiling
    {
      ghost var target := ComputeState(Current(), ceiling, fuel);
      var f := fuel;
      while f > 0 && queue != [] && queue[0].key <= ceiling
        invariant Valid() && ComputeState(Current(), ceiling, f) == target
        decreases f
      {
        f := Round(ceiling, f);
      }
      finished := queue == [] || queue[0].key > ceiling;
    }

    /** stat(): the least and greatest finite time magnitudes (infinity and
        -infinity when there is none) and the first and last queue keys
        (infinity and -infinity for an empty queue). */
    method Stat() returns (minval: real, maxval: real, minkey: real, maxkey: real)
      requires Valid()
      ensures forall c :: 0 <= c < ncells && Abs(value[c]) < Infinity ==> minval <= Abs(value[c]) <= maxval
      ensures (forall c :: 0 <= c < ncells ==> Abs(value[c]) >= Infinity) ==> minval == Infinity && maxval == -Infinity
      ensures minval < Infinity ==> exists c :: 0 <= c < ncells && Abs(value[c]) == minval
      ensures maxval > -Infinity ==> exists c :: 0 <= c < ncells && Abs(value[c]) == maxval
      ensures queue == [] ==> minkey == Infinity && maxkey == -Infinity
      ensures queue != [] ==> minkey == queue[0].key && maxkey == queue[|queue| - 1].key &&
                              forall e :: e in queue ==> minkey <= e.key <= maxkey
    {
      minval := Infinity;
      maxval := -Infinity;
      var ii := 0;
      while ii < ncells
        invariant ii <= ncells
        invariant forall c :: 0 <= c < ii && Abs(value[c]) < Infinity ==> minval <= Abs(value[c]) <= maxval
        invariant (forall c :: 0 <= c < ii ==> Abs(value[c]) >= Infinity) ==> minval == Infinity && maxval == -Infinity
        invariant minval < Infinity ==> exists c :: 0 <= c < ii && Abs(value[c]) == minval
        invariant maxval > -Infinity ==> exists c :: 0 <= c < ii && Abs(value[c]) == maxval
        invariant minval <= Infinity && maxval >= -Infinity
      {
        var v := Abs(value[ii]);
        if v < Infinity {
          if v > maxval {
            maxval := v;
          }
          if v < minval {
            minval := v;
          }
        }
        ii := ii + 1;
      }
      if queue == [] {
        minkey, maxkey := Infinity, -Infinity;
      } else {
        minkey, maxkey := queue[0].key, queue[|queue| - 1].key;
      }
    }

    /** getTopKey(): the least key on the queue, or infinity when it is empty. */
    function GetTopKey(): (k: real)
      reads this, value, key, gx, gy, gn
      requires Valid()
      ensures queue == [] ==> k == Infinity
      ensures queue != [] ==> Entry(k, queue[0].cell) in queue && forall e :: e in queue ==> k <= e.key
    {
      if queue == [] then Infinity else queue[0].key
    }

    /** The search loop of computeGradient(): the lowest downwind neighbour
        gives the component along its axis, the first one on the other axis
        (if any) the other component. */
    method DownwindGradient(dwn: seq<Entry>, ixy: nat, ix: nat, height: real) returns (g: Gradient)
      requires dimx > 0
      ensures g == GradientFrom(dwn, ixy, ix, height)
    {
      if dwn == [] {
        return Gradient(0, 0.0, 0.0);
      }
      var nval0 := dwn[0].key;
      var nidx0 := dwn[0].cell;
      var alongY := ix == nidx0 % dimx;
      var gxv, gyv := 0.0, 0.0;
      if alongY {
        gyv := if ixy < nidx0 then nval0 - height else height - nval0;
      } else {
        gxv := if ixy < nidx0 then nval0 - height else height - nval0;
      }
      var i := 1;
      while i < |dwn|
        invariant 1 <= i <= |dwn|
        invariant SecondLowest(dwn, 1, alongY, ix) == SecondLowest(dwn, i, alongY, ix)
        invariant alongY ==> gxv == 0.0 && gyv == Slope(ixy, dwn[0], height)
        invariant !alongY ==> gyv == 0.0 && gxv == Slope(ixy, dwn[0], height)
      {
        var nidx1 := dwn[i].cell;
        if alongY != (ix == nidx1 % dimx) {
          var nval1 := dwn[i].key;
          if alongY {
            gxv := if ixy < nidx1 then nval1 - height else height - nval1;
          } else {
            gyv := if ixy < nidx1 then nval1 - height else height - nval1;
          }
          return Gradient(2, gxv, gyv);
        }
        i := i + 1;
      }
      g := Gradient(1, gxv, gyv);
    }

    /** computeGradient(): a cached gradient (gn >= 0) is returned as stored
        when the cache is used; otherwise the gradient of the cell, stored in
        the cache when it is used. */
    method ComputeGradient(ix: nat, iy: nat, useCache: bool) returns (n: nat, gxv: real, gyv: real)
      requires Valid() && Index(dimx, ix, iy) < ncells
      modifies gx, gy, gn
      ensures Valid()
      ensures var ixy := Index(dimx, ix, iy);
              useCache && old(gn[ixy]) >= 0 ==>
                n == old(gn[ixy]) && gxv == old(gx[ixy]) && gyv == old(gy[ixy]) &&
                gx[..] == old(gx[..]) && gy[..] == old(gy[..]) && gn[..] == old(gn[..])
      ensures var ixy := Index(dimx, ix, iy);
              !(useCache && old(gn[ixy]) >= 0) ==> Gradient(n, gxv, gyv) == GradientAt(value[..], ix, iy)
      ensures var ixy := Index(dimx, ix, iy);
              useCache && old(gn[ixy]) < 0 ==>
                gx[..] == old(gx[..])[ixy := gxv] && gy[..] == old(gy[..])[ixy := gyv] && gn[..] == old(gn[..])[ixy := n]
      ensures !useCache ==> gx[..] == old(gx[..]) && gy[..] == old(gy[..]) && gn[..] == old(gn[..])
    {
      var ixy := Index(dimx, ix, iy);
      if useCache && gn[ixy] >= 0 {
        return gn[ixy] as nat, gx[ixy], gy[ixy];
      }
      CoordinatesInGrid(dimx, dimy, ix, iy);
      var g := DownwindGradient(Downwind(value[..], ix, iy), ixy, ix, Abs(value[ixy]));
      n, gxv, gyv := g.n, g.gx, g.gy;
      if useCache {
        gx[ixy], gy[ixy], gn[ixy] := gxv, gyv, n;
      }
    }

    /** resetTime(): every array back to its constructor contents and an empty queue. */
    method ResetTime()
      requires Valid()
      modifies this, value, key, gx, gy, gn
      ensures Valid() && queue == []
      ensures forall c :: 0 <= c < ncells ==> value[c] == Infinity && key[c] == -1.0
      ensures forall c :: 0 <= c < ncells ==> gx[c] == 0.0 && gy[c] == 0.0 && gn[c] == -1
    {
      forall c | 0 <= c < ncells {
        value[c] := Infinity;
      }
      forall c | 0 <= c < ncells {
        key[c] := -1.0;
      }
      queue := [];
      forall c | 0 <= c < ncells {
        gx[c] := 0.0;
      }
      forall c | 0 <= c < ncells {
        gy[c] := 0.0;
      }
      forall c | 0 <= c < ncells {
        gn[c] := -1;
      }
    }
  }
}
