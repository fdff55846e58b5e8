/**
  The unsigned/signed distance experiment of usd/usdtrans.c: per cell a
  distance and a word of flags, a max heap of cells to propagate outwards
  (positive distances), a min heap of cells to propagate inwards (negative
  distances), and a small min heap that update_positive/update_negative use
  to order the propagators of one cell.

  Cells are stored in the heaps as their index (the `void *` values of
  heap.c).  The distances and flags form an abstract State together with the
  multisets of (key, cell) pairs of the two queues; requeue, seed and
  partition are functions on that state.  update_* and propagate_* are
  specified by the relations they establish: which of several equally keyed
  entries a heap pops first depends on its array layout, and so does the
  primary propagator of an update.
 */
module Usd {
  import opened Wrappers
  import opened Grid
  import opened BinaryHeap

  /** USDTRANS_INFINITY */
  const UsdInfinity: real := 1000000000.0

  /** The flag word of a cell.  Only USDTRANS_FLAG_FIXED (bit 0), _UNKNOWN
      (bit 1), _QUEUE_POSITIVE (bit 2) and _QUEUE_NEGATIVE (bit 3) are ever
      written, so the word is modelled as those four bits. */
  datatype Flags = Flags(fixed: bool, unknown: bool, queuePositive: bool, queueNegative: bool)

  /** USDTRANS_FLAG_UNKNOWN alone: the initial and the partitioned flags. */
  const Unknown := Flags(false, true, false, false)

  function Bit(b: bool, weight: nat): nat
  {
    if b then weight else 0
  }

  /** The integer usdtrans_fget returns for a flag word. */
  function Word(f: Flags): (r: nat)
    ensures r < 16
    ensures r % 2 == 1 <==> f.fixed
  {
    Bit(f.fixed, 0x01) + Bit(f.unknown, 0x02) + Bit(f.queuePositive, 0x04) + Bit(f.queueNegative, 0x08)
  }

  /** Reading the four bits back from the word. */
  function Decode(w: nat): (f: Flags)
  {
    Flags(w % 2 == 1, (w / 2) % 2 == 1, (w / 4) % 2 == 1, (w / 8) % 2 == 1)
  }

  /** Distinct flag words have distinct integers. */
  lemma DecodeWord(f: Flags)
    ensures Decode(Word(f)) == f
  {
    var w := Word(f);
    var low := Bit(f.fixed, 1) + Bit(f.unknown, 2);
    assert w == low + 4 * (Bit(f.queuePositive, 1) + Bit(f.queueNegative, 2));
    assert w / 4 == Bit(f.queuePositive, 1) + Bit(f.queueNegative, 2);
    assert (w / 2) % 2 == Bit(f.unknown, 1);
    assert w / 8 == Bit(f.queueNegative, 1);
  }

  /** The queue_positive half of usdtrans_requeue on the flags: a cell not
      yet flagged for the queue gets the flag and loses UNKNOWN. */
  function RequeuedFlagPositive(f: Flags): Flags
  {
    if f.queuePositive then f else f.(unknown := false, queuePositive := true)
  }

  /** The queue_negative half. */
  function RequeuedFlagNegative(f: Flags): Flags
  {
    if f.queueNegative then f else f.(unknown := false, queueNegative := true)
  }

  /** The flag word usdtrans_requeue leaves: each queue flag that was not set
      is set, clearing UNKNOWN on the way. */
  function RequeuedFlags(f: Flags): (r: Flags)
    ensures r.queuePositive && r.queueNegative && r.fixed == f.fixed
    ensures r.unknown <==> f.unknown && f.queuePositive && f.queueNegative
  {
    RequeuedFlagNegative(RequeuedFlagPositive(f))
  }

  /** A queue entry: the key and the cell. */
  type Pair = (real, nat)

  /** One heap's half of usdtrans_requeue: change the key of the entry
      (oldKey, c) when the cell is flagged as queued (heap_change_key, which
      does nothing when that entry is absent), otherwise insert (newKey, c).
      A change of key takes one copy of the old pair out and puts one copy of
      the new pair in. */
  function Requeued(m: multiset<Pair>, queued: bool, oldKey: real, newKey: real, c: nat): (r: multiset<Pair>)
    ensures !queued || (oldKey, c) in m ==> (newKey, c) in r
    ensures queued && (oldKey, c) !in m ==> r == m
    ensures queued && (oldKey, c) in m && oldKey != newKey ==>
              r[(oldKey, c)] == m[(oldKey, c)] - 1 && r[(newKey, c)] == m[(newKey, c)] + 1
    ensures !queued ==> r[(newKey, c)] == m[(newKey, c)] + 1
    ensures forall e: Pair :: e.1 != c ==> r[e] == m[e]
    ensures |r| == if queued then |m| else |m| + 1
  {
    if !queued then m + multiset{(newKey, c)}
    else if (oldKey, c) in m then m - multiset{(oldKey, c)} + multiset{(newKey, c)}
    else m
  }

  /** The transform's distances and flags and the entries of its two queues. */
  datatype State = State(dist: seq<real>, flags: seq<Flags>, positive: multiset<Pair>, negative: multiset<Pair>)

  ghost predicate Sized(s: State, ncells: nat)
  {
    |s.dist| == ncells && |s.flags| == ncells
  }

  /** Every queue entry names a cell of the grid. */
  ghost predicate InGrid(s: State)
  {
    (forall e {:trigger s.positive[e]} :: e in s.positive ==> e.1 < |s.dist|) &&
    (forall e {:trigger s.negative[e]} :: e in s.negative ==> e.1 < |s.dist|)
  }

  /** A cell flagged as queued is never UNKNOWN. */
  ghost predicate Coherent(s: State)
  {
    forall c :: 0 <= c < |s.flags| && (s.flags[c].queuePositive || s.flags[c].queueNegative) ==> !s.flags[c].unknown
  }

  /** Every cell with an entry on a queue carries that queue's flag. */
  ghost predicate Flagged(s: State)
  {
    (forall e {:trigger s.positive[e]} :: e in s.positive ==> e.1 < |s.flags| && s.flags[e.1].queuePositive) &&
    (forall e {:trigger s.negative[e]} :: e in s.negative ==> e.1 < |s.flags| && s.flags[e.1].queueNegative)
  }

  /** usdtrans_requeue(index, d).  The cell gets distance d and both queue
      flags, and it is no longer UNKNOWN once the flags were coherent; each
      queue gains (d, c) if the cell was not flagged for it, or has its entry
      re-keyed from the old distance if that entry was there.  Other cells
      keep their distance, flags and entries. */
  function RequeueState(s: State, c: nat, d: real): (r: State)
    requires c < |s.dist| && |s.flags| == |s.dist|
    ensures Sized(r, |s.dist|)
    ensures r.dist[c] == d && r.flags[c].queuePositive && r.flags[c].queueNegative
    ensures r.flags[c].fixed <==> s.flags[c].fixed
    ensures forall x :: 0 <= x < |s.dist| && x != c ==> r.dist[x] == s.dist[x] && r.flags[x] == s.flags[x]
    ensures forall e: Pair :: e.1 != c ==> r.positive[e] == s.positive[e] && r.negative[e] == s.negative[e]
    ensures !s.flags[c].queuePositive || (s.dist[c], c) in s.positive ==> (d, c) in r.positive
    ensures !s.flags[c].queueNegative || (s.dist[c], c) in s.negative ==> (d, c) in r.negative
    ensures Coherent(s) ==> !r.flags[c].unknown
  {
    var f := s.flags[c];
    State(s.dist[c := d], s.flags[c := RequeuedFlags(f)],
          Requeued(s.positive, f.queuePositive, s.dist[c], d, c),
          Requeued(s.negative, f.queueNegative, s.dist[c], d, c))
  }

  /** The queue_positive half of usdtrans_requeue on the state. */
  function RequeuePositiveState(s: State, c: nat, d: real): State
    requires c < |s.dist| && |s.flags| == |s.dist|
  {
    s.(flags := s.flags[c := RequeuedFlagPositive(s.flags[c])],
       positive := Requeued(s.positive, s.flags[c].queuePositive, s.dist[c], d, c))
  }

  /** The queue_negative half. */
  function RequeueNegativeState(s: State, c: nat, d: real): State
    requires c < |s.dist| && |s.flags| == |s.dist|
  {
    s.(flags := s.flags[c := RequeuedFlagNegative(s.flags[c])],
       negative := Requeued(s.negative, s.flags[c].queueNegative, s.dist[c], d, c))
  }

  /** The two halves and the final distance store make up usdtrans_requeue. */
  lemma RequeueHalves(s: State, c: nat, d: real)
    requires c < |s.dist| && |s.flags| == |s.dist|
    ensures var t := RequeueNegativeState(RequeuePositiveState(s, c, d), c, d);
            t.(dist := t.dist[c := d]) == RequeueState(s, c, d)
  {
  }

  /** usdtrans_requeue keeps all three invariants. */
  lemma RequeueKeeps(s: State, c: nat, d: real)
    requires c < |s.dist| && |s.flags| == |s.dist| && InGrid(s)
    ensures var r := RequeueState(s, c, d);
            InGrid(r) && (Coherent(s) ==> Coherent(r)) && (Flagged(s) ==> Flagged(r))
  {
    var r := RequeueState(s, c, d);
    forall e | e in r.positive
      ensures e.1 < |s.dist|
    {
      if e.1 != c {
        assert r.positive[e] == s.positive[e];
      }
    }
    forall e | e in r.negative
      ensures e.1 < |s.dist|
    {
      if e.1 != c {
        assert r.negative[e] == s.negative[e];
      }
    }
    if Flagged(s) {
      forall e | e in r.positive
        ensures r.flags[e.1].queuePositive
      {
        if e.1 != c {
          assert r.positive[e] == s.positive[e];
        }
      }
      forall e | e in r.negative
        ensures r.flags[e.1].queueNegative
      {
        if e.1 != c {
          assert r.negative[e] == s.negative[e];
        }
      }
    }
  }

  /** The cell marked FIXED, keeping its other flags. */
  function FixState(s: State, c: nat): State
    requires c < |s.flags|
  {
    s.(flags := s.flags[c := s.flags[c].(fixed := true)])
  }

  /** Marking a cell FIXED keeps all three invariants. */
  lemma FixKeeps(s: State, c: nat)
    requires c < |s.dist| && |s.flags| == |s.dist|
    ensures var r := FixState(s, c);
            Sized(r, |s.dist|) && (InGrid(s) ==> InGrid(r)) && (Coherent(s) ==> Coherent(r)) && (Flagged(s) ==> Flagged(r))
  {
  }

  /** usdtrans_seed(index, d): mark the cell FIXED, keeping its other flags,
      and requeue it.  A seeded cell is FIXED, has the seed distance and both
      queue flags; other cells are untouched. */
  function SeedState(s: State, c: nat, d: real): (r: State)
    requires c < |s.dist| && |s.flags| == |s.dist|
    ensures Sized(r, |s.dist|)
    ensures r.dist[c] == d && r.flags[c].fixed && r.flags[c].queuePositive && r.flags[c].queueNegative
    ensures forall x :: 0 <= x < |s.dist| && x != c ==> r.dist[x] == s.dist[x] && r.flags[x] == s.flags[x]
  {
    RequeueState(FixState(s, c), c, d)
  }

  /** usdtrans_seed keeps all three invariants. */
  lemma SeedKeeps(s: State, c: nat, d: real)
    requires c < |s.dist| && |s.flags| == |s.dist| && InGrid(s)
    ensures var r := SeedState(s, c, d);
            InGrid(r) && (Coherent(s) ==> Coherent(r)) && (Flagged(s) ==> Flagged(r))
  {
    FixKeeps(s, c);
    RequeueKeeps(FixState(s, c), c, d);
  }

  /** usdtrans_partition(index, d): overwrite the distance and make the cell
      exactly UNKNOWN; the queues are not touched. */
  function PartitionState(s: State, c: nat, d: real): (r: State)
    requires c < |s.dist| && |s.flags| == |s.dist|
  {
    State(s.dist[c := d], s.flags[c := Unknown], s.positive, s.negative)
  }

  /** Partitioning sets the distance and the flags to exactly UNKNOWN,
      leaves the queues alone and keeps the grid and flag invariants; entries
      on the queues stay flagged only if the cell had none. */
  lemma PartitionProperties(s: State, c: nat, d: real)
    requires c < |s.dist| && |s.flags| == |s.dist|
    ensures var r := PartitionState(s, c, d);
            Sized(r, |s.dist|) && r.dist[c] == d && r.flags[c] == Unknown &&
            r.positive == s.positive && r.negative == s.negative &&
            (InGrid(s) ==> InGrid(r)) && (Coherent(s) ==> Coherent(r)) &&
            (Flagged(s) && (forall e :: e in s.positive + s.negative ==> e.1 != c) ==> Flagged(r))
  {
    var r := PartitionState(s, c, d);
    if Flagged(s) && (forall e :: e in s.positive + s.negative ==> e.1 != c) {
      forall e | e in r.positive
        ensures e.1 != c
      {
        assert e in s.positive + s.negative;
      }
      forall e | e in r.negative
        ensures e.1 != c
      {
        assert e in s.positive + s.negative;
      }
    }
  }

  /** partition does not clear the entries a cell already has, so a seeded
      cell that is partitioned again sits on the queues without their flags. */
  lemma PartitionUnflags()
    ensures var s := RequeueState(State([UsdInfinity], [Unknown], multiset{}, multiset{}), 0, 0.0);
            Flagged(s) && !Flagged(PartitionState(s, 0, 1.0))
  {
    var s0 := State([UsdInfinity], [Unknown], multiset{}, multiset{});
    var s := RequeueState(s0, 0, 0.0);
    assert (0.0, 0) in s.positive;
  }

  /** The key update_positive gives a propagator: its distance;
      update_negative negates it, so that the propagators min heap yields the
      nearest neighbour first in both directions. */
  function KeyOf(positive: bool, d: real): real
  {
    if positive then d else -d
  }

  /** rhs < dist[index] in update_positive, rhs > dist[index] in update_negative. */
  predicate Improves(positive: bool, rhs: real, d: real)
  {
    if positive then rhs < d else rhs > d
  }

  /** The two-point value of update_*: (bb + sqrt(root)) / 2 on the keys
      with a cell size of 1, negated for update_negative. */
  function Interpolated(sqrt: real -> real, positive: bool, p: real, q: real): real
  {
    KeyOf(positive, TwoPoint(sqrt, p, q, 1.0))
  }

  /** The one-point value: primary_dist + 1.0, or - primary_dist - 1.0. */
  function Fallback(positive: bool, p: real): real
  {
    KeyOf(positive, p + 1.0)
  }

  /** The propagator cell n with distance d and flags f contributes: none
      if it is UNKNOWN. */
  function CellCandidate(d: real, f: Flags, n: nat, positive: bool): multiset<Pair>
  {
    if f.unknown then multiset{} else multiset{(KeyOf(positive, d), n)}
  }

  /** One try of update_*: the candidate of cell n when the neighbour exists
      (ok) and is in the grid, nothing otherwise. */
  function Try(s: State, ok: bool, n: int, positive: bool): (m: multiset<Pair>)
    ensures !ok ==> m == multiset{}
  {
    if ok && 0 <= n < |s.dist| && n < |s.flags| then CellCandidate(s.dist[n], s.flags[n], n, positive) else multiset{}
  }

  /** The propagators heap update_* builds for cell index: its south, north,
      west and east neighbours that are not UNKNOWN, in that order. */
  function Known(s: State, dimx: nat, index: nat, positive: bool): multiset<Pair>
    requires dimx > 0
  {
    Tries(s, HasSouth(dimx, index), South(dimx, index), HasNorth(|s.dist|, dimx, index), North(dimx, index),
          HasWest(dimx, index), West(index), HasEast(dimx, index), East(index), positive)
  }

  /** Four tries, one per neighbour: ok flags whether the neighbour exists,
      n is its index. */
  function Tries(s: State, a: bool, na: int, b: bool, nb: int, c: bool, nc: int, d: bool, nd: int, positive: bool): multiset<Pair>
  {
    Try(s, a, na, positive) + Try(s, b, nb, positive) + Try(s, c, nc, positive) + Try(s, d, nd, positive)
  }

  /** Propagator e is what its cell offers: the cell is not UNKNOWN and e's
      key is the cell's (possibly negated) distance. */
  ghost predicate Proposes(s: State, e: Pair, positive: bool)
  {
    e.1 < |s.dist| && e.1 < |s.flags| && !s.flags[e.1].unknown && e.0 == KeyOf(positive, s.dist[e.1])
  }

  /** What one try contributes. */
  lemma TryMembers(s: State, ok: bool, n: int, positive: bool, e: Pair)
    ensures e in Try(s, ok, n, positive) <==> ok && e.1 == n && Proposes(s, e, positive)
  {
    assert e == (e.0, e.1);
  }

  /** The propositional step of TriesMembers. */
  lemma AnyOfFour(k: bool, t1: bool, t2: bool, t3: bool, t4: bool, c1: bool, c2: bool, c3: bool, c4: bool, p: bool)
    requires k <==> t1 || t2 || t3 || t4
    requires (t1 <==> c1 && p) && (t2 <==> c2 && p) && (t3 <==> c3 && p) && (t4 <==> c4 && p)
    ensures k <==> (c1 || c2 || c3 || c4) && p
  {
  }

  /** A propagator is on the heap of four tries exactly when it belongs to a
      tried neighbour that exists and is not UNKNOWN, keyed by that
      neighbour's (possibly negated) distance; Known is this for the four
      grid neighbours. */
  lemma TriesMembers(s: State, a: bool, na: int, b: bool, nb: int, c: bool, nc: int, d: bool, nd: int, positive: bool, e: Pair)
    ensures e in Tries(s, a, na, b, nb, c, nc, d, nd, positive) <==>
              ((a && e.1 == na) || (b && e.1 == nb) || (c && e.1 == nc) || (d && e.1 == nd)) && Proposes(s, e, positive)
  {
    var ta, tb, tc, td := Try(s, a, na, positive), Try(s, b, nb, positive), Try(s, c, nc, positive), Try(s, d, nd, positive);
    TryMembers(s, a, na, positive, e);
    TryMembers(s, b, nb, positive, e);
    TryMembers(s, c, nc, positive, e);
    TryMembers(s, d, nd, positive, e);
    AnyOfFour(e in ta + tb + tc + td, e in ta, e in tb, e in tc, e in td,
              a && e.1 == na, b && e.1 == nb, c && e.1 == nc, d && e.1 == nd, Proposes(s, e, positive));
  }

  /** Whether propagator e may join the primary p in a two-point update of
      cell index: exactly one of them lies in the column of index, and
      1.0 > e's key - p's key. */
  predicate Partner(dimx: nat, index: nat, p: Pair, e: Pair)
    requires dimx > 0
  {
    ((index % dimx == p.1 % dimx) != (index % dimx == e.1 % dimx)) && 1.0 > e.0 - p.0
  }

  /** A partner whose two-point value improves the cell. */
  predicate Good(sqrt: real -> real, dimx: nat, s: State, index: nat, positive: bool, p: Pair, e: Pair)
    requires dimx > 0 && index < |s.dist|
  {
    Partner(dimx, index, p, e) && Improves(positive, Interpolated(sqrt, positive, p.0, e.0), s.dist[index])
  }

  /** q is a Good partner of p in rest and no Good partner has a smaller
      key: the first the loop of update_* meets. */
  ghost predicate LeastGood(sqrt: real -> real, dimx: nat, s: State, index: nat, positive: bool,
                            p: Pair, rest: multiset<Pair>, q: Pair)
    requires dimx > 0 && index < |s.dist|
  {
    q in rest && Good(sqrt, dimx, s, index, positive, p, q) &&
    forall e :: e in rest && Good(sqrt, dimx, s, index, positive, p, e) ==> q.0 <= e.0
  }

  /** What update_* leaves once p is the primary and rest the other
      propagators: the two-point value with the improving partner of least
      key (the first the loop meets), or else the one-point value if that
      improves, or else nothing. */
  ghost predicate FromPrimary(sqrt: real -> real, dimx: nat, s: State, index: nat, positive: bool,
                              p: Pair, rest: multiset<Pair>, r: State)
    requires dimx > 0 && index < |s.dist| && |s.flags| == |s.dist|
  {
    (exists q {:trigger LeastGood(sqrt, dimx, s, index, positive, p, rest, q)} ::
       LeastGood(sqrt, dimx, s, index, positive, p, rest, q) &&
       r == RequeueState(s, index, Interpolated(sqrt, positive, p.0, q.0))) ||
    ((forall e :: e in rest ==> !Good(sqrt, dimx, s, index, positive, p, e)) &&
       r == if Improves(positive, Fallback(positive, p.0), s.dist[index])
            then RequeueState(s, index, Fallback(positive, p.0)) else s)
  }

  /** The loop of update_* stops at the first Good partner: the top q of
      what is left, when nothing popped before it was Good. */
  lemma FirstGood(sqrt: real -> real, dimx: nat, s: State, index: nat, positive: bool, p: Pair,
                  rest: multiset<Pair>, done: multiset<Pair>, cur: seq<Pair>, r: State)
    requires dimx > 0 && index < |s.dist| && |s.flags| == |s.dist|
    requires |cur| > 0 && multiset(cur) + done == rest
    requires forall e :: e in cur ==> cur[0].0 <= e.0
    requires forall e :: e in done ==> !Good(sqrt, dimx, s, index, positive, p, e)
    requires Good(sqrt, dimx, s, index, positive, p, cur[0])
    requires r == RequeueState(s, index, Interpolated(sqrt, positive, p.0, cur[0].0))
    ensures FromPrimary(sqrt, dimx, s, index, positive, p, rest, r)
  {
    var q := cur[0];
    assert q in multiset(cur);
    forall e | e in rest && Good(sqrt, dimx, s, index, positive, p, e)
      ensures q.0 <= e.0
    {
      assert e in multiset(cur);
    }
    assert LeastGood(sqrt, dimx, s, index, positive, p, rest, q);
  }

  /** When no propagator is a Good partner, the one-point value decides. */
  lemma NoGood(sqrt: real -> real, dimx: nat, s: State, index: nat, positive: bool, p: Pair,
               rest: multiset<Pair>, r: State)
    requires dimx > 0 && index < |s.dist| && |s.flags| == |s.dist|
    requires forall e :: e in rest ==> !Good(sqrt, dimx, s, index, positive, p, e)
    requires r == if Improves(positive, Fallback(positive, p.0), s.dist[index])
                  then RequeueState(s, index, Fallback(positive, p.0)) else s
    ensures FromPrimary(sqrt, dimx, s, index, positive, p, rest, r)
  {
  }

  /** The effect of update_positive (positive) or update_negative on cell
      index: nothing for a FIXED cell or one without propagators; otherwise
      the primary is a propagator of least key and the rest is FromPrimary. */
  ghost predicate UpdateOutcome(sqrt: real -> real, dimx: nat, s: State, index: nat, positive: bool, r: State)
    requires dimx > 0 && index < |s.dist| && |s.flags| == |s.dist|
  {
    var k := Known(s, dimx, index, positive);
    if s.flags[index].fixed || k == multiset{} then r == s
    else FromLeast(sqrt, dimx, s, index, positive, k, r)
  }

  /** p is an entry of k and no entry of k has a smaller key: what the
      min heap propagators hands back first. */
  ghost predicate IsLeast(k: multiset<Pair>, p: Pair)
  {
    p in k && forall e :: e in k ==> p.0 <= e.0
  }

  /** r is what FromPrimary makes of some propagator of least key in k,
      with the others of k as partners. */
  ghost predicate FromLeast(sqrt: real -> real, dimx: nat, s: State, index: nat, positive: bool,
                            k: multiset<Pair>, r: State)
    requires dimx > 0 && index < |s.dist| && |s.flags| == |s.dist|
  {
    exists p {:trigger IsLeast(k, p)} ::
      IsLeast(k, p) && FromPrimary(sqrt, dimx, s, index, positive, p, k - multiset{p}, r)
  }

  /** A propagator of least key witnesses FromLeast. */
  lemma LeastWitness(sqrt: real -> real, dimx: nat, s: State, index: nat, positive: bool,
                     k: multiset<Pair>, p: Pair, r: State)
    requires dimx > 0 && index < |s.dist| && |s.flags| == |s.dist|
    requires p in k && forall e :: e in k ==> p.0 <= e.0
    requires FromPrimary(sqrt, dimx, s, index, positive, p, k - multiset{p}, r)
    ensures FromLeast(sqrt, dimx, s, index, positive, k, r)
  {
    assert IsLeast(k, p);
  }

  /** r has the cells of s, and every FIXED cell of s keeps its distance
      and its flags. */
  ghost predicate FixedKept(s: State, r: State)
  {
    |r.dist| == |s.dist| && |r.flags| == |s.flags| && |s.flags| == |s.dist| &&
    (forall x :: 0 <= x < |s.dist| && s.flags[x].fixed ==> r.dist[x] == s.dist[x] && r.flags[x] == s.flags[x])
  }

  /** FixedKept, and no distance moves away from the seeds: none rises in the
      positive pass and none falls in the negative one. */
  ghost predicate Lowered(s: State, r: State, positive: bool)
  {
    FixedKept(s, r) && (forall x :: 0 <= x < |s.dist| ==> !Improves(positive, s.dist[x], r.dist[x]))
  }

  /** Lowered, and r differs from s only at the given cells: their
      distances, their flags and their queue entries. */
  ghost predicate Tightened(s: State, r: State, cells: set<nat>, positive: bool)
  {
    Lowered(s, r, positive) &&
    (forall x :: 0 <= x < |s.dist| && x !in cells ==> r.dist[x] == s.dist[x] && r.flags[x] == s.flags[x]) &&
    (forall e: Pair {:trigger r.positive[e]} {:trigger s.positive[e]} {:trigger r.negative[e]} {:trigger s.negative[e]} ::
       e.1 !in cells ==> r.positive[e] == s.positive[e] && r.negative[e] == s.negative[e])
  }

  lemma FixedKeptTrans(s: State, m: State, r: State)
    requires FixedKept(s, m) && FixedKept(m, r)
    ensures FixedKept(s, r)
  {
  }

  lemma LoweredRefl(s: State, positive: bool)
    requires |s.flags| == |s.dist|
    ensures Lowered(s, s, positive)
  {
  }

  lemma LoweredTrans(s: State, m: State, r: State, positive: bool)
    requires Lowered(s, m, positive) && Lowered(m, r, positive)
    ensures Lowered(s, r, positive)
  {
  }

  lemma TightenedTrans(s: State, m: State, r: State, c1: set<nat>, c2: set<nat>, c: set<nat>, positive: bool)
    requires Tightened(s, m, c1, positive) && Tightened(m, r, c2, positive) && c1 <= c && c2 <= c
    ensures Tightened(s, r, c, positive)
  {
  }

  /** Four tightening steps at the same cells make one. */
  lemma TightenedChain(s: State, s1: State, s2: State, s3: State, r: State, c: set<nat>, positive: bool)
    requires Tightened(s, s1, c, positive) && Tightened(s1, s2, c, positive)
    requires Tightened(s2, s3, c, positive) && Tightened(s3, r, c, positive)
    ensures Tightened(s, r, c, positive)
  {
    TightenedTrans(s, s1, s2, c, c, c, positive);
    TightenedTrans(s, s2, s3, c, c, c, positive);
    TightenedTrans(s, s3, r, c, c, c, positive);
  }

  lemma TightenedRefl(s: State, cells: set<nat>, positive: bool)
    requires |s.flags| == |s.dist|
    ensures Tightened(s, s, cells, positive)
  {
  }

  /** Requeueing a cell that is not FIXED with a value that improves it
      tightens the state at that cell alone. */
  lemma RequeueTightens(s: State, c: nat, d: real, positive: bool)
    requires c < |s.dist| && |s.flags| == |s.dist| && !s.flags[c].fixed
    requires Improves(positive, d, s.dist[c])
    ensures Tightened(s, RequeueState(s, c, d), {c}, positive)
  {
    var r := RequeueState(s, c, d);
    forall x | 0 <= x < |s.dist|
      ensures !Improves(positive, s.dist[x], r.dist[x])
    {
      if x == c {
        assert r.dist[x] == d;
      }
    }
  }

  /** A primary either leaves the state alone or requeues the cell with a
      value that improves it. */
  lemma FromPrimaryValue(sqrt: real -> real, dimx: nat, s: State, index: nat, positive: bool,
                         p: Pair, rest: multiset<Pair>, r: State) returns (v: real)
    requires dimx > 0 && index < |s.dist| && |s.flags| == |s.dist|
    requires FromPrimary(sqrt, dimx, s, index, positive, p, rest, r) && r != s
    ensures Improves(positive, v, s.dist[index]) && r == RequeueState(s, index, v)
  {
    if exists q :: LeastGood(sqrt, dimx, s, index, positive, p, rest, q) &&
         r == RequeueState(s, index, Interpolated(sqrt, positive, p.0, q.0)) {
      var q :| LeastGood(sqrt, dimx, s, index, positive, p, rest, q) &&
         r == RequeueState(s, index, Interpolated(sqrt, positive, p.0, q.0));
      v := Interpolated(sqrt, positive, p.0, q.0);
    } else {
      v := Fallback(positive, p.0);
    }
  }

  /** update_* either leaves the state alone or requeues the updated cell,
      which is not FIXED, with a value that improves it. */
  lemma UpdateOutcomeValue(sqrt: real -> real, dimx: nat, s: State, index: nat, positive: bool, r: State)
      returns (v: real)
    requires dimx > 0 && index < |s.dist| && |s.flags| == |s.dist|
    requires UpdateOutcome(sqrt, dimx, s, index, positive, r) && r != s
    ensures !s.flags[index].fixed && Improves(positive, v, s.dist[index]) && r == RequeueState(s, index, v)
  {
    var k := Known(s, dimx, index, positive);
    var p :| IsLeast(k, p) && FromPrimary(sqrt, dimx, s, index, positive, p, k - multiset{p}, r);
    v := FromPrimaryValue(sqrt, dimx, s, index, positive, p, k - multiset{p}, r);
  }

  /** update_* changes at most the updated cell, never a FIXED one, and only
      towards the seeds. */
  lemma UpdateOutcomeTightens(sqrt: real -> real, dimx: nat, s: State, index: nat, positive: bool, r: State)
    requires dimx > 0 && index < |s.dist| && |s.flags| == |s.dist|
    requires UpdateOutcome(sqrt, dimx, s, index, positive, r)
    ensures Tightened(s, r, {index}, positive)
    ensures r == s || Improves(positive, r.dist[index], s.dist[index])
  {
    if r != s {
      var v := UpdateOutcomeValue(sqrt, dimx, s, index, positive, r);
      RequeueTightens(s, index, v, positive);
    }
  }

  /** update_* keeps the grid, flag and queue invariants. */
  lemma UpdateOutcomeKeeps(sqrt: real -> real, dimx: nat, s: State, index: nat, positive: bool, r: State)
    requires dimx > 0 && index < |s.dist| && |s.flags| == |s.dist| && InGrid(s)
    requires UpdateOutcome(sqrt, dimx, s, index, positive, r)
    ensures InGrid(r) && (Coherent(s) ==> Coherent(r)) && (Flagged(s) ==> Flagged(r))
  {
    if r != s {
      var v := UpdateOutcomeValue(sqrt, dimx, s, index, positive, r);
      RequeueKeeps(s, index, v);
    }
  }

  /** The entries of queue_positive or of queue_negative. */
  function QueueOf(s: State, positive: bool): multiset<Pair>
  {
    if positive then s.positive else s.negative
  }

  /** The key order of a queue: queue_positive is a max heap, queue_negative a
      min heap, so a popped key is at least (at most) every other. */
  predicate Ahead(positive: bool, a: real, b: real)
  {
    if positive then a >= b else a <= b
  }

  /** The state once heap_pop has removed the popped entry, if any. */
  function Dequeued(s: State, positive: bool, popped: Option<Pair>): (r: State)
    ensures r.dist == s.dist && r.flags == s.flags
    ensures QueueOf(r, !positive) == QueueOf(s, !positive)
    ensures popped.Some? ==> QueueOf(r, positive) == QueueOf(s, positive) - multiset{popped.value}
    ensures popped.None? ==> r == s
  {
    match popped
    case None => s
    case Some(e) =>
      if positive then s.(positive := s.positive - multiset{e}) else s.(negative := s.negative - multiset{e})
  }

  /** Removing a queue entry keeps the three invariants. */
  lemma DequeuedKeeps(s: State, positive: bool, popped: Option<Pair>)
    requires InGrid(s)
    ensures var r := Dequeued(s, positive, popped);
            InGrid(r) && (Coherent(s) ==> Coherent(r)) && (Flagged(s) ==> Flagged(r))
  {
    var r := Dequeued(s, positive, popped);
    assert r.positive <= s.positive && r.negative <= s.negative;
  }

  /** Removing one entry leaves the entries of every other cell alone. */
  lemma RemovedOnly(m: multiset<Pair>, e: Pair)
    ensures forall x: Pair :: x.1 != e.1 ==> (m - multiset{e})[x] == m[x]
  {
    forall x: Pair | x.1 != e.1
      ensures (m - multiset{e})[x] == m[x]
    {
      assert x != e;
    }
  }

  /** Removing a queue entry changes nothing but that entry. */
  lemma DequeuedTightens(s: State, positive: bool, popped: Option<Pair>)
    requires |s.flags| == |s.dist|
    ensures Tightened(s, Dequeued(s, positive, popped), if popped.Some? then {popped.value.1} else {}, positive)
  {
    if popped.Some? {
      RemovedOnly(QueueOf(s, positive), popped.value);
    }
  }

  /** The neighbours of a cell, as a set. */
  function NeighbourSet(dimx: nat, dimy: nat, index: nat): (c: set<nat>)
    requires index < dimx * dimy
    ensures forall n :: n in c <==> n in Neighbours(dimx, dimy, index)
  {
    set n | n in Neighbours(dimx, dimy, index)
  }

  /** Every neighbour propagate_* updates lies in the grid and in
      NeighbourSet. */
  lemma NeighbourSetCovers(dimx: nat, dimy: nat, ncells: nat, index: nat)
    requires index < ncells == dimx * dimy
    ensures dimx > 0
    ensures HasSouth(dimx, index) ==> South(dimx, index) < ncells && South(dimx, index) in NeighbourSet(dimx, dimy, index)
    ensures HasNorth(ncells, dimx, index) ==> North(dimx, index) < ncells && North(dimx, index) in NeighbourSet(dimx, dimy, index)
    ensures HasWest(dimx, index) ==> 0 < index && West(index) < ncells && West(index) in NeighbourSet(dimx, dimy, index)
    ensures HasEast(dimx, index) ==> East(index) < ncells && East(index) in NeighbourSet(dimx, dimy, index)
  {
    NeighboursInGrid(dimx, dimy, index);
    NeighboursCover(dimx, dimy, index);
  }

  /** One guarded update_* call of propagate_*: when ok (the neighbour n
      exists) r is update_*'s outcome on n, otherwise nothing changes. */
  ghost predicate UpdatedIf(sqrt: real -> real, dimx: nat, s: State, ok: bool, n: int, positive: bool, r: State)
    requires dimx > 0
  {
    if ok then 0 <= n < |s.dist| && |s.flags| == |s.dist| && UpdateOutcome(sqrt, dimx, s, n, positive, r)
    else r == s
  }

  /** The four guarded update_* calls of propagate_* on the neighbours of
      index, in the source's order south, north, west, east, passing through
      the states s1, s2 and s3. */
  ghost predicate NeighboursUpdated(sqrt: real -> real, dimx: nat, dimy: nat, s: State, index: nat, positive: bool,
                                    s1: State, s2: State, s3: State, r: State)
    requires dimx > 0
  {
    UpdatedIf(sqrt, dimx, s, HasSouth(dimx, index), South(dimx, index), positive, s1) &&
    UpdatedIf(sqrt, dimx, s1, HasNorth(dimx * dimy, dimx, index), North(dimx, index), positive, s2) &&
    UpdatedIf(sqrt, dimx, s2, HasWest(dimx, index), West(index), positive, s3) &&
    UpdatedIf(sqrt, dimx, s3, HasEast(dimx, index), East(index), positive, r)
  }

  /** A guarded update of a cell of c changes only cells of c, never a
      FIXED one, only towards the seeds. */
  lemma UpdatedIfTightens(sqrt: real -> real, dimx: nat, s: State, ok: bool, n: int, positive: bool, r: State,
                          c: set<nat>)
    requires dimx > 0 && |s.flags| == |s.dist| && (ok ==> 0 <= n < |s.dist| && n in c)
    requires if ok then UpdateOutcome(sqrt, dimx, s, n, positive, r) else r == s
    ensures Tightened(s, r, c, positive)
  {
    TightenedRefl(s, c, positive);
    if ok {
      UpdateOutcomeTightens(sqrt, dimx, s, n, positive, r);
      TightenedTrans(s, s, r, c, {n}, c, positive);
    }
  }

  /** The four neighbour updates of propagate_* change only the neighbours
      of index, never a FIXED cell, only towards the seeds. */
  lemma NeighboursUpdatedTightens(sqrt: real -> real, dimx: nat, dimy: nat, s: State, index: nat, positive: bool,
                                  s1: State, s2: State, s3: State, r: State)
    requires dimx > 0 && index < dimx * dimy && |s.flags| == |s.dist|
    requires NeighboursUpdated(sqrt, dimx, dimy, s, index, positive, s1, s2, s3, r)
    ensures Tightened(s, r, NeighbourSet(dimx, dimy, index), positive)
  {
    var c := NeighbourSet(dimx, dimy, index);
    NeighbourSetCovers(dimx, dimy, dimx * dimy, index);
    UpdatedIfTightens(sqrt, dimx, s, HasSouth(dimx, index), South(dimx, index), positive, s1, c);
    assert |s1.flags| == |s1.dist|;
    UpdatedIfTightens(sqrt, dimx, s1, HasNorth(dimx * dimy, dimx, index), North(dimx, index), positive, s2, c);
    assert |s2.flags| == |s2.dist|;
    UpdatedIfTightens(sqrt, dimx, s2, HasWest(dimx, index), West(index), positive, s3, c);
    assert |s3.flags| == |s3.dist|;
    UpdatedIfTightens(sqrt, dimx, s3, HasEast(dimx, index), East(index), positive, r, c);
    TightenedChain(s, s1, s2, s3, r, c, positive);
  }

  /** What heap_pop on a queue of s hands back: None exactly when the queue
      is empty, and then cell 0 (the NULL the C code casts to an index);
      otherwise one of the queue's entries that no other entry is ahead of,
      and its cell. */
  ghost predicate Popped(s: State, positive: bool, popped: Option<Pair>, index: nat)
  {
    (popped.None? <==> QueueOf(s, positive) == multiset{}) &&
    (popped.None? ==> index == 0) &&
    (popped.Some? ==> popped.value in QueueOf(s, positive) && index == popped.value.1 &&
                      forall e :: e in QueueOf(s, positive) ==> Ahead(positive, popped.value.0, e.0))
  }

  /** propagate_* leaves the popped cell's flags alone: the queue flag of a
      popped cell stays set while its entry has left the queue, so a set
      flag does not imply an entry. */
  lemma PoppedKeepsFlags(dimx: nat, dimy: nat, s: State, positive: bool, popped: Option<Pair>, index: nat, r: State)
    requires index < dimx * dimy == |s.dist| && |s.flags| == |s.dist|
    requires Popped(s, positive, popped, index) && popped.Some?
    requires Tightened(Dequeued(s, positive, popped), r, NeighbourSet(dimx, dimy, index), positive)
    ensures r.flags[index] == s.flags[index]
    ensures QueueOf(r, positive)[popped.value] + 1 == QueueOf(s, positive)[popped.value]
  {
    NeighboursMembers(dimx, dimy, index);
    assert index !in NeighbourSet(dimx, dimy, index);
    var d := Dequeued(s, positive, popped);
    assert QueueOf(r, positive)[popped.value] == QueueOf(d, positive)[popped.value];
  }

  /** Where compute_* stops: the queue is empty, or its top entry is beyond
      the bound, which for a max (min) heap means some entry is. */
  ghost predicate Halted(s: State, positive: bool, bound: real)
  {
    QueueOf(s, positive) == multiset{} || exists e :: e in QueueOf(s, positive) && Beyond(positive, e.0, bound)
  }

  /** The state usdtrans_create leaves: every cell at USDTRANS_INFINITY and
      exactly UNKNOWN, both queues empty. */
  function Initial(n: nat): (s: State)
    ensures Sized(s, n) && InGrid(s) && Coherent(s) && Flagged(s)
    ensures forall i :: 0 <= i < n ==> s.dist[i] == UsdInfinity && s.flags[i] == Unknown
  {
    State(seq(n, _ => UsdInfinity), seq(n, _ => Unknown), multiset{}, multiset{})
  }

  /** The cell loop of usdtrans_create: n distances of USDTRANS_INFINITY and
      n flag words of exactly UNKNOWN. */
  method NewCells(n: nat) returns (d: array<real>, f: array<Flags>)
    ensures fresh(d) && fresh(f) && d.Length == n && f.Length == n
    ensures d[..] == Initial(n).dist && f[..] == Initial(n).flags
  {
    d := new real[n];
    f := new Flags[n];
    for i := 0 to n
      invariant forall j :: 0 <= j < i ==> d[j] == UsdInfinity && f[j] == Unknown
    {
      d[i] := UsdInfinity;
      f[i] := Unknown;
    }
  }

  /** The three heaps of usdtrans_create, all empty: queue_positive (max)
      and queue_negative (min) sized cap, the propagators (min) sized 4. */
  method NewQueues(cap: nat) returns (hp: Heap<nat>, hn: Heap<nat>, hs: Heap<nat>)
    ensures fresh(hp) && fresh(hp.key) && fresh(hp.value)
    ensures fresh(hn) && fresh(hn.key) && fresh(hn.value)
    ensures fresh(hs) && fresh(hs.key) && fresh(hs.value)
    ensures hp != hn && hp != hs && hn != hs
    ensures hp.key != hn.key && hp.key != hs.key && hn.key != hs.key
    ensures hp.value != hn.value && hp.value != hs.value && hn.value != hs.value
    ensures hp.Valid() && hp.IsHeap() && hn.Valid() && hn.IsHeap() && hs.Valid() && hs.IsHeap()
    ensures hp.order == MaxHeap && hn.order == MinHeap && hs.order == MinHeap
    ensures hp.Contents() == [] && hn.Contents() == [] && hs.Contents() == []
    ensures hp.capacity == cap && hn.capacity == cap && hs.capacity == 4
  {
    hp := new Heap<nat>(MaxHeap, cap);
    hn := new Heap<nat>(MinHeap, cap);
    hs := new Heap<nat>(MinHeap, 4);
  }

  /** heap_pop on a queue holding cell indices: the popped entry, if any,
      is one of its entries and is Above every entry; the index is its
      cell, or 0 (the NULL of an empty heap). */
  method PopEntry(h: Heap<nat>) returns (index: nat, ghost popped: Option<Pair>)
    requires h.Valid() && h.IsHeap()
    modifies h, h.key, h.value
    ensures h.Valid() && h.IsHeap() && h.key == old(h.key) && h.value == old(h.value) && h.capacity == old(h.capacity)
    ensures popped.None? <==> old(multiset(h.Contents())) == multiset{}
    ensures popped.None? ==> index == 0 && multiset(h.Contents()) == old(multiset(h.Contents()))
    ensures popped.Some? ==> popped.value in old(multiset(h.Contents())) && index == popped.value.1 &&
                             multiset(h.Contents()) == old(multiset(h.Contents())) - multiset{popped.value} &&
                             forall e :: e in old(multiset(h.Contents())) ==> Above(h.order, popped.value.0, e.0)
  {
    popped := None;
    if h.length > 0 {
      h.TopIsExtreme();
      ghost var c := h.Contents();
      popped := Some((h.key[1], h.value[1]));
      assert c[0] == popped.value;
    }
    var r := h.Pop();
    index := if r.Some? then r.value else 0;
  }

  /** The exit test of compute_positive (positive, against maxdist) or of
      compute_negative (against mindist) on its queue h: h is empty, or its
      top key is beyond the bound. */
  ghost predicate AtBound(h: Heap<nat>, positive: bool, bound: real)
    reads h, h.key, h.value
    requires h.Valid()
  {
    h.length == 0 || Beyond(positive, h.key[1], bound)
  }

  /** A heap kept both its arrays or replaced both with fresh ones. */
  twostate predicate Moved(h: Heap<nat>)
    reads h
  {
    (h.key == old(h.key) && h.value == old(h.value)) || (fresh(h.key) && fresh(h.value))
  }

  /** compute_positive stops at a top key above maxdist, compute_negative at
      one below mindist. */
  predicate Beyond(positive: bool, top: real, bound: real)
  {
    if positive then top > bound else top < bound
  }

  /** The unsigned/signed transform: distances and flags per cell, the max
      heap queue_positive, the min heap queue_negative and the propagators
      min heap, all holding cell indices as values. */
  class UsdTransform {
    const dimx: nat
    const dimy: nat
    const ncells: nat
    /** sqrt, a parameter of the model. */
    const sqrt: real -> real
    const dist: array<real>
    const flags: array<Flags>
    const qp: Heap<nat>
    const qn: Heap<nat>
    const props: Heap<nat>

    /** One distance and one flag word per cell of a dimx by dimy grid. */
    predicate HasCells()
    {
      ncells == dimx * dimy && dist.Length == ncells && flags.Length == ncells
    }

    /** The two queues: valid heaps of their orders, apart from each other
        and from the cell arrays. */
    ghost predicate QueuesShaped()
      reads qp, qp.key, qp.value, qn, qn.key, qn.value
    {
      HasCells() &&
      qp != qn && qp.key != qn.key && qp.value != qn.value && dist != qp.key && dist != qn.key &&
      qp.Valid() && qp.IsHeap() && qn.Valid() && qn.IsHeap() &&
      qp.order == MaxHeap && qn.order == MinHeap
    }

    /** The propagators heap is apart from the queues and the distances. */
    ghost predicate Apart()
      reads qp, qn, props
    {
      props != qp && props != qn && props.key != qp.key && props.key != qn.key && props.key != dist &&
      props.value != qp.value && props.value != qn.value
    }

    /** The propagators heap: a valid min heap with room for all four
        neighbours. */
    ghost predicate PropsReady()
      reads props, props.key, props.value
    {
      props.Valid() && props.IsHeap() && props.order == MinHeap && props.capacity >= 4
    }

    /** The queues and the propagators heap, all apart. */
    ghost predicate Shaped()
      reads qp, qp.key, qp.value, qn, qn.key, qn.value, props, props.key, props.value
    {
      QueuesShaped() && Apart() && PropsReady()
    }

    /** The abstract state: distances, flags and both queues' entries. */
    ghost function Current(): (s: State)
      reads dist, flags, qp, qp.key, qp.value, qn, qn.key, qn.value
      requires QueuesShaped()
      ensures Sized(s, ncells)
    {
      State(dist[..], flags[..], multiset(qp.Contents()), multiset(qn.Contents()))
    }

    /** Every queued cell lies in the grid and no queued cell is UNKNOWN. */
    ghost predicate Valid()
      reads dist, flags, qp, qp.key, qp.value, qn, qn.key, qn.value, props, props.key, props.value
    {
      Shaped() && InGrid(Current()) && Coherent(Current())
    }

    /** usdtrans_create: every cell at USDTRANS_INFINITY and exactly
        UNKNOWN, both queues empty, the queues sized dimx + dimy and the
        propagators heap sized 4.  Allocation failure is not modelled. */
    constructor (dimx: nat, dimy: nat, sqrt: real -> real)
      ensures Valid() && Current() == Initial(dimx * dimy)
      ensures fresh(dist) && fresh(flags) && fresh(qp) && fresh(qn) && fresh(props)
      ensures this.dimx == dimx && this.dimy == dimy && ncells == dimx * dimy && this.sqrt == sqrt
      ensures qp.capacity == dimx + dimy && qn.capacity == dimx + dimy && props.capacity == 4
    {
      var d, f := NewCells(dimx * dimy);
      var hp, hn, hs := NewQueues(dimx + dimy);
      this.dimx := dimx;
      this.dimy := dimy;
      ncells := dimx * dimy;
      this.sqrt := sqrt;
      dist := d;
      flags := f;
      qp := hp;
      qn := hn;
      props := hs;
      new;
      assert QueuesShaped();
      assert Current() == Initial(ncells);
    }

    /** usdtrans_requeue on queue_positive for a cell not flagged for it: set the
        flag, clear UNKNOWN, heap_insert (d, index). */
    method InsertPositive(index: nat, d: real)
      requires Shaped() && index < ncells
      modifies flags, qp, qp.key, qp.value
      ensures Shaped() && Moved(qp)
      ensures multiset(qp.Contents()) == old(multiset(qp.Contents())) + multiset{(d, index)}
      ensures flags[..] == old(flags[..])[index := old(flags[index]).(unknown := false, queuePositive := true)]
      ensures multiset(qn.Contents()) == old(multiset(qn.Contents())) && dist[..] == old(dist[..])
    {
      flags[index] := flags[index].(unknown := false, queuePositive := true);
      qp.Insert(d, index);
    }

    /** usdtrans_requeue on queue_positive for a flagged cell: heap_change_key
        from the cell's current distance to d. */
    method ChangePositive(index: nat, d: real)
      requires Shaped() && index < ncells
      modifies qp, qp.key, qp.value
      ensures Shaped() && Moved(qp)
      ensures multiset(qp.Contents()) == Requeued(old(multiset(qp.Contents())), true, old(dist[index]), d, index)
      ensures multiset(qn.Contents()) == old(multiset(qn.Contents())) && dist[..] == old(dist[..]) && flags[..] == old(flags[..])
    {
      var _ := qp.ChangeKey(dist[index], d, index);
    }

    /** usdtrans_requeue on queue_negative for a cell not flagged for it: set the
        flag, clear UNKNOWN, heap_insert (d, index). */
    method InsertNegative(index: nat, d: real)
      requires Shaped() && index < ncells
      modifies flags, qn, qn.key, qn.value
      ensures Shaped() && Moved(qn)
      ensures multiset(qn.Contents()) == old(multiset(qn.Contents())) + multiset{(d, index)}
      ensures flags[..] == old(flags[..])[index := old(flags[index]).(unknown := false, queueNegative := true)]
      ensures multiset(qp.Contents()) == old(multiset(qp.Contents())) && dist[..] == old(dist[..])
    {
      flags[index] := flags[index].(unknown := false, queueNegative := true);
      qn.Insert(d, index);
    }

    /** usdtrans_requeue on queue_negative for a flagged cell: heap_change_key
        from the cell's current distance to d. */
    method ChangeNegative(index: nat, d: real)
      requires Shaped() && index < ncells
      modifies qn, qn.key, qn.value
      ensures Shaped() && Moved(qn)
      ensures multiset(qn.Contents()) == Requeued(old(multiset(qn.Contents())), true, old(dist[index]), d, index)
      ensures multiset(qp.Contents()) == old(multiset(qp.Contents())) && dist[..] == old(dist[..]) && flags[..] == old(flags[..])
    {
      var _ := qn.ChangeKey(dist[index], d, index);
    }

    method RequeuePositive(index: nat, d: real)
      requires Shaped() && index < ncells
      modifies flags, qp, qp.key, qp.value
      ensures Shaped() && Moved(qp)
      ensures Current() == RequeuePositiveState(old(Current()), index, d)
      ensures qn.key == old(qn.key) && qn.value == old(qn.value)
    {
      if flags[index].queuePositive {
        ChangePositive(index, d);
      } else {
        InsertPositive(index, d);
      }
    }

    method RequeueNegative(index: nat, d: real)
      requires Shaped() && index < ncells
      modifies flags, qn, qn.key, qn.value
      ensures Shaped() && Moved(qn)
      ensures Current() == RequeueNegativeState(old(Current()), index, d)
      ensures qp.key == old(qp.key) && qp.value == old(qp.value)
    {
      if flags[index].queueNegative {
        ChangeNegative(index, d);
      } else {
        InsertNegative(index, d);
      }
    }

    /** The last step of usdtrans_requeue: dist[index] = new_dist. */
    method SetDist(index: nat, d: real)
      requires Shaped() && index < ncells
      modifies dist
      ensures Shaped()
      ensures Current() == old(Current()).(dist := old(dist[..])[index := d])
      ensures qp.key == old(qp.key) && qp.value == old(qp.value) && qn.key == old(qn.key) && qn.value == old(qn.value)
    {
      dist[index] := d;
    }

    method Requeue(index: nat, d: real)
      requires Valid() && index < ncells
      modifies dist, flags, qp, qp.key, qp.value, qn, qn.key, qn.value
      ensures Valid() && Moved(qp) && Moved(qn)
      ensures Current() == RequeueState(old(Current()), index, d)
      ensures Flagged(old(Current())) ==> Flagged(Current())
    {
      ghost var s := Current();
      RequeuePositive(index, d);
      RequeueNegative(index, d);
      SetDist(index, d);
      RequeueHalves(s, index, d);
      RequeueKeeps(s, index, d);
    }

    /** usdtrans_seed(index, dist): the cell becomes FIXED, then is
        requeued with the seed distance. */
    method Seed(index: nat, d: real)
      requires Valid() && index < ncells
      modifies dist, flags, qp, qp.key, qp.value, qn, qn.key, qn.value
      ensures Valid() && Moved(qp) && Moved(qn)
      ensures Current() == SeedState(old(Current()), index, d)
      ensures dist[index] == d && flags[index].fixed
      ensures Flagged(old(Current())) ==> Flagged(Current())
    {
      ghost var s := Current();
      MarkFixed(index);
      FixKeeps(s, index);
      Requeue(index, d);
      SeedKeeps(s, index, d);
    }

    /** The first step of usdtrans_seed: flags[index] |= USDTRANS_FLAG_FIXED. */
    method MarkFixed(index: nat)
      requires Shaped() && index < ncells
      modifies flags
      ensures Shaped()
      ensures Current() == FixState(old(Current()), index)
      ensures qp.key == old(qp.key) && qp.value == old(qp.value) && qn.key == old(qn.key) && qn.value == old(qn.value)
    {
      flags[index] := flags[index].(fixed := true);
    }

    /** usdtrans_seed2(ix, iy, dist): -1 for a cell outside the grid, which
        changes nothing; otherwise the cell ix + dimx * iy is seeded, reads
        back as dist and is FIXED, and 0 is returned. */
    method Seed2(ix: nat, iy: nat, d: real) returns (r: int)
      requires Valid()
      modifies dist, flags, qp, qp.key, qp.value, qn, qn.key, qn.value
      ensures Valid() && Moved(qp) && Moved(qn)
      ensures r == 0 || r == -1
      ensures r == -1 <==> ix >= dimx || iy >= dimy
      ensures r == -1 ==> Current() == old(Current())
      ensures r == 0 ==> Index(dimx, ix, iy) < ncells && Current() == SeedState(old(Current()), Index(dimx, ix, iy), d)
      ensures r == 0 ==> Get2(ix, iy) == Some(d) && FGet2(ix, iy) % 2 == 1
      ensures Flagged(old(Current())) ==> Flagged(Current())
    {
      if ix >= dimx {
        return -1;
      }
      if iy >= dimy {
        return -1;
      }
      IndexInGrid(dimx, dimy, ix, iy);
      Seed(ix + dimx * iy, d);
      return 0;
    }

    /** usdtrans_partition(index, dist): the distance is overwritten and the
        flags become exactly UNKNOWN; the queues are not touched. */
    method Partition(index: nat, d: real)
      requires Valid() && index < ncells
      modifies dist, flags
      ensures Valid()
      ensures Current() == PartitionState(old(Current()), index, d)
      ensures dist[index] == d && flags[index] == Unknown
    {
      ghost var s := Current();
      dist[index] := d;
      flags[index] := Unknown;
      assert Current() == PartitionState(s, index, d);
      PartitionProperties(s, index, d);
    }

    /** usdtrans_partition2(ix, iy, dist): -1 outside the grid, changing
        nothing; otherwise the cell is partitioned, reads back as dist and is
        exactly UNKNOWN, and 0 is returned. */
    method Partition2(ix: nat, iy: nat, d: real) returns (r: int)
      requires Valid()
      modifies dist, flags
      ensures Valid()
      ensures r == 0 || r == -1
      ensures r == -1 <==> ix >= dimx || iy >= dimy
      ensures r == -1 ==> Current() == old(Current())
      ensures r == 0 ==> Index(dimx, ix, iy) < ncells && Current() == PartitionState(old(Current()), Index(dimx, ix, iy), d)
      ensures r == 0 ==> Get2(ix, iy) == Some(d) && FGet2(ix, iy) == Word(Unknown)
    {
      if ix >= dimx {
        return -1;
      }
      if iy >= dimy {
        return -1;
      }
      IndexInGrid(dimx, dimy, ix, iy);
      Partition(ix + dimx * iy, d);
      return 0;
    }

    /** usdtrans_get2(ix, iy): the distance of the cell, or None (NAN in the
        source) outside the grid. */
    function Get2(ix: nat, iy: nat): (r: Option<real>)
      reads dist
      requires HasCells()
      ensures r.Some? <==> ix < dimx && iy < dimy
      ensures r.Some? ==> Index(dimx, ix, iy) < ncells && r.value == dist[Index(dimx, ix, iy)]
    {
      if ix >= dimx then None
      else if iy >= dimy then None
      else
        IndexInGrid(dimx, dimy, ix, iy);
        Some(dist[ix + dimx * iy])
    }

    /** usdtrans_fget2(ix, iy): the flag word of the cell as an integer, or
        -1 outside the grid.  The word decodes back to the cell's flags. */
    function FGet2(ix: nat, iy: nat): (r: int)
      reads flags
      requires HasCells()
      ensures r == -1 <==> ix >= dimx || iy >= dimy
      ensures r != -1 ==> Index(dimx, ix, iy) < ncells && 0 <= r < 16 && Decode(r) == flags[Index(dimx, ix, iy)]
    {
      if ix >= dimx then -1
      else if iy >= dimy then -1
      else
        IndexInGrid(dimx, dimy, ix, iy);
        DecodeWord(flags[ix + dimx * iy]);
        Word(flags[ix + dimx * iy])
    }

    /** propagators->length = 0: the propagators heap is emptied. */
    method ResetPropagators()
      requires PropsReady() && Apart()
      modifies props
      ensures PropsReady() && Apart() && props.key == old(props.key) && props.value == old(props.value)
      ensures props.Contents() == [] && props.length == 0
    {
      props.length := 0;
    }

    /** One "try" of update_*: neighbour n joins the propagators heap, keyed
        by its (for update_negative negated) distance, unless it is UNKNOWN. */
    method Offer(n: nat, positive: bool)
      requires HasCells() && Apart() && PropsReady() && n < ncells && props.length < 4
      modifies props, props.key, props.value
      ensures PropsReady() && Apart() && props.key == old(props.key) && props.value == old(props.value)
      ensures props.length <= old(props.length) + 1
      ensures multiset(props.Contents()) == old(multiset(props.Contents())) + CellCandidate(dist[n], flags[n], n, positive)
    {
      if !flags[n].unknown {
        props.Insert(KeyOf(positive, dist[n]), n);
      }
    }

    /** A try of update_* for a neighbour that exists when ok. */
    method OfferIf(ok: bool, nbor: int, positive: bool, ghost s: State)
      requires HasCells() && Apart() && PropsReady() && props.length < 4
      requires ok ==> 0 <= nbor < ncells
      requires s.dist == dist[..] && s.flags == flags[..]
      modifies props, props.key, props.value
      ensures PropsReady() && Apart() && props.key == old(props.key) && props.value == old(props.value)
      ensures props.length <= old(props.length) + 1
      ensures multiset(props.Contents()) == old(multiset(props.Contents())) + Try(s, ok, nbor, positive)
    {
      if ok {
        var n: nat := nbor;
        Offer(n, positive);
      }
    }

    /** The south and north tries of update_*. */
    method CollectVertical(index: nat, positive: bool, ghost s: State)
      requires HasCells() && Apart() && PropsReady() && index < ncells && props.length == 0
      requires s.dist == dist[..] && s.flags == flags[..]
      modifies props, props.key, props.value
      ensures PropsReady() && Apart() && props.key == old(props.key) && props.value == old(props.value)
      ensures props.length <= 2
      ensures HasSouth(dimx, index) ==> South(dimx, index) < ncells
      ensures HasNorth(ncells, dimx, index) ==> North(dimx, index) < ncells
      ensures multiset(props.Contents()) == old(multiset(props.Contents())) +
              Try(s, HasSouth(dimx, index), South(dimx, index), positive) + Try(s, HasNorth(ncells, dimx, index), North(dimx, index), positive)
    {
      OfferIf(HasSouth(dimx, index), South(dimx, index), positive, s);
      OfferIf(HasNorth(ncells, dimx, index), North(dimx, index), positive, s);
    }

    /** The west and east tries of update_*, after the south and north ones. */
    method CollectHorizontal(index: nat, positive: bool, ghost s: State)
      requires HasCells() && Apart() && PropsReady() && index < ncells && props.length <= 2
      requires s.dist == dist[..] && s.flags == flags[..]
      modifies props, props.key, props.value
      ensures PropsReady() && Apart() && props.key == old(props.key) && props.value == old(props.value)
      ensures dimx > 0 && (HasWest(dimx, index) ==> 0 < index) && (HasEast(dimx, index) ==> East(index) < ncells)
      ensures multiset(props.Contents()) == old(multiset(props.Contents())) +
              Try(s, HasWest(dimx, index), West(index), positive) + Try(s, HasEast(dimx, index), East(index), positive)
    {
      NeighboursInGrid(dimx, dimy, index);
      OfferIf(HasWest(dimx, index), West(index), positive, s);
      OfferIf(HasEast(dimx, index), East(index), positive, s);
    }

    /** heap_pop(propagators): the top propagator is removed. */
    method DropTop()
      requires PropsReady() && Apart() && props.length > 0
      modifies props, props.key, props.value
      ensures PropsReady() && Apart() && props.key == old(props.key) && props.value == old(props.value)
      ensures props.length == old(props.length) - 1
      ensures multiset(props.Contents()) == old(multiset(props.Contents())) - multiset{(old(props.key[1]), old(props.value[1]))}
    {
      var _ := props.Pop();
    }

    /** The first heap_pop of update_*: the primary, a propagator of least
        key, is taken from the propagators. */
    method TakePrimary() returns (p: Pair)
      requires PropsReady() && Apart() && props.length > 0
      modifies props, props.key, props.value
      ensures PropsReady() && Apart() && props.key == old(props.key) && props.value == old(props.value)
      ensures props.length == old(props.length) - 1 && p == (old(props.key[1]), old(props.value[1]))
      ensures p in old(multiset(props.Contents())) && forall e :: e in old(multiset(props.Contents())) ==> p.0 <= e.0
      ensures multiset(props.Contents()) == old(multiset(props.Contents())) - multiset{p}
    {
      props.TopIsExtreme();
      ghost var c := props.Contents();
      p := (props.key[1], props.value[1]);
      assert c[0] == p;
      forall e | e in multiset(c)
        ensures p.0 <= e.0
      {
        assert e in c;
      }
      DropTop();
    }

    /** After the loop of update_*: the one-point value, if it improves. */
    method TryFallback(index: nat, positive: bool, p: Pair)
      requires Valid() && index < ncells
      modifies dist, flags, qp, qp.key, qp.value, qn, qn.key, qn.value
      ensures Valid() && Moved(qp) && Moved(qn)
      ensures Current() == if Improves(positive, Fallback(positive, p.0), old(dist[index]))
                           then RequeueState(old(Current()), index, Fallback(positive, p.0)) else old(Current())
      ensures Flagged(old(Current())) ==> Flagged(Current())
    {
      var rhs := Fallback(positive, p.0);
      if Improves(positive, rhs, dist[index]) {
        Requeue(index, rhs);
      }
    }

    /** The return of the loop of update_*: the top of what is left, cur[0],
        is the first Good partner, and the cell takes its two-point value. */
    method RequeueFirstGood(index: nat, positive: bool, p: Pair, rhs: real, ghost s: State, ghost rest: multiset<Pair>,
                            ghost done: multiset<Pair>, ghost cur: seq<Pair>)
      requires Valid() && index < ncells && dimx > 0 && Current() == s
      requires |cur| > 0 && multiset(cur) + done == rest && rhs == Interpolated(sqrt, positive, p.0, cur[0].0)
      requires forall e :: e in cur ==> cur[0].0 <= e.0
      requires forall e :: e in done ==> !Good(sqrt, dimx, s, index, positive, p, e)
      requires Good(sqrt, dimx, s, index, positive, p, cur[0])
      modifies dist, flags, qp, qp.key, qp.value, qn, qn.key, qn.value
      ensures Valid() && Moved(qp) && Moved(qn)
      ensures FromPrimary(sqrt, dimx, s, index, positive, p, rest, Current())
      ensures Flagged(s) ==> Flagged(Current())
    {
      Requeue(index, rhs);
      FirstGood(sqrt, dimx, s, index, positive, p, rest, done, cur, Current());
    }

    /** One pass of the loop of update_* for primary p, with done the
        propagators already popped and rest all of them: either the top is
        the first Good partner and the cell is requeued, or the top is
        popped and joins done. */
    method ScanStep(index: nat, positive: bool, p: Pair, ghost s: State, ghost rest: multiset<Pair>,
                    ghost done: multiset<Pair>) returns (requeued: bool, ghost done': multiset<Pair>)
      requires Valid() && index < ncells && dimx > 0 && props.length > 0 && Current() == s
      requires multiset(props.Contents()) + done == rest
      requires forall e :: e in done ==> !Good(sqrt, dimx, s, index, positive, p, e)
      modifies dist, flags, qp, qp.key, qp.value, qn, qn.key, qn.value, props, props.key, props.value
      ensures Valid() && Moved(qp) && Moved(qn) && props.key == old(props.key) && props.value == old(props.value)
      ensures requeued ==> FromPrimary(sqrt, dimx, s, index, positive, p, rest, Current())
      ensures requeued ==> (Flagged(s) ==> Flagged(Current()))
      ensures !requeued ==> Current() == s && qp.key == old(qp.key) && qp.value == old(qp.value) &&
                            qn.key == old(qn.key) && qn.value == old(qn.value)
      ensures !requeued ==> props.length == old(props.length) - 1 && multiset(props.Contents()) + done' == rest
      ensures !requeued ==> forall e :: e in done' ==> !Good(sqrt, dimx, s, index, positive, p, e)
    {
      props.TopIsExtreme();
      ghost var cur := props.Contents();
      var q, secondary := props.key[1], props.value[1];
      var ix := index % dimx;
      var rhs := Interpolated(sqrt, positive, p.0, q);
      requeued := ((ix == p.1 % dimx) != (ix == secondary % dimx)) && 1.0 > q - p.0 && Improves(positive, rhs, dist[index]);
      assert requeued == Good(sqrt, dimx, s, index, positive, p, cur[0]);
      done' := done;
      if requeued {
        RequeueFirstGood(index, positive, p, rhs, s, rest, done, cur);
        return;
      }
      DropTop();
      done' := done + multiset{(q, secondary)};
    }

    /** The loop of update_* for primary p: propagators are popped in key
        order until one is a Good partner, which requeues the cell; if none
        is, the one-point value is tried. */
    method Scan(index: nat, positive: bool, p: Pair)
      requires Valid() && index < ncells && dimx > 0
      modifies dist, flags, qp, qp.key, qp.value, qn, qn.key, qn.value, props, props.key, props.value
      ensures Valid() && Moved(qp) && Moved(qn) && props.key == old(props.key) && props.value == old(props.value)
      ensures FromPrimary(sqrt, dimx, old(Current()), index, positive, p, old(multiset(props.Contents())), Current())
      ensures Flagged(old(Current())) ==> Flagged(Current())
    {
      ghost var s := Current();
      ghost var rest := multiset(props.Contents());
      ghost var done: multiset<Pair> := multiset{};
      while props.length != 0
        invariant Valid() && Current() == s
        invariant qp.key == old(qp.key) && qp.value == old(qp.value) && qn.key == old(qn.key) && qn.value == old(qn.value)
        invariant props.key == old(props.key) && props.value == old(props.value)
        invariant multiset(props.Contents()) + done == rest
        invariant forall e :: e in done ==> !Good(sqrt, dimx, s, index, positive, p, e)
        decreases props.length
      {
        var requeued;
        requeued, done := ScanStep(index, positive, p, s, rest, done);
        if requeued {
          return;
        }
      }
      TryFallback(index, positive, p);
      NoGood(sqrt, dimx, s, index, positive, p, rest, Current());
    }

    /** Reset and the four tries of update_*: the propagators heap holds
        exactly the Known neighbours of index. */
    method Gather(index: nat, positive: bool)
      requires Valid() && index < ncells && dimx > 0
      modifies props, props.key, props.value
      ensures Valid() && props.key == old(props.key) && props.value == old(props.value)
      ensures multiset(props.Contents()) == Known(Current(), dimx, index, positive)
    {
      ghost var s := Current();
      ResetPropagators();
      CollectVertical(index, positive, s);
      CollectHorizontal(index, positive, s);
    }

    /** The tail of update_* once the propagators heap is not empty: its top
        is the primary and the rest is scanned. */
    method UpdateFrom(index: nat, positive: bool)
      requires Valid() && index < ncells && dimx > 0 && props.length > 0
      modifies dist, flags, qp, qp.key, qp.value, qn, qn.key, qn.value, props, props.key, props.value
      ensures Valid() && Moved(qp) && Moved(qn) && props.key == old(props.key) && props.value == old(props.value)
      ensures FromLeast(sqrt, dimx, old(Current()), index, positive, old(multiset(props.Contents())), Current())
      ensures Flagged(old(Current())) ==> Flagged(Current())
    {
      ghost var s := Current();
      ghost var k := multiset(props.Contents());
      var p := TakePrimary();
      Scan(index, positive, p);
      LeastWitness(sqrt, dimx, s, index, positive, k, p, Current());
    }

    /** update_positive (positive) or update_negative on cell index. */
    method Update(index: nat, positive: bool)
      requires Valid() && index < ncells
      modifies dist, flags, qp, qp.key, qp.value, qn, qn.key, qn.value, props, props.key, props.value
      ensures Valid() && Moved(qp) && Moved(qn) && props.key == old(props.key) && props.value == old(props.value)
      ensures dimx > 0
      ensures UpdateOutcome(sqrt, dimx, old(Current()), index, positive, Current())
      ensures Flagged(old(Current())) ==> Flagged(Current())
    {
      if dimx == 0 {
        assert false;
      }
      if !flags[index].fixed {
        UpdateFree(index, positive);
      }
    }

    /** update_* past its FIXED test: gather the propagators, and start from
        the least of them when there is one. */
    method UpdateFree(index: nat, positive: bool)
      requires Valid() && index < ncells && dimx > 0 && !flags[index].fixed
      modifies dist, flags, qp, qp.key, qp.value, qn, qn.key, qn.value, props, props.key, props.value
      ensures Valid() && Moved(qp) && Moved(qn) && props.key == old(props.key) && props.value == old(props.value)
      ensures UpdateOutcome(sqrt, dimx, old(Current()), index, positive, Current())
      ensures Flagged(old(Current())) ==> Flagged(Current())
    {
      ghost var s := Current();
      Gather(index, positive);
      assert Current() == s;
      if props.length > 0 {
        UpdateFrom(index, positive);
      } else {
        assert multiset(props.Contents()) == multiset{};
      }
    }

    /** heap_pop on queue_positive, the first step of propagate_positive. */
    method PopPositive() returns (index: nat, ghost popped: Option<Pair>)
      requires Valid()
      modifies qp, qp.key, qp.value
      ensures Valid() && qp.key == old(qp.key) && qp.value == old(qp.value)
      ensures Current() == Dequeued(old(Current()), true, popped)
      ensures Popped(old(Current()), true, popped, index)
    {
      ghost var s := Current();
      index, popped := PopEntry(qp);
      DequeuedKeeps(s, true, popped);
    }

    /** heap_pop on queue_negative, the first step of propagate_negative. */
    method PopNegative() returns (index: nat, ghost popped: Option<Pair>)
      requires Valid()
      modifies qn, qn.key, qn.value
      ensures Valid() && qn.key == old(qn.key) && qn.value == old(qn.value)
      ensures Current() == Dequeued(old(Current()), false, popped)
      ensures Popped(old(Current()), false, popped, index)
    {
      ghost var s := Current();
      index, popped := PopEntry(qn);
      DequeuedKeeps(s, false, popped);
    }

    /** update_* on a cell that lies in the grid: its outcome is
        UpdateOutcome, so it changes that cell alone, never a FIXED one,
        only towards the seeds. */
    method UpdateCell(n: nat, positive: bool)
      requires Valid() && n < ncells
      modifies dist, flags, qp, qp.key, qp.value, qn, qn.key, qn.value, props, props.key, props.value
      ensures Valid() && Moved(qp) && Moved(qn) && props.key == old(props.key) && props.value == old(props.value)
      ensures dimx > 0 && UpdateOutcome(sqrt, dimx, old(Current()), n, positive, Current())
      ensures Tightened(old(Current()), Current(), {n}, positive)
      ensures Flagged(old(Current())) ==> Flagged(Current())
    {
      ghost var s := Current();
      Update(n, positive);
      UpdateOutcomeTightens(sqrt, dimx, s, n, positive, Current());
    }

    /** One guarded update_* call of propagate_*. */
    method UpdateIf(ok: bool, n: int, positive: bool)
      requires Valid() && dimx > 0 && (ok ==> 0 <= n < ncells)
      modifies dist, flags, qp, qp.key, qp.value, qn, qn.key, qn.value, props, props.key, props.value
      ensures Valid() && Moved(qp) && Moved(qn) && props.key == old(props.key) && props.value == old(props.value)
      ensures if ok then UpdateOutcome(sqrt, dimx, old(Current()), n, positive, Current())
              else Current() == old(Current())
      ensures Flagged(old(Current())) ==> Flagged(Current())
    {
      if ok {
        UpdateCell(n, positive);
      }
    }

    /** The four update_* calls of propagate_*: south, north, west and east
        of cell index, each only where that neighbour exists.  Only those
        neighbours change, never a FIXED cell, only towards the seeds. */
    method UpdateNeighbours(index: nat, positive: bool) returns (ghost s1: State, ghost s2: State, ghost s3: State)
      requires Valid() && index < ncells
      modifies dist, flags, qp, qp.key, qp.value, qn, qn.key, qn.value, props, props.key, props.value
      ensures Valid() && Moved(qp) && Moved(qn) && props.key == old(props.key) && props.value == old(props.value)
      ensures dimx > 0 && NeighboursUpdated(sqrt, dimx, dimy, old(Current()), index, positive, s1, s2, s3, Current())
      ensures Tightened(old(Current()), Current(), NeighbourSet(dimx, dimy, index), positive)
      ensures Flagged(old(Current())) ==> Flagged(Current())
    {
      ghost var s := Current();
      NeighbourSetCovers(dimx, dimy, ncells, index);
      s1 := UpdateVertical(index, positive);
      s2 := Current();
      s3 := UpdateHorizontal(index, positive);
      NeighboursUpdatedTightens(sqrt, dimx, dimy, s, index, positive, s1, s2, s3, Current());
    }

    /** The south and north updates of propagate_*, through the state mid. */
    method UpdateVertical(index: nat, positive: bool) returns (ghost mid: State)
      requires Valid() && index < ncells && dimx > 0
      modifies dist, flags, qp, qp.key, qp.value, qn, qn.key, qn.value, props, props.key, props.value
      ensures Valid() && Moved(qp) && Moved(qn) && props.key == old(props.key) && props.value == old(props.value)
      ensures UpdatedIf(sqrt, dimx, old(Current()), HasSouth(dimx, index), South(dimx, index), positive, mid)
      ensures UpdatedIf(sqrt, dimx, mid, HasNorth(dimx * dimy, dimx, index), North(dimx, index), positive, Current())
      ensures Flagged(old(Current())) ==> Flagged(Current())
    {
      NeighbourSetCovers(dimx, dimy, ncells, index);
      UpdateIf(HasSouth(dimx, index), South(dimx, index), positive);
      mid := Current();
      UpdateIf(HasNorth(ncells, dimx, index), North(dimx, index), positive);
    }

    /** The west and east updates of propagate_*, through the state mid. */
    method UpdateHorizontal(index: nat, positive: bool) returns (ghost mid: State)
      requires Valid() && index < ncells && dimx > 0
      modifies dist, flags, qp, qp.key, qp.value, qn, qn.key, qn.value, props, props.key, props.value
      ensures Valid() && Moved(qp) && Moved(qn) && props.key == old(props.key) && props.value == old(props.value)
      ensures UpdatedIf(sqrt, dimx, old(Current()), HasWest(dimx, index), West(index), positive, mid)
      ensures UpdatedIf(sqrt, dimx, mid, HasEast(dimx, index), East(index), positive, Current())
      ensures Flagged(old(Current())) ==> Flagged(Current())
    {
      NeighbourSetCovers(dimx, dimy, ncells, index);
      UpdateIf(HasWest(dimx, index), West(index), positive);
      mid := Current();
      UpdateIf(HasEast(dimx, index), East(index), positive);
    }

    /** usdtrans_propagate_positive (positive) or
        usdtrans_propagate_negative: pop the queue, then run update_* on the
        in-grid south, north, west and east neighbours of the popped cell (of
        cell 0 when the queue was empty), in that order, through the states
        s1, s2 and s3. */
    method Propagate(positive: bool) returns (index: nat, ghost popped: Option<Pair>,
                                              ghost s1: State, ghost s2: State, ghost s3: State)
      requires Valid() && ncells > 0
      modifies dist, flags, qp, qp.key, qp.value, qn, qn.key, qn.value, props, props.key, props.value
      ensures Valid() && Moved(qp) && Moved(qn) && props.key == old(props.key) && props.value == old(props.value)
      ensures index < ncells && Popped(old(Current()), positive, popped, index)
      ensures dimx > 0 && NeighboursUpdated(sqrt, dimx, dimy, Dequeued(old(Current()), positive, popped), index, positive,
                                            s1, s2, s3, Current())
      ensures Tightened(Dequeued(old(Current()), positive, popped), Current(), NeighbourSet(dimx, dimy, index), positive)
      ensures Flagged(old(Current())) ==> Flagged(Current())
    {
      ghost var s := Current();
      if positive {
        index, popped := PopPositive();
      } else {
        index, popped := PopNegative();
      }
      assert Popped(s, positive, popped, index);
      DequeuedKeeps(s, positive, popped);
      s1, s2, s3 := UpdateNeighbours(index, positive);
    }

    /** For the max heap queue_positive (min heap queue_negative) the top key
        is beyond the bound exactly when some queued key is. */
    lemma AtBoundHalted(positive: bool, bound: real)
      requires QueuesShaped()
      ensures AtBound(if positive then qp else qn, positive, bound) <==> Halted(Current(), positive, bound)
    {
      var h := if positive then qp else qn;
      if h.length == 0 {
        assert h.Contents() == [];
      } else {
        h.TopIsExtreme();
        var c := h.Contents();
        assert c[0] in multiset(c);
      }
    }

    /** The loop test of compute_*. */
    method Stopped(positive: bool, bound: real) returns (b: bool)
      requires Valid()
      ensures b <==> AtBound(if positive then qp else qn, positive, bound)
    {
      var h := if positive then qp else qn;
      b := h.length == 0 || Beyond(positive, h.key[1], bound);
    }

    /** Since s0 no FIXED cell changed, no distance moved away from the
        seeds, and the queue flags still cover the queues if they did in
        s0. */
    ghost predicate LoweredSince(s0: State, positive: bool)
      reads dist, flags, qp, qp.key, qp.value, qn, qn.key, qn.value
      requires QueuesShaped()
    {
      Lowered(s0, Current(), positive) && (Flagged(s0) ==> Flagged(Current()))
    }

    /** usdtrans_compute_positive(maxdist) (positive, bound = maxdist) or
        usdtrans_compute_negative(mindist): propagate from the queue until it
        is empty or its top key is beyond the bound, for at most fuel
        steps.  No FIXED cell changes and every distance only moves towards
        the seeds; finished tells whether the loop reached its exit. */
    method Compute(positive: bool, bound: real, fuel: nat) returns (finished: bool, steps: nat)
      requires Valid()
      modifies dist, flags, qp, qp.key, qp.value, qn, qn.key, qn.value, props, props.key, props.value
      ensures Valid() && Moved(qp) && Moved(qn) && props.key == old(props.key) && props.value == old(props.value)
      ensures Lowered(old(Current()), Current(), positive)
      ensures Flagged(old(Current())) ==> Flagged(Current())
      ensures finished <==> Halted(Current(), positive, bound)
      ensures steps <= fuel && (!finished ==> steps == fuel)
    {
      ghost var s0 := Current();
      LoweredRefl(s0, positive);
      steps := 0;
      finished := Stopped(positive, bound);
      while !finished && steps < fuel
        invariant Valid() && Moved(qp) && Moved(qn) && props.key == old(props.key) && props.value == old(props.value)
        invariant LoweredSince(s0, positive)
        invariant finished <==> AtBound(if positive then qp else qn, positive, bound)
        invariant steps <= fuel
        decreases fuel - steps
      {
        finished := Step(positive, bound, s0);
        steps := steps + 1;
      }
      AtBoundHalted(positive, bound);
    }

    /** One pass of the loop of compute_*: propagate, then test for the exit. */
    method Step(positive: bool, bound: real, ghost s0: State) returns (finished: bool)
      requires Valid() && QueueOf(Current(), positive) != multiset{} && LoweredSince(s0, positive)
      modifies dist, flags, qp, qp.key, qp.value, qn, qn.key, qn.value, props, props.key, props.value
      ensures Valid() && Moved(qp) && Moved(qn) && props.key == old(props.key) && props.value == old(props.value)
      ensures LoweredSince(s0, positive)
      ensures finished <==> AtBound(if positive then qp else qn, positive, bound)
    {
      PropagateLowers(positive, s0);
      var h := if positive then qp else qn;
      finished := h.length == 0 || Beyond(positive, h.key[1], bound);
    }

    /** One step of compute_*: the queue is not empty, so its top cell lies
        in the grid; propagating from it keeps the state lowered since s0. */
    method PropagateLowers(positive: bool, ghost s0: State)
      requires Valid() && QueueOf(Current(), positive) != multiset{} && LoweredSince(s0, positive)
      modifies dist, flags, qp, qp.key, qp.value, qn, qn.key, qn.value, props, props.key, props.value
      ensures Valid() && Moved(qp) && Moved(qn) && props.key == old(props.key) && props.value == old(props.value)
      ensures LoweredSince(s0, positive)
    {
      ghost var s := Current();
      ghost var e :| e in QueueOf(s, positive);
      assert e.1 < ncells;
      var index, popped, _, _, _ := Propagate(positive);
      DequeuedTightens(s, positive, popped);
      TightenedTrans(s, Dequeued(s, positive, popped), Current(),
                     if popped.Some? then {popped.value.1} else {}, NeighbourSet(dimx, dimy, index),
                     {index} + NeighbourSet(dimx, dimy, index), positive);
      LoweredTrans(s0, s, Current(), positive);
    }

    /** usdtrans_compute(range): the positive pass up to range, which ends
        in the state mid, then the negative pass down to -range, each for at
        most fuel steps; finished tells whether both passes reached their
        exits. */
    method ComputeAll(range: real, fuel: nat) returns (finished: bool, ghost mid: State)
      requires Valid()
      modifies dist, flags, qp, qp.key, qp.value, qn, qn.key, qn.value, props, props.key, props.value
      ensures Valid() && Moved(qp) && Moved(qn) && props.key == old(props.key) && props.value == old(props.value)
      ensures Lowered(old(Current()), mid, true) && Lowered(mid, Current(), false)
      ensures FixedKept(old(Current()), Current())
      ensures Flagged(old(Current())) ==> Flagged(mid) && Flagged(Current())
      ensures finished <==> Halted(mid, true, range) && Halted(Current(), false, -range)
    {
      ghost var s0 := Current();
      var up, _ := Compute(true, range, fuel);
      mid := Current();
      var down, _ := Compute(false, -range, fuel);
      FixedKeptTrans(s0, mid, Current());
      finished := up && down;
    }
  }
}
