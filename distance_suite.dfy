/**
  The scenario of test.cpp: a 4 x 3 transform with scale 0.1, one seed of
  distance 1.0 at cell (0, 0), a second seed outside the grid that must be
  rejected, then propagation until the queue is empty; the seed must still
  read 1.0 afterwards.
 */
module DistanceSuite {
  import opened Grid
  import opened CellQueue
  import opened Distance

  /** main() of test.cpp, with the propagation loop bounded by fuel steps.
      ok is the test's verdict: both set() results as expected and
      get(0, 0) == 1.0.  The square root is any function that never returns
      a negative number. */
  method Scenario(sqrt: real -> real, fuel: nat) returns (ok: bool, steps: nat)
    requires forall x :: sqrt(x) >= 0.0
    ensures steps <= fuel
    ensures fuel > 0 ==> ok && steps > 0
  {
    var dt := new DistanceTransform(4, 3, 0.1, sqrt);
    ghost var s0 := dt.Current();
    assert dt.AtLeast(s0, 1.0);
    ok := true;
    var first := dt.Set(0, 0, 1.0);
    if !first {
      ok := false;
    }
    dt.SetProperties(s0, 0, 0, 1.0);
    dt.SetAtLeast(s0, 0, 0, 1.0, 1.0);
    assert dt.queue == [Entry(1.0, 0)] by {
      assert dt.queue == Insert([], Entry(1.0, 0));
    }
    ghost var s1 := dt.Current();
    var second := dt.Set(20, 10, 1.0);
    if second {
      ok := false;
    }
    assert dt.Current() == s1;
    steps := 0;
    while steps < fuel && dt.queue != []
      invariant dt.Valid() && dt.AtLeast(dt.Current(), 1.0) && dt.Monotone()
      invariant dt.dimx == 4 && dt.ncells == 12
      invariant steps <= fuel
      invariant steps == 0 ==> dt.queue == [Entry(1.0, 0)]
      invariant steps > 0 ==> dt.Settled(dt.Current(), 0, 1.0)
      decreases fuel - steps
    {
      ghost var s := dt.Current();
      dt.PropagateAtLeast(s, 1.0, 0);
      if steps == 0 {
        dt.FirstStepSettles(s);
      }
      dt.Propagate();
      steps := steps + 1;
    }
    var d := dt.Get(0, 0);
    if 1.0 != d {
      ok := false;
    }
  }
}
