# dtrans wavefront transforms in Dafny

A verified model of the propagation core of dtrans. dtrans computes grid-based
wavefront propagation. Seed cells carry a known distance or arrival time, and a
priority-queue-driven, single-pass fast-marching scheme fills in every other
cell of a `dimx` x `dimy` grid. For each cell it takes the better of a
one-point value (the least neighbour plus the cell size) and a two-point
upwind interpolation between neighbours on the two axes.

The model covers four pieces of the system:

- `heap.c`: the generic binary heap (`BinaryHeap.Heap`). It is a class over
  two 1-indexed arrays of keys and values, with a max or min key order.
- `SailboatTransform.cpp`: the single-field transform (`Sailboat`). The sign
  of `m_value` marks a fixed cell, `m_key == -1` marks a cell off the queue,
  and the queue is a `std::multimap`. The model also covers the cached
  gradient computation.
- `DistanceTransform.cpp`: the distance transform with a lookahead `m_rhs`
  (`Distance`).
- `usd/usdtrans.c`: the C transform with forward and backward passes
  (`Usd`). It keeps flag words and two heaps, `queue_positive` (a max heap)
  and `queue_negative` (a min heap), plus a min heap of propagators. It
  reuses `BinaryHeap.Heap`.

Shared pieces:

- `Grid` holds the index arithmetic, the neighbour tests and the two-point
  formula.
- `CellQueue` models `std::multimap<double, size_t>` as a sorted sequence of
  entries. Lookups use `lower_bound`, an insert lands after equal keys, and
  the key map's bookkeeping is checked against the queue.
- `HeapSuite` and `DistanceSuite` restate the repository's own test
  programs, `usd/heap_test.c` and `test.cpp`, as verified methods.

Doubles are modelled as exact reals. The library square root is a parameter
of each transform: a function value fixed at construction. Every loop the
source runs until a queue is empty takes an explicit `fuel` bound.

Where the specification and the code disagree, the model follows the code:

- `DistanceTransform.hpp` declares `setDist`, `getDist`, `compute(ceiling)`
  and a `bool propagate()`. The model follows `DistanceTransform.cpp`, which
  implements `set`, `get`, `compute()` and a `void propagate()`.

## Model

| member | source | states |
|---|---|---|
| `Grid.NeighboursInGrid` | SailboatTransform.cpp:286-298 | an index inside the grid forces a non-empty grid, and each of the four neighbour tests (index >= dimx, index < toprow, ix > 0, ix < rightcol) only admits an in-grid neighbour |
| `Grid.Index` | SailboatTransform.hpp:233 | the linear index `ix + m_dimx * iy` that setTime, getTime and computeGradient use; only this index is range checked (its consequences in CoordinatesInGrid and IndexInGrid) |
| `Grid.HasSouth` | SailboatTransform.cpp:286 | the south test `index >= m_dimx` of propagate(), shared with update() and usdtrans (its meaning in NeighboursInGrid and NeighboursMembers) |
| `Grid.HasNorth` | SailboatTransform.cpp:289 | the north test `index < m_toprow`, with `m_toprow = m_ncells - m_dimx` (its meaning in NeighboursInGrid and NeighboursMembers) |
| `Grid.HasWest` | SailboatTransform.cpp:293 | the west test `index % m_dimx > 0` (its meaning in NeighboursInGrid and NeighboursMembers) |
| `Grid.HasEast` | SailboatTransform.cpp:296 | the east test `index % m_dimx < m_rightcol`, with `m_rightcol = m_dimx - 1` (its meaning in NeighboursInGrid and NeighboursMembers) |
| `Grid.Neighbours` | SailboatTransform.cpp:286-298 | the cells propagate() updates, in its order: all in the grid and all neighbours of the popped cell |
| `Grid.VerticalNeighbours` | SailboatTransform.cpp:286-291 | the south and north cells propagate() updates all lie in the grid and are neighbours of the popped cell |
| `Grid.HorizontalNeighbours` | SailboatTransform.cpp:292-298 | the west and east cells propagate() updates all lie in the grid and are neighbours of the popped cell |
| `Grid.NeighboursMembers` | SailboatTransform.cpp:286-298 | a cell is visited exactly when it lies in the grid and is one of the four neighbours |
| `Grid.NeighboursCover` | SailboatTransform.cpp:286-298 | each neighbour the four tests admit is visited |
| `Grid.CoordinatesInGrid` | SailboatTransform.cpp:63-79 | a point (ix, iy) that passes the linear range test has iy < dimy, and its south and east neighbours exist where the coordinates say so |
| `Grid.TwoPoint` | SailboatTransform.cpp:246-249 | the two-point upwind value from `bb`, `cc` and `root`, shared with DistanceTransform.cpp (its lower bound in TwoPointAtLeastMean) |
| `Grid.TwoPointAtLeastMean` | SailboatTransform.cpp:238-249 | with a square root that never returns a negative number, the two-point value is at least the mean of its two neighbour values |
| `CellQueue.UpperBound` | SailboatTransform.cpp:150 | the insert position of a key: every entry before it has a key that is not greater, and in a sorted queue every entry after it has a greater key |
| `CellQueue.LowerBound` | SailboatTransform.cpp:129 | `lower_bound`: every entry before the position has a smaller key, and in a sorted queue none after it does |
| `CellQueue.Insert` | SailboatTransform.cpp:150 | `multimap::insert` of an entry: the queue grows by exactly one entry; where it lands and what it keeps are stated by InsertIndex, InsertMultiset and InsertSorted |
| `CellQueue.InsertMultiset` | SailboatTransform.cpp:150 | `multimap::insert` adds exactly the new entry |
| `CellQueue.InsertIndex` | SailboatTransform.cpp:150 | the new entry lands right after the entries with keys that are not greater, and the other entries keep their order |
| `CellQueue.InsertSorted` | SailboatTransform.cpp:150 | an insert keeps the queue sorted by key |
| `CellQueue.InsertMembers` | SailboatTransform.cpp:150 | after an insert an entry is present exactly when it was present before or is the new one |
| `CellQueue.InsertDistinct` | SailboatTransform.cpp:141-151 | inserting for a cell that has no entry keeps at most one entry per cell |
| `CellQueue.FirstCell` | DistanceTransform.cpp:121-127 | the position the erase loop stops at: every entry before it belongs to another cell, and it is the cell's entry unless it is the end of the queue |
| `CellQueue.FirstCellFound` | DistanceTransform.cpp:117-129 | the search for a cell's entry succeeds exactly when the cell has one |
| `CellQueue.RemoveCell` | DistanceTransform.cpp:124 | `m_queue.erase` of the cell's first entry; what it removes and keeps is stated by RemoveCellAt, RemoveCellIndex, RemoveCellCount, RemoveCellKeepsOthers and RemoveCellSorted |
| `CellQueue.RemoveCellAt` | DistanceTransform.cpp:121-125 | erasing at the first position the loop finds for the cell removes exactly that position and nothing else |
| `CellQueue.RemoveCellIndex` | DistanceTransform.cpp:124 | erasing a cell's first entry, position by position: the entries before it stay, the ones after it shift down by one |
| `CellQueue.RemoveCellCount` | DistanceTransform.cpp:124 | the erase changes nothing when the cell has no entry, and otherwise removes exactly that one entry |
| `CellQueue.RemoveCellKeepsOthers` | DistanceTransform.cpp:124 | the erase adds no entry and keeps every entry of other cells |
| `CellQueue.RemoveCellSorted` | DistanceTransform.cpp:124 | the erase keeps the queue sorted |
| `CellQueue.RemoveCellDistinct` | DistanceTransform.cpp:124 | with at most one entry per cell, the erase leaves the cell with none |
| `CellQueue.Unqueue` | DistanceTransform.cpp:117-129 | the unqueue loop reports success exactly when some entry from `lower_bound(key)` on belongs to the cell; it then removes the first such entry, and otherwise leaves the queue unchanged |
| `CellQueue.UnqueueFindsEntry` | DistanceTransform.cpp:115-129 | in a sorted queue with one entry per cell, the scan that starts at the cell's own key finds its entry, so unqueue erases exactly that cell's entry |
| `CellQueue.FirstIsMinimal` | SailboatTransform.cpp:267-275 | the first entry of a sorted queue, the one `pop()` takes, has the least key |
| `CellQueue.InsertAll` | SailboatTransform.cpp:185-215 | the multimap built by inserting entries one after another (its properties in InsertAllProperties) |
| `CellQueue.InsertAllProperties` | SailboatTransform.cpp:185-215 | inserting the candidates one by one yields a sorted queue that holds exactly them |
| `CellQueue.Passing` | SailboatTransform.cpp:471-500 | the examined neighbours that pass the test `nval < height`, each keyed by its magnitude (its members in PassingMembers) |
| `CellQueue.PassingMembers` | SailboatTransform.cpp:471-500 | a cell's entry is collected exactly when it is one of the examined cells and its magnitude lies below the bound |
| `CellQueue.Candidates` | SailboatTransform.cpp:471-504 | the `dwn` multimap of computeGradient, built from the passing neighbours (its properties in CandidatesProperties) |
| `CellQueue.CandidatesProperties` | SailboatTransform.cpp:471-504 | the collected entries are sorted and are exactly those of the examined cells below the bound; there are none exactly when no examined cell lies below it |
| `CellQueue.Propagators` | SailboatTransform.cpp:185-215 | the `props` multimap of update(): the neighbours with a finite magnitude (its properties in PropagatorsProperties) |
| `CellQueue.PropagatorsProperties` | SailboatTransform.cpp:185-215 | the `props` map of update(): sorted, and exactly the in-grid neighbours with a finite magnitude, each keyed by that magnitude |
| `CellQueue.EmptyTracked` | SailboatTransform.cpp:54-55 | an empty queue with every key at -1 is consistent with the key map |
| `CellQueue.TrackedOnQueue` | SailboatTransform.cpp:144 | a cell has a queue entry exactly when its recorded key is non-negative |
| `CellQueue.DropTracked` | DistanceTransform.cpp:144-149 | erasing a cell's entry and setting its key to -1 keeps the queue and the key map consistent |
| `CellQueue.AddTracked` | DistanceTransform.cpp:160-163 | inserting for a cell that is off the queue, with its key recorded, keeps the queue and the key map consistent |
| `CellQueue.PopTracked` | SailboatTransform.cpp:270-273 | removing the first entry and setting its cell's key to -1 keeps the queue and the key map consistent |
| `BinaryHeap.KeyCmp` | heap.c:36-45 | `heap_keycmp_more` and `heap_keycmp_less` are positive exactly when lhs belongs nearer the top of a max or min heap, and zero exactly on equal keys |
| `BinaryHeap.GrownCapacityAsWritten` | heap.c:113-120 | as written, the capacity after `heap_grow` never shrinks, and it stays the same exactly when it was 0 |
| `BinaryHeap.GrowAsWrittenStaysFull` | heap.c:154-164 | as written, growing an empty heap of capacity 0 leaves capacity 0, so the following insert writes slot 1 of a one-slot array |
| `BinaryHeap.GrownCapacity` | heap.c:108-124 | the corrected growth: the new capacity is always larger, and a non-zero capacity doubles |
| `BinaryHeap.SwapPermutes` | heap.c:127-137 | swapping two slots permutes the stored pairs |
| `BinaryHeap.SwapUpStep` | heap.c:144-150 | one step of bubble_up: a child above its parent moves up, and the only heap violation moves with it to the parent |
| `BinaryHeap.SwapDownStep` | heap.c:243-261 | one step of bubble_down: the child chosen as target moves up, and the only violation moves down to the target |
| `BinaryHeap.AppendState` | heap.c:161-164 | storing a pair in the slot after the last one appends it to the contents and leaves only that slot possibly out of order with its parent |
| `BinaryHeap.PopState` | heap.c:272-276 | moving the last pair to the root removes exactly the former top, and only the root possibly out of order with its children |
| `BinaryHeap.RaiseState` | heap.c:209-211 | giving a slot a key nearer the top leaves only an upward violation there |
| `BinaryHeap.LowerState` | heap.c:213-214 | giving a slot a key farther from the top leaves only a downward violation there |
| `BinaryHeap.SubtreeDominated` | heap.c:177-179 | under the heap property, a slot's key dominates its whole subtree; this is the pruning rule of heap_find_element |
| `BinaryHeap.Heap.constructor` | heap.c:48-97 | `heap_create` (and `maxheap_create` or `minheap_create`): an empty heap of the given capacity and order |
| `BinaryHeap.Heap.Clone` | heap.c:75-85 | `heap_clone`: a fresh heap of the same order whose capacity is exactly the length, holding the same pairs in the same slots |
| `BinaryHeap.Heap.Grow` | heap.c:108-124 | `heap_grow` with the corrected capacity: fresh arrays, every stored slot kept, same contents, heap property kept |
| `BinaryHeap.Heap.Swap` | heap.c:127-137 | `heap_swap` exchanges the two slots of both arrays and changes nothing else |
| `BinaryHeap.Heap.BubbleUp` | heap.c:140-151 | `heap_bubble_up` turns a heap that is broken only above one slot into a heap, with the same multiset of pairs |
| `BinaryHeap.Heap.Insert` | heap.c:154-166 | `heap_insert` adds exactly the pair, grows a full heap first, and keeps the heap property |
| `BinaryHeap.Heap.FindElement` | heap.c:169-195 | `heap_find_element` returns 0 or a slot of the searched subtree that holds the pair |
| `BinaryHeap.Heap.FindElementComplete` | heap.c:173-194 | the pruned search misses nothing: when it returns 0, no slot of the subtree holds the pair |
| `BinaryHeap.Heap.FindElementCorrect` | heap.c:169-195 | a search from the root finds a slot exactly when the pair is stored, and that slot holds it |
| `BinaryHeap.Heap.BubbleDown` | heap.c:238-263 | `heap_bubble_down` turns a heap that is broken only below one slot into a heap, with the same multiset of pairs |
| `BinaryHeap.Heap.Pop` | heap.c:266-278 | `heap_pop`: None on an empty heap; otherwise the top value, with exactly the top pair removed, every remaining key dominated by it, and the heap property kept |
| `BinaryHeap.Heap.TopIsExtreme` | heap.c:266-278 | the top slot of a heap dominates every stored key |
| `BinaryHeap.Heap.ChangeKey` | heap.c:198-235 | `heap_change_key`: -1 exactly when the pair is absent, leaving the heap unchanged; otherwise 0, with that pair re-keyed and the heap property restored |
| `HeapSuite.DrainStep` | usd/heap_test.c:86-90 | popping a top that dominates what is left keeps the popped sequence in heap order |
| `HeapSuite.Enumerate` | usd/heap_test.c:82-91 | `test_enumerate` pops every stored pair exactly once, in heap order, and leaves the heap itself unchanged |
| `HeapSuite.Create` | usd/heap_test.c:53-79 | `test_create` builds a heap of capacity 2 holding the three test pairs, and the third insert grows it to 4 |
| `HeapSuite.RejectAbsent` | usd/heap_test.c:116-123 | a change request for a pair that is not stored fails and leaves the heap's contents as they were |
| `HeapSuite.ChangeStored` | usd/heap_test.c:112-115 | re-keying the stored pair from 12 to -22 succeeds |
| `HeapSuite.ChangeRequests` | usd/heap_test.c:111-123 | the succeeding request and the two failing requests of the test all behave as it expects |
| `HeapSuite.Suite` | usd/heap_test.c:94-129 | `suite()` returns 0 for either heap order; the first enumeration yields the three stored pairs and the second the re-keyed ones, each in heap order |
| `Sailboat.SailboatTransform.constructor` | SailboatTransform.cpp:46-60 | every time is infinity, every key is -1, the queue is empty and no gradient is cached |
| `Sailboat.SailboatTransform.RequeueState` | SailboatTransform.cpp:141-151 | the requeue transition: the arrays keep their size (its effect in RequeueProperties) |
| `Sailboat.SailboatTransform.RequeueProperties` | SailboatTransform.cpp:141-151 | after requeue the cell has exactly one entry, keyed by the magnitude of its time; other cells' entries are unchanged and the state stays consistent |
| `Sailboat.SailboatTransform.PopState` | SailboatTransform.cpp:267-275 | the pop transition: it returns a cell of the grid and keeps the array sizes (its effect in PopProperties) |
| `Sailboat.SailboatTransform.PopProperties` | SailboatTransform.cpp:267-275 | pop takes the cell of least key, marks it off the queue, and leaves no entry for it |
| `Sailboat.SailboatTransform.Lowered` | SailboatTransform.cpp:230-263 | the interpolating half of update(): the array sizes are kept (its effect in Interpolation and UpdateLowers) |
| `Sailboat.SailboatTransform.Improvement` | SailboatTransform.cpp:230-263 | the new time update() chooses: the first two-point value that improves the cell, otherwise `primary + radius` when that improves it, otherwise none (its properties in Interpolation and UpdateLowers) |
| `Sailboat.SailboatTransform.Interpolation` | SailboatTransform.cpp:238-257 | a found two-point value lies below the current time and comes from a secondary on the other axis closer than the radius; when none is found, no such secondary yields a lower time |
| `Sailboat.SailboatTransform.UpdateState` | SailboatTransform.cpp:154-264 | the update transition: the array sizes are kept (its effect in UpdateFrame and UpdateLowers) |
| `Sailboat.SailboatTransform.UpdateFrame` | SailboatTransform.cpp:154-228 | update() keeps the state consistent and changes no other cell's time, key or queue entries, and never a fixed cell; an infinite radius sets the time to infinity without requeueing, and no propagators gives an infinite time and a requeue |
| `Sailboat.SailboatTransform.UpdateLowers` | SailboatTransform.cpp:185-263 | with propagators, the time never rises; a lowered time is the primary plus the radius or a valid two-point value, and the cell is requeued under it; an unchanged time leaves the state unchanged |
| `Sailboat.SailboatTransform.UpdateAll` | SailboatTransform.cpp:285-298 | the neighbour updates of propagate(), one after another: the array sizes are kept (its effect in UpdateAllKeeps) |
| `Sailboat.SailboatTransform.UpdateAllAppend` | SailboatTransform.cpp:285-298 | updating the cells of one list and then another is the same as updating their concatenation, so propagate()'s four updates can be split into two halves |
| `Sailboat.SailboatTransform.UpdateAllKeeps` | SailboatTransform.cpp:285-298 | a sequence of updates keeps the state consistent and every fixed time unchanged |
| `Sailboat.SailboatTransform.PropagateState` | SailboatTransform.cpp:278-301 | the propagate transition: the array sizes are kept (its effect in PropagateProperties) |
| `Sailboat.SailboatTransform.PropagateProperties` | SailboatTransform.cpp:278-301 | propagate() returns false exactly on an empty queue, keeps the state consistent, and never changes a fixed cell |
| `Sailboat.SailboatTransform.ComputeState` | SailboatTransform.cpp:93-102 | the state compute(ceiling) leaves is consistent and keeps every fixed cell's time |
| `Sailboat.SailboatTransform.ComputeStep` | SailboatTransform.cpp:93-102 | one pass of compute's loop on a queue whose top key is within the ceiling: a propagation that keeps the state consistent, followed by the rest of the loop |
| `Sailboat.SailboatTransform.SetTimeState` | SailboatTransform.cpp:63-79 | the setTime transition: the array sizes are kept (its effect in SetTimeProperties) |
| `Sailboat.SailboatTransform.SetTimeProperties` | SailboatTransform.cpp:63-79 | setTime succeeds exactly for a non-negative time and an in-grid linear index; it then fixes the cell at -time with one entry keyed by the time, and otherwise changes nothing |
| `Sailboat.SailboatTransform.SecondLowest` | SailboatTransform.cpp:551-581 | the second downwind neighbour found is the first on the other axis; when none is found, no later neighbour lies on that axis |
| `Sailboat.SailboatTransform.Slope` | SailboatTransform.cpp:535-572 | the signed height difference computeGradient stores for a downwind neighbour: `nval - height` when the neighbour has the higher index, `height - nval` otherwise (its use in GradientShape and GradientFromCases) |
| `Sailboat.SailboatTransform.DownwindCells` | SailboatTransform.cpp:471-500 | the cells computeGradient examines all lie in the grid (which ones is stated in DownwindCellsMembers) |
| `Sailboat.SailboatTransform.Downwind` | SailboatTransform.cpp:471-500 | the `dwn` multimap of the cell's lower examined neighbours (its properties in GradientCases) |
| `Sailboat.SailboatTransform.DownwindCellsMembers` | SailboatTransform.cpp:471-500 | the cells computeGradient tests are exactly south when iy > 0, north below the top row, west when ix > 0 and east before the right column |
| `Sailboat.SailboatTransform.GradientFrom` | SailboatTransform.cpp:502-597 | the gradient from a `dwn` multimap (its properties in GradientFromCases) |
| `Sailboat.SailboatTransform.GradientShape` | SailboatTransform.cpp:502-597 | the shape computeGradient promises: along the lowest neighbour's axis, the component is that neighbour's slope; n is 2 exactly when a later entry lies on the other axis, and then the other component is the slope of the first such entry; otherwise n is 1 and the other component is zero |
| `Sailboat.SailboatTransform.GradientFromCases` | SailboatTransform.cpp:502-597 | with only lower neighbours, sorted by key, the result has the GradientShape: the component along the lowest neighbour's axis is its slope, negative exactly when that neighbour has the higher index; n is 2 exactly when a later entry lies on the other axis, and the other component is then the slope of the first such entry; n is 0 exactly when there is no neighbour, with both components zero; with n = 1 exactly one component is zero, with n = 2 none is |
| `Sailboat.SailboatTransform.GradientCases` | SailboatTransform.cpp:456-598 | `dwn` is sorted and holds exactly the examined neighbours whose magnitude lies below the cell's, each keyed by that magnitude, and the gradient has the GradientShape for `dwn`: the lowest neighbour gives the component along its axis, a second neighbour is used exactly when one lies on the other axis, and it is the first such; no neighbour is used exactly when none lies below the cell, and then the gradient is zero |
| `Sailboat.SailboatTransform.GradientAt` | SailboatTransform.cpp:456-598 | computeGradient without the cache (its properties in GradientCases) |
| `Sailboat.SailboatTransform.GetTime` | SailboatTransform.cpp:82-90 | getTime is infinity outside the grid (only the linear index is checked), and otherwise the non-negative magnitude of the cell's time |
| `Sailboat.SailboatTransform.Unqueue` | SailboatTransform.cpp:126-138 | unqueue succeeds exactly when the cell's key is non-negative, and removes the cell's entry (the erase and break at lines 133-134) |
| `Sailboat.SailboatTransform.Requeue` | SailboatTransform.cpp:141-151 | requeue performs the requeue transition (see RequeueProperties) and keeps the object valid; the diagnostic of line 146 is never reached, because unqueue always finds a queued cell |
| `Sailboat.SailboatTransform.SetTime` | SailboatTransform.cpp:63-79 | setTime performs the setTime transition, after which a successful call reads back the time |
| `Sailboat.SailboatTransform.Interpolate` | SailboatTransform.cpp:240-257 | the interpolation loop computes the Interpolation search |
| `Sailboat.SailboatTransform.Update` | SailboatTransform.cpp:154-264 | update() performs the update transition (see UpdateFrame and UpdateLowers) |
| `Sailboat.SailboatTransform.Lower` | SailboatTransform.cpp:230-263 | the interpolating half of update() stores the improved time and requeues the cell, or changes nothing |
| `Sailboat.SailboatTransform.Pop` | SailboatTransform.cpp:267-275 | pop() performs the pop transition (see PopProperties) |
| `Sailboat.SailboatTransform.UpdateFirst` | SailboatTransform.cpp:286-298 | one neighbour update of propagate() leaves the remaining neighbours to update |
| `Sailboat.SailboatTransform.UpdateVertical` | SailboatTransform.cpp:286-291 | the south and north updates of propagate() |
| `Sailboat.SailboatTransform.UpdateHorizontal` | SailboatTransform.cpp:292-298 | the west and east updates of propagate() |
| `Sailboat.SailboatTransform.UpdateNeighbours` | SailboatTransform.cpp:286-298 | the four neighbour updates of propagate(), in its order |
| `Sailboat.SailboatTransform.Propagate` | SailboatTransform.cpp:278-301 | propagate() performs the propagate transition (see PropagateProperties) |
| `Sailboat.SailboatTransform.Round` | SailboatTransform.cpp:96-101 | one pass of compute's loop leaves the rest of the computation to the remaining fuel |
| `Sailboat.SailboatTransform.Compute` | SailboatTransform.cpp:93-102 | compute(ceiling) performs the compute transition, and it finishes exactly when the queue is empty or its top key lies above the ceiling |
| `Sailboat.SailboatTransform.Stat` | SailboatTransform.cpp:418-443 | stat() gives bounds on the finite time magnitudes that some cell attains (infinity and -infinity when there are none), and the first and last queue keys, which bound all keys (infinity and -infinity for an empty queue) |
| `Sailboat.SailboatTransform.GetTopKey` | SailboatTransform.cpp:446-453 | getTopKey is infinity for an empty queue, and otherwise the key of an entry that is not above any other |
| `Sailboat.SailboatTransform.DownwindGradient` | SailboatTransform.cpp:527-597 | the search loops of computeGradient compute the GradientFrom gradient |
| `Sailboat.SailboatTransform.ComputeGradient` | SailboatTransform.cpp:456-598 | computeGradient returns a cached gradient as stored, when the cache is in use and holds one; otherwise it returns the cell's gradient (see GradientCases) and stores it when the cache is in use; without the cache nothing changes |
| `Sailboat.SailboatTransform.ResetTime` | SailboatTransform.cpp:601-610 | resetTime returns every array to its constructor contents and empties the queue |
| `Distance.DistanceTransform.constructor` | DistanceTransform.cpp:45-58 | every value and lookahead is infinity, every key is -1, the queue is empty, and scale2 is the squared scale |
| `Distance.DistanceTransform.RequeueState` | DistanceTransform.cpp:132-171 | the requeue transition: the arrays keep their size (its effect in RequeueLeaves, RequeueEnters and RequeueProperties) |
| `Distance.DistanceTransform.RequeueLeaves` | DistanceTransform.cpp:143-153 | a lookahead that is not below the value takes the cell off the queue, and resets the lookahead to the value when the two differ |
| `Distance.DistanceTransform.RequeueEnters` | DistanceTransform.cpp:156-170 | a lookahead below the value leaves the cell with exactly one entry, keyed by the lookahead's magnitude, whether that entry was inserted, moved or already there |
| `Distance.DistanceTransform.RequeueProperties` | DistanceTransform.cpp:132-171 | requeue makes the one out-of-date cell consistent, keeps every value and every other cell's key and lookahead, and has one of the two outcomes above |
| `Distance.DistanceTransform.PopState` | DistanceTransform.cpp:257-265 | the pop transition: it returns a cell of the grid and keeps the array sizes (its effect in PopProperties) |
| `Distance.DistanceTransform.PopProperties` | DistanceTransform.cpp:257-265 | pop takes the cell of least key, whose value lies above its lookahead, and takes it off the queue |
| `Distance.DistanceTransform.NewRhs` | DistanceTransform.cpp:227-253 | the lookahead update() computes from a non-empty `props`: a two-point value or `primary + m_scale` (its properties in Interpolation and LookaheadCases) |
| `Distance.DistanceTransform.Lookahead` | DistanceTransform.cpp:181-253 | the lookahead of a non-fixed cell from its neighbours, infinity without propagators (its properties in LookaheadCases and LookaheadAtLeast) |
| `Distance.DistanceTransform.Interpolation` | DistanceTransform.cpp:232-250 | a two-point value is used only for a north or south primary, with a secondary in another column that is closer than the scale; when none is found, no such secondary is closer |
| `Distance.DistanceTransform.LookaheadCases` | DistanceTransform.cpp:181-252 | the new lookahead is infinity without propagators; otherwise it is the least propagator plus the scale, or the two-point value with a valid secondary |
| `Distance.DistanceTransform.UpdateState` | DistanceTransform.cpp:174-254 | the update transition: the array sizes are kept (its effect in UpdateFrame) |
| `Distance.DistanceTransform.PendingAfterLookahead` | DistanceTransform.cpp:250-253 | storing a new lookahead for a cell leaves that cell the only one that may be out of date, which the following requeue repairs |
| `Distance.DistanceTransform.UpdateFrame` | DistanceTransform.cpp:174-254 | update() never changes a value or another cell's key and lookahead, and skips a cell whose value is not positive; otherwise a lookahead not below the value takes the cell off the queue, and one below it becomes the cell's lookahead and its one entry's key |
| `Distance.DistanceTransform.UpdateAll` | DistanceTransform.cpp:276-288 | the neighbour updates of propagate(), one after another: the array sizes are kept (its effect in UpdateAllKeeps) |
| `Distance.DistanceTransform.UpdateAllAppend` | DistanceTransform.cpp:276-288 | updating the cells of one list and then another is the same as updating their concatenation |
| `Distance.DistanceTransform.UpdateAllKeeps` | DistanceTransform.cpp:276-288 | a sequence of updates keeps the state consistent, keeps every value, and keeps the other cells' keys and lookaheads |
| `Distance.DistanceTransform.Expanded` | DistanceTransform.cpp:270-298 | the popped cell's new value: its lookahead magnitude when that lies below the value (line 274), infinity otherwise (line 298); the array sizes are kept |
| `Distance.DistanceTransform.ExpandedConsistent` | DistanceTransform.cpp:270-298 | giving the popped cell, which is off the queue, its new value keeps the state consistent |
| `Distance.DistanceTransform.PropagateState` | DistanceTransform.cpp:268-316 | the propagate transition: the array sizes are kept (its effect in PropagateProperties) |
| `Distance.DistanceTransform.PropagateProperties` | DistanceTransform.cpp:268-316 | the popped cell always lies above its lookahead, so the "bug" branch is never taken; its value drops to its key and it leaves the queue |
| `Distance.DistanceTransform.ComputeState` | DistanceTransform.cpp:92-98 | the state compute() leaves is consistent |
| `Distance.DistanceTransform.ComputeStep` | DistanceTransform.cpp:92-98 | one pass of compute's loop on a non-empty queue: a propagation that keeps the state consistent, followed by the rest of the loop |
| `Distance.DistanceTransform.SetState` | DistanceTransform.cpp:61-78 | the set transition: the array sizes are kept (its effect in SetProperties) |
| `Distance.DistanceTransform.SeedPending` | DistanceTransform.cpp:73-75 | storing infinity and the negated distance for the cell leaves it the only cell that may be out of date, which the following requeue repairs |
| `Distance.DistanceTransform.SetProperties` | DistanceTransform.cpp:61-78 | set succeeds exactly for a non-negative distance inside the grid; the cell's value becomes infinity and a finite distance becomes a seed queued under it; a failed call changes nothing |
| `Distance.DistanceTransform.LookaheadAtLeast` | DistanceTransform.cpp:181-252 | a lookahead computed from values that are all at least m is at least m |
| `Distance.DistanceTransform.UpdateAtLeast` | DistanceTransform.cpp:174-254 | update() keeps a lower bound m on all values and lookaheads, and a settled cell stays settled |
| `Distance.DistanceTransform.UpdateAllAtLeast` | DistanceTransform.cpp:276-288 | the same for a sequence of updates |
| `Distance.DistanceTransform.PropagateAtLeast` | DistanceTransform.cpp:268-316 | propagate() keeps the lower bound, and a settled cell stays settled |
| `Distance.DistanceTransform.SetAtLeast` | DistanceTransform.cpp:61-78 | set() with a distance of at least m keeps the lower bound m |
| `Distance.DistanceTransform.FirstStepSettles` | DistanceTransform.cpp:268-289 | the first propagation from a single seed settles the seed at its key |
| `Distance.DistanceTransform.Get` | DistanceTransform.cpp:81-89 | get is infinity outside the grid (linear index only), and otherwise the cell's non-negative value |
| `Distance.DistanceTransform.Unqueue` | DistanceTransform.cpp:117-129 | unqueue succeeds exactly when the cell's key is non-negative, and removes the cell's entry |
| `Distance.DistanceTransform.Requeue` | DistanceTransform.cpp:132-171 | requeue performs the requeue transition, and the unqueue inside it always finds the entry |
| `Distance.DistanceTransform.Set` | DistanceTransform.cpp:61-78 | set() performs the set transition (see SetProperties) |
| `Distance.DistanceTransform.Interpolate` | DistanceTransform.cpp:235-250 | the interpolation loop computes the Interpolation search |
| `Distance.DistanceTransform.Update` | DistanceTransform.cpp:174-254 | update() performs the update transition (see UpdateFrame) |
| `Distance.DistanceTransform.Pop` | DistanceTransform.cpp:257-265 | pop() performs the pop transition (see PopProperties) |
| `Distance.DistanceTransform.UpdateFirst` | DistanceTransform.cpp:276-288 | one neighbour update of propagate() leaves the remaining neighbours to update |
| `Distance.DistanceTransform.UpdateVertical` | DistanceTransform.cpp:276-281 | the south and north updates of propagate() |
| `Distance.DistanceTransform.UpdateHorizontal` | DistanceTransform.cpp:282-288 | the west and east updates of propagate() |
| `Distance.DistanceTransform.UpdateNeighbours` | DistanceTransform.cpp:276-288 | the four neighbour updates of propagate(), in its order |
| `Distance.DistanceTransform.Propagate` | DistanceTransform.cpp:268-316 | propagate() performs the propagate transition; both branches update the same neighbours |
| `Distance.DistanceTransform.Round` | DistanceTransform.cpp:95-97 | one pass of compute's loop leaves the rest of the computation to the remaining fuel |
| `Distance.DistanceTransform.Compute` | DistanceTransform.cpp:92-98 | compute() performs the compute transition, and it finishes exactly when the queue is empty |
| `DistanceSuite.Scenario` | test.cpp:39-76 | the test's scenario: the first set succeeds, the out-of-grid set fails, and the seed reads back 1.0 after propagation |
| `Usd.Word` | usd/usdtrans.c:41-44 | a flag word lies below 16, and its FIXED bit is set exactly for a FIXED cell |
| `Usd.DecodeWord` | usd/usdtrans.c:41-44 | decoding a flag word gives back the flags, so distinct flags have distinct words |
| `Usd.RequeuedFlags` | usd/usdtrans.c:122-138 | after requeue both queue flags are set and FIXED is kept; UNKNOWN survives only when both queue flags were already set |
| `Usd.Requeued` | usd/usdtrans.c:122-138 | one queue's half of requeue: insert when the cell is not flagged for the queue; otherwise change (old, c) to (new, c): when that entry is present one copy of it leaves and one copy of the new entry arrives, and when it is absent nothing changes; other cells' entries are unchanged |
| `Usd.RequeuePositiveState` | usd/usdtrans.c:122-129 | the queue_positive half of requeue on the state (its effect in Requeued and RequeueHalves) |
| `Usd.RequeueNegativeState` | usd/usdtrans.c:131-138 | the queue_negative half of requeue on the state (its effect in Requeued and RequeueHalves) |
| `Usd.RequeueState` | usd/usdtrans.c:120-141 | requeue gives the cell its new distance and both queue flags, keeps it FIXED or not, and clears UNKNOWN when the flags were coherent; each queue holds (d, c) afterwards unless the cell was flagged for it without an entry at its old distance; no other cell or entry changes |
| `Usd.RequeueHalves` | usd/usdtrans.c:120-141 | the positive half, the negative half and the final distance store make up requeue |
| `Usd.RequeueKeeps` | usd/usdtrans.c:120-141 | requeue keeps the grid, flag-coherence and queue-flag invariants |
| `Usd.FixState` | usd/usdtrans.c:146 | the cell with its FIXED bit set and its other flags kept (the invariants it keeps in FixKeeps) |
| `Usd.FixKeeps` | usd/usdtrans.c:146 | setting the FIXED bit keeps the three invariants |
| `Usd.SeedState` | usd/usdtrans.c:144-148 | a seeded cell is FIXED, has the seed distance and both queue flags, and no other cell changes |
| `Usd.SeedKeeps` | usd/usdtrans.c:144-148 | seeding keeps the three invariants |
| `Usd.PartitionState` | usd/usdtrans.c:164-168 | usdtrans_partition on the state (its effect in PartitionProperties) |
| `Usd.PartitionProperties` | usd/usdtrans.c:164-168 | partition sets the distance and makes the flags exactly UNKNOWN without touching the queues; queue entries stay flagged only when the cell had none |
| `Usd.PartitionUnflags` | usd/usdtrans.c:164-168 | partitioning a seeded cell leaves its queue entries without their flags |
| `Usd.Try` | usd/usdtrans.c:223-228 | one try of update_* adds nothing when the neighbour does not exist (which entry it adds otherwise is stated in TryMembers) |
| `Usd.Tries` | usd/usdtrans.c:222-247 | the propagators heap from the four tries (its members in TriesMembers) |
| `Usd.KeyOf` | usd/usdtrans.c:226 | the propagator key: the distance in update_positive, its negation in update_negative (lines 297-316), so both read the nearest neighbour first from the min heap (its use in TriesMembers) |
| `Usd.Known` | usd/usdtrans.c:222-247 | the propagators update_* gathers: the south, north, west and east neighbours that are not UNKNOWN, under KeyOf (its members in TriesMembers and Gather) |
| `Usd.TryMembers` | usd/usdtrans.c:223-247 | one try adds exactly the neighbour's entry when the neighbour exists and is not UNKNOWN |
| `Usd.TriesMembers` | usd/usdtrans.c:222-247 | the propagators heap holds exactly the entries of the tried neighbours that exist and are not UNKNOWN, keyed by the (for update_negative, negated) distance |
| `Usd.Interpolated` | usd/usdtrans.c:264-267 | the two-point value `(bb + sqrt(root)) / 2` with a cell size of 1, negated in update_negative (lines 335-338) (its use in FirstGood and FromPrimary) |
| `Usd.Fallback` | usd/usdtrans.c:276 | the one-point value `primary_dist + 1.0`, or `- primary_dist - 1.0` in update_negative (line 347) (its use in NoGood and FromPrimary) |
| `Usd.FirstGood` | usd/usdtrans.c:259-271 | the loop stops at the first partner on the other axis that lies within 1.0 of the primary and improves the cell |
| `Usd.NoGood` | usd/usdtrans.c:276-279 | with no such partner, the one-point value is stored when it improves the cell |
| `Usd.RequeueTightens` | usd/usdtrans.c:268-279 | requeueing a cell that is not FIXED with an improving value changes that cell alone, towards the seeds |
| `Usd.FromPrimary` | usd/usdtrans.c:253-279 | what update_* does from its primary: requeue with the first qualifying partner's two-point value when it improves the cell, otherwise the one-point value when it improves, otherwise nothing (its consequences in FromPrimaryValue) |
| `Usd.FromPrimaryValue` | usd/usdtrans.c:259-279 | from a chosen primary, update either changes nothing or requeues the cell with an improving value |
| `Usd.UpdateOutcome` | usd/usdtrans.c:212-351 | what update_* may do: nothing for a FIXED cell or without propagators, otherwise FromPrimary from a propagator of least key (its consequences in UpdateOutcomeValue, UpdateOutcomeTightens and UpdateOutcomeKeeps) |
| `Usd.UpdateOutcomeValue` | usd/usdtrans.c:212-351 | update_* either changes nothing or requeues a cell that is not FIXED with an improving value |
| `Usd.UpdateOutcomeTightens` | usd/usdtrans.c:212-351 | update_* changes at most its own cell, never a FIXED one, and only towards the seeds: down in the positive pass, up in the negative pass |
| `Usd.UpdateOutcomeKeeps` | usd/usdtrans.c:212-351 | update_* keeps the three invariants |
| `Usd.Dequeued` | usd/usdtrans.c:357 | heap_pop removes exactly the popped entry from its own queue and changes nothing else |
| `Usd.DequeuedKeeps` | usd/usdtrans.c:357 | removing a queue entry keeps the three invariants |
| `Usd.DequeuedTightens` | usd/usdtrans.c:357 | removing a queue entry changes only that entry's cell's entries |
| `Usd.NeighbourSetCovers` | usd/usdtrans.c:358-370 | every neighbour that propagate_* updates lies in the grid and among the cell's neighbours |
| `Usd.Popped` | usd/usdtrans.c:357 | heap_pop on the chosen queue: the popped entry, or None on an empty queue, and the cell it names |
| `Usd.PoppedKeepsFlags` | usd/usdtrans.c:354-371 | propagate_* leaves the popped cell's own flags (its queue flag included) as they were, while one copy of its entry leaves the queue |
| `Usd.Initial` | usd/usdtrans.c:88-91 | the created state has every cell at USDTRANS_INFINITY and exactly UNKNOWN, with both queues empty, and meets the three invariants |
| `Usd.NewCells` | usd/usdtrans.c:66-91 | the cell arrays hold exactly the initial distances and flags |
| `Usd.NewQueues` | usd/usdtrans.c:73-81 | three distinct empty heaps: queue_positive (max) and queue_negative (min) of capacity dimx + dimy, and the propagators (min) of capacity 4 |
| `Usd.PopEntry` | usd/usdtrans.c:357 | heap_pop on a queue: None (index 0, the NULL cast to an index) exactly on an empty queue; otherwise an entry that is Above every entry, removed, with its cell as the index |
| `Usd.UsdTransform.constructor` | usd/usdtrans.c:57-106 | usdtrans_create: the initial state, with the queues and the propagators heap sized as in the source |
| `Usd.UsdTransform.InsertPositive` | usd/usdtrans.c:125-129 | clear UNKNOWN, set QUEUE_POSITIVE, and add exactly (d, index) to queue_positive |
| `Usd.UsdTransform.ChangePositive` | usd/usdtrans.c:122-124 | re-key the cell's queue_positive entry from its current distance to d, when that entry is present |
| `Usd.UsdTransform.InsertNegative` | usd/usdtrans.c:134-138 | clear UNKNOWN, set QUEUE_NEGATIVE, and add exactly (d, index) to queue_negative |
| `Usd.UsdTransform.ChangeNegative` | usd/usdtrans.c:131-133 | re-key the cell's queue_negative entry from its current distance to d, when that entry is present |
| `Usd.UsdTransform.RequeuePositive` | usd/usdtrans.c:122-129 | the queue_positive half of requeue |
| `Usd.UsdTransform.RequeueNegative` | usd/usdtrans.c:131-138 | the queue_negative half of requeue |
| `Usd.UsdTransform.SetDist` | usd/usdtrans.c:140 | the final store of the new distance |
| `Usd.UsdTransform.Requeue` | usd/usdtrans.c:120-141 | usdtrans_requeue performs RequeueState and keeps the queue-flag invariant |
| `Usd.UsdTransform.Seed` | usd/usdtrans.c:144-148 | usdtrans_seed performs SeedState: the cell reads back the distance and is FIXED |
| `Usd.UsdTransform.MarkFixed` | usd/usdtrans.c:146 | sets the FIXED bit |
| `Usd.UsdTransform.Seed2` | usd/usdtrans.c:151-161 | -1 exactly for a cell outside the grid, changing nothing; otherwise 0, and the cell ix + dimx * iy is seeded, reads back the distance and has its FIXED bit set |
| `Usd.UsdTransform.Partition` | usd/usdtrans.c:164-168 | usdtrans_partition performs PartitionState |
| `Usd.UsdTransform.Partition2` | usd/usdtrans.c:171-181 | -1 exactly outside the grid, changing nothing; otherwise 0, and the cell is partitioned: it reads back the distance and its flag word is UNKNOWN |
| `Usd.UsdTransform.Get2` | usd/usdtrans.c:184-195 | the cell's distance exactly for an in-grid cell, and None (NAN) outside |
| `Usd.UsdTransform.FGet2` | usd/usdtrans.c:198-209 | -1 exactly outside the grid; otherwise a word below 16 that decodes to the cell's flags |
| `Usd.UsdTransform.ResetPropagators` | usd/usdtrans.c:222 | empties the propagators heap |
| `Usd.UsdTransform.Offer` | usd/usdtrans.c:225-227 | a neighbour joins the propagators exactly when it is not UNKNOWN, keyed by its distance (negated for update_negative) |
| `Usd.UsdTransform.OfferIf` | usd/usdtrans.c:223-228 | one guarded try adds Try's entries |
| `Usd.UsdTransform.CollectVertical` | usd/usdtrans.c:223-234 | the south and north tries add exactly their entries |
| `Usd.UsdTransform.CollectHorizontal` | usd/usdtrans.c:235-247 | the west and east tries add exactly their entries |
| `Usd.UsdTransform.DropTop` | usd/usdtrans.c:259 | heap_pop on the propagators removes exactly the top pair |
| `Usd.UsdTransform.TakePrimary` | usd/usdtrans.c:253-257 | the primary is a propagator of least key, and it is removed |
| `Usd.UsdTransform.TryFallback` | usd/usdtrans.c:276-279 | the one-point value is requeued exactly when it improves the cell |
| `Usd.UsdTransform.RequeueFirstGood` | usd/usdtrans.c:261-271 | the first partner that qualifies requeues the cell with its two-point value |
| `Usd.UsdTransform.ScanStep` | usd/usdtrans.c:259-274 | one pass of the loop: either the top is the first partner that qualifies and the cell is requeued, or the top is popped and nothing else changes |
| `Usd.UsdTransform.Scan` | usd/usdtrans.c:259-279 | the loop and its fallback for a primary (see FromPrimary) |
| `Usd.UsdTransform.Gather` | usd/usdtrans.c:222-247 | after the reset and the four tries, the propagators are exactly the cell's known neighbours |
| `Usd.UsdTransform.UpdateFrom` | usd/usdtrans.c:249-279 | with propagators present, the result comes from a propagator of least key as primary ([FromLeast]) |
| `Usd.UsdTransform.Update` | usd/usdtrans.c:212-351 | update_positive and update_negative: nothing for a FIXED cell or one without propagators; otherwise the outcome from a least propagator; keeps the queue-flag invariant |
| `Usd.UsdTransform.UpdateFree` | usd/usdtrans.c:222-279 | update_* after its FIXED test |
| `Usd.UsdTransform.PopPositive` | usd/usdtrans.c:357 | heap_pop on queue_positive, as in PopEntry |
| `Usd.UsdTransform.PopNegative` | usd/usdtrans.c:377 | heap_pop on queue_negative, as in PopEntry |
| `Usd.UsdTransform.UpdateCell` | usd/usdtrans.c:359 | one update_* call on an in-grid cell has UpdateOutcome as its outcome, so it changes only that cell, never a FIXED one, and only towards the seeds |
| `Usd.UsdTransform.UpdateIf` | usd/usdtrans.c:358-359 | one guarded update_* call: UpdateOutcome on the neighbour when its guard holds, and no change at all otherwise |
| `Usd.UsdTransform.UpdateVertical` | usd/usdtrans.c:358-363 | the guarded south update (cell index - dimx, when index >= dimx) leads to the returned state mid, and the guarded north update (cell index + dimx, below the top row) leads from mid to the new state |
| `Usd.UsdTransform.UpdateHorizontal` | usd/usdtrans.c:364-370 | the guarded west update (cell index - 1, off the left column) leads to mid, and the guarded east update (cell index + 1, off the right column) leads from mid to the new state |
| `Usd.UsdTransform.UpdateNeighbours` | usd/usdtrans.c:358-370 | the four guarded updates run in the order south, north, west, east through the states s1, s2 and s3 (NeighboursUpdated); together they change only the cell's neighbours, never a FIXED cell, and only towards the seeds |
| `Usd.UpdatedIfTightens` | usd/usdtrans.c:358-370 | a guarded update of a neighbour in the set c changes only cells of c, never a FIXED one, only towards the seeds |
| `Usd.NeighboursUpdatedTightens` | usd/usdtrans.c:358-370 | the south, north, west, east chain of updates changes only the cell's neighbours, never a FIXED one, only towards the seeds |
| `Usd.UsdTransform.Propagate` | usd/usdtrans.c:354-391 | propagate_positive and propagate_negative: pop an entry that is Above all others (cell 0 when the queue is empty); from the dequeued state, update_* runs on the in-grid south, north, west and east neighbours in that order, each step's outcome being UpdateOutcome (NeighboursUpdated through s1, s2, s3); only those neighbours change, never a FIXED cell, only towards the seeds, and the invariants are kept |
| `Usd.UsdTransform.AtBoundHalted` | usd/usdtrans.c:396-399 | the top of the heap is beyond the bound exactly when some queued key is, or the queue is empty |
| `Usd.UsdTransform.Stopped` | usd/usdtrans.c:396-399 | the loop test of compute_* |
| `Usd.UsdTransform.Compute` | usd/usdtrans.c:394-413 | compute_positive and compute_negative: no FIXED cell changes and no distance moves away from the seeds; the loop finishes exactly when the queue is empty or its top is beyond the bound |
| `Usd.UsdTransform.Step` | usd/usdtrans.c:396-400 | one pass of the loop: a propagation, then the exit test |
| `Usd.UsdTransform.PropagateLowers` | usd/usdtrans.c:400 | propagating from a non-empty queue keeps every change since the start of compute within the allowed ones |
| `Usd.UsdTransform.ComputeAll` | usd/usdtrans.c:416-420 | usdtrans_compute: the positive pass takes the state to mid, moving distances only down, then the negative pass takes mid to the final state, moving distances only up; no FIXED cell changes and the queue-flag invariant is kept; finished exactly when queue_positive was halted at range in mid and queue_negative is halted at -range at the end |

## Left out

- The IO and front-end code is not part of this model: png input and output, the GUI, the command-line tools, the Python binding, the top-level `usdtrans.c` and `heap.h`, and the `dump`, `dumpQueue`, `pnum6`, `pval` and `main` printing. `usdtrans_destroy` and `heap_destroy` only free memory and are left out too.
- Floating point: doubles are exact reals, so rounding, NaN and overflow are not modelled. `pow(x, 2)` is `x * x`. `sqrt` is a function parameter, assumed non-negative only where a lemma says so.
- Allocation failure is not modelled, so every `calloc` and `realloc` succeeds. The -1 results of `heap_grow` and `heap_insert`, and the NULL results of `heap_create`, `heap_clone` and `usdtrans_create`, are left out.
- `BinaryHeap.Heap.ChangeKey`: the -2 result for a heap whose comparison is neither of the two library functions is left out. The model's heaps are always max or min heaps.
- `Sailboat.SailboatTransform.Compute`, `Distance.DistanceTransform.Compute`, `Usd.UsdTransform.Compute` and `Usd.UsdTransform.ComputeAll`: each loop runs for at most `fuel` passes. A run that hits the fuel bound reports that it did not finish. Termination of the source's unbounded loops is not proved.
- `Sailboat.SailboatTransform.ComputeGradient`: requires the cell's linear index to lie in the grid, because the source indexes `m_value` without a bounds test. The header's promise of a zero gradient outside the grid is not what the code does.
- `Sailboat.SailboatTransform.GetTopKey`: states "infinity for an empty queue" in one direction only. An entry keyed at `infinity` (DBL_MAX) also yields infinity.
- The debugging overloads `compute(ceiling, dbg_fp, dbg_prefix)` (SailboatTransform.cpp:105-121) and `compute(dbg_fp, dbg_prefix)` (DistanceTransform.cpp:99-110) are left out. They run the same loop as `compute` and only add printing.
- The speed model of `SailboatTransform` (`m_model != NULL`), which ends in `abort()`, is left out. The model is update() with `radius = m_scale`.
- `Usd.UsdTransform.Update`: among propagators with equal keys, the heap's own tie-break is not modelled. The contract allows any propagator of least key as the primary.
- `Usd.PopEntry`: among queue entries with equal keys, the heap's tie-break is not modelled either. It may return any entry that is Above all others, and so may `Usd.UsdTransform.PopPositive`, `Usd.UsdTransform.PopNegative` and `Usd.UsdTransform.Propagate`.
- `Usd.UsdTransform.Propagate`: requires a non-empty grid. In an empty grid, `heap_pop` returns NULL, so index is 0 (usd/usdtrans.c:354-371). With `dimx == 0`, the south test `index >= usd->dimx` holds, so `usdtrans_update_*` reads `flags[0]` of empty arrays before `index % usd->dimx` divides by zero. With `dimy == 0`, the wrapped `toprow` admits the north update of cell `dimx`, outside the arrays.
- The `size_t` wrap-around of `toprow = ncells - dimx` and `rightcol = dimx - 1` only matters in an empty grid, where no cell exists. The model uses the unwrapped tests `index + dimx < ncells` and `ix + 1 < dimx`.
- The flag word is modelled as four booleans. `Usd.Word` and `Usd.DecodeWord` give the bit layout 0x01, 0x02, 0x04, 0x08.
- `usdtrans_partition` can leave a cell on a queue without its queue flag (`Usd.PartitionUnflags`). That is why the queue-flag invariant `Usd.Flagged` is not claimed across `Partition`.
- `usdtrans_compute` does not promise that queue_positive stays halted after the negative pass, because update_negative requeues cells on both queues. `Usd.UsdTransform.ComputeAll` states queue_positive's halt in the state mid between the passes.

## Findings

| source | as written | input that shows it | evidently intended | confidence | as-written member | corrected member |
|---|---|---|---|---|---|---|
| heap.c:108-124 | `heap_grow` sets the capacity to `2 * capacity`, which stays 0 for a heap of capacity 0, and `heap_insert` then writes `key[1]` and `value[1]` of one-slot arrays | `heap_clone` of an empty heap, then `heap_insert` on the clone: usd/heap.h promises a clone whose capacity is exactly the original's length (here 0), and it forbids capacity 0 only for `maxheap_create` and `minheap_create` | growth always makes room for one more element | not executed | `BinaryHeap.GrowAsWrittenStaysFull` | `BinaryHeap.GrownCapacity` |
