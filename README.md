# SimultaneousLab1 crystal model

A Dafny model of the sequential core of SimultaneousLab1's particle-diffusion
crystal. A crystal is a fixed-length array of cell counters. Its particles
do a bounded random walk over the cells. Every step of a particle is a
`MoveParticle(from, to)` that takes one unit from cell `from` and adds one
to cell `to`. The three crystal variants do the same array change:

- `CrystalInvalid` takes no lock;
- `CrystalGlobalMutex` holds one global mutex around the change;
- `CrystalLocalMutex` holds the mutexes of both cells, the higher cell's taken first.

The model executes the moves of a run one at a time, which is what the two
locking variants aim to guarantee. It proves that a run executed this way
keeps three invariants: every particle is inside the array, the array is
the histogram of the particles' positions, and its sum is the particle
count. The last of these is what the integrity check tests at the end of a run.

Files:

- `cellarray.dfy` (module `CellArray`): counters as values. It defines `Sum`, `Count`, `Histogram` and `Moved`, the change one move makes, with their lemmas.
- `locks.dfy` (module `LockOrder`): the three strategies and the mutex events one move performs. It also has a replay of a trace that checks release order, and lemmas on acquisition order.
- `walk.dfy` (module `Walk`): the pure part of a particle, in four pieces:
  - the clamped step `Target`;
  - one tick, `Next`;
  - a serialised run of ticks over all particles, `Simulate`, with the tick counters it leaves (`TicksAfter`) and the mutex events it performs (`RunLockTrace`);
  - the number of ticks a particle's loop performs before it honours its stop flag, where those ticks take it (`LoopIndex`) and the mutex events they perform (`LoopLockTrace`).
- `model.dfy` (module `Model`): the classes `Crystal` and `Particle`, with the fields the source updates in place. They share one module because each refers to the other.

How the source is rendered:

- The three C# subclasses become one class with a `strategy` constant. `MoveParticle` dispatches on it to `MoveInvalid`, `MoveGlobalMutex` or `MoveLocalMutex`.
- The mutexes are modelled only as a ghost log, `LockLog`, of `Acquire`/`Release` events.
- The two random draws of a tick become a `Choice` parameter: `Stay`, or `Hop(Down)` / `Hop(Up)`.
- The concurrent run window becomes a `schedule` parameter of `Start`. It is the serialised sequence of ticks, each naming the particle that performs it.
- The controller's stop signal, as one particle's loop sees it, becomes a `stopArrives` flag on each loop iteration.

The per-cell variant takes the higher cell's mutex first, then the lower
one (Model/Crystal.cs:184-185), and releases them in the opposite order;
the model and its lemmas use this descending order.

## Model

| member | source | states |
|---|---|---|
| `Model.Crystal.constructor` | Model/Crystal.cs:20-29 | The crystal has the given cell and particle counts, a fresh array of zero counters, no particles and is not running. It requires that the particle count plus the controller fit a `Barrier` (at most 32767 participants). |
| `Model.Crystal.Start` | Model/Crystal.cs:31-80 | A second call while running fails with `AlreadyRunning` and changes nothing. With zero cells the write to cell 0 fails, leaving the crystal running with its particles spawned, all in cell 0 with no tick done. Otherwise it returns the histogram of the serialised run's final positions, the sum equalling the particle count, a passed integrity check and a tick total equal to the number of ticks. Afterwards every cell is 0, the particle list is empty and the crystal is not running. The lock log grows by exactly the mutex events of the serialised run (`RunLockTrace`), and replaying them from no mutex held ends with none held. On the two failure paths the lock log is unchanged. |
| `Model.Crystal.SpawnParticles` | Model/Crystal.cs:38-44 | Appends one fresh particle per unit of the particle count, each with its own index, in cell 0, with no tick done and no stop requested. |
| `Model.Crystal.ClearCells` | Model/Crystal.cs:47 | Every counter is 0 afterwards (the same loop clears the array again at Model/Crystal.cs:73). |
| `Model.Crystal.Run` | Model/Crystal.cs:49-79 | Starting from spawned particles and cleared cells, it arms cell 0 with the particle count and runs the schedule. The report is then the histogram of where the schedule takes the particles, with sum equal to the particle count, a passed check and one tick per scheduled turn; the crystal ends cleared and not running. The lock log grows by exactly `RunLockTrace` of the schedule from cell 0, and those events leave no mutex held. |
| `CellArray.ColocatedHistogram` | Model/Crystal.cs:47-49 | With every particle in cell 0, cell 0 holds the particle count, every other cell holds 0, and the sum is the particle count. |
| `Model.Crystal.RunSerialised` | Model/Crystal.cs:53-60 | The ticks of the run window, executed one at a time, keep the crystal consistent. They move the particles exactly as `Simulate` does. Each particle's tick counter grows by the number of turns that name it (`TicksAfter`), so the tick sum grows by the schedule's length. The lock log grows by exactly `RunLockTrace`. The stop flags are outside its frame. |
| `Model.Crystal.RunTurn` | Model/Particle.cs:53 | One scheduled tick of a named particle keeps the crystal consistent. It changes that particle's position as `Next` says and adds one to its tick counter, leaving every other position and counter unchanged. The lock log grows by that tick's mutex events (`TickLockTrace`): none for `Stay`, the variant's events for the move otherwise. The stop flags are outside its frame. |
| `Walk.TickLockTrace` | Model/Particle.cs:65-80 | A tick's mutex events, replayed from no mutex held, never take a mutex twice and end with none held. They are empty for a tick that stays; a hop, even one the clamp turns into a move within one cell, performs exactly the events of the move from the old index to the clamped target. |
| `Walk.TicksAfterSnoc` | Model/Crystal.cs:53-60 | One more turn adds one to the counter of the particle it names and changes no other counter. |
| `Walk.TicksAfterSum` | Model/Crystal.cs:100-103 | When every turn names an existing particle, the tick counters after a run sum to the counters before plus the number of turns. |
| `CellArray.CountSnoc` | Model/Particle.cs:65 | Appending an element adds one to its own count and leaves every other count unchanged. |
| `Walk.ScheduledSnoc` | Model/Crystal.cs:53-60 | The number of turns naming a particle grows by one exactly when the next turn names it. |
| `Walk.TurnExtendsTrace` | Model/Crystal.cs:53-60 | An unfolding lemma for the lock log of a schedule's prefixes: the log of the run up to turn `j + 1` is the log up to turn `j` followed by turn `j`'s mutex events. |
| `Walk.RunReleasesAll` | Model/Crystal.cs:153-192 | The mutex events of any serialised run, replayed from no mutex held, never take a mutex twice and end with none held. |
| `Walk.InvalidRunTakesNoMutex` | Model/Crystal.cs:137-141 | A run of the lock-free variant performs no mutex event at all. |
| `LockOrder.ReplayAppend` | Model/Crystal.cs:153-192 | Replaying two traces one after the other is replaying the first and then the second from where the first left the held mutexes. |
| `Model.Crystal.StopAll` | Model/Crystal.cs:62 | Every particle's stop flag is set, and no position or tick counter changes. |
| `Model.Crystal.FinishRun` | Model/Crystal.cs:62-79 | The report is the final histogram, a sum equal to the particle count, a passed check and the tick sum. The cells are cleared, the list emptied and the running flag reset. |
| `Model.Crystal.MoveParticle` | Model/Crystal.cs:115 | Each variant decrements the source cell and increments the target cell, leaving every other cell unchanged. It appends exactly that variant's mutex events to the lock log. |
| `Model.Crystal.MoveInvalid` | Model/Crystal.cs:137-141 | The counters change by one departure from `fromIndex` and one arrival at `toIndex`; no mutex is touched. |
| `Model.Crystal.MoveGlobalMutex` | Model/Crystal.cs:153-161 | The same counter change, bracketed by acquiring and releasing the one global mutex. |
| `Model.Crystal.MoveLocalMutex` | Model/Crystal.cs:176-192 | The same counter change. It acquires the higher cell's mutex, then the lower's, and releases them lower first; a move within one cell returns without touching a mutex or a counter. |
| `CellArray.MovedSum` | Model/Crystal.cs:139-140 | A move between two cells of the array keeps the sum of the counters. A move from a cell to itself changes nothing. |
| `CellArray.HistogramRelocate` | Model/Particle.cs:79-80 | Moving particle `k` to cell `t` changes the histogram of positions exactly as a move from its old cell to `t` changes the counters. |
| `CellArray.HistogramSum` | Model/Crystal.cs:119-123 | When every particle is inside the array, the histogram of their positions sums to the number of particles. |
| `CellArray.CountBound` | Model/Crystal.cs:139-140 | No cell of a histogram counts more particles than there are. |
| `LockOrder.MoveReleasesAll` | Model/Crystal.cs:153-192 | For every variant and every pair of cells, a move releases each mutex it acquires, in reverse order of acquisition. It never acquires a mutex it holds, and holds none when it returns. |
| `LockOrder.NestedPairReplays` | Model/Crystal.cs:184-191 | Two distinct mutexes, the second taken inside the first and released before it, replay from no mutex held to none held. |
| `LockOrder.LocalMoveAcquires` | Model/Crystal.cs:178-185 | A per-cell move between distinct cells acquires exactly the two cells' mutexes, `max(from, to)` first and `min(from, to)` second. A move within one cell acquires none. The acquisition order is descending. |
| `LockOrder.LocalTraceSymmetric` | Model/Crystal.cs:178-179 | The per-cell mutex events of a move depend only on the unordered pair `{from, to}`. |
| `LockOrder.LocalMovesNeverCross` | Model/Crystal.cs:184-185 | No two per-cell moves acquire the same two mutexes in opposite orders, the situation a two-move deadlock needs. |
| `LockOrder.Acquired` | Model/Crystal.cs:184-185 | A mutex is among those a trace acquires exactly when the trace has an `Acquire` event for it. |
| `Model.Crystal.ConsistentCells` | Model/Crystal.cs:119-123 | In a consistent crystal the counters sum to the particle count. Every counter lies between 0 and the particle count, below the 32-bit limit. |
| `Model.Crystal.IntegrityCheck` | Model/Crystal.cs:117-127 | The check reports the sum of all counters and passes exactly when that sum equals the particle count. On a consistent crystal, which every serialised run keeps, the sum is the particle count and the check passes. |
| `Model.Crystal.TicksPerformed` | Model/Crystal.cs:100-103 | The reported total is the sum of every particle's tick counter. |
| `Model.Crystal.RelocateKeepsConsistent` | Model/Particle.cs:79-80 | Suppose only particle `k` changed, it stays inside the array, and the counters changed as a move from its old cell to its new one. Then the crystal is still consistent, and only entry `k` of the positions and of the tick counters changed. |
| `Model.Particle.constructor` | Model/Particle.cs:23-34 | A new particle belongs to its crystal, has its index, sits in cell 0, has done no tick and has no stop request. |
| `Model.Particle.Stop` | Model/Particle.cs:41-44 | The stop flag is set, and nothing else changes. |
| `Model.Particle.Tick` | Model/Particle.cs:63-81 | The tick counter grows by exactly 1 whether or not the particle moves. A `Stay` choice calls no move and changes no index, counter or lock. A hop moves from the old index to the clamped target, then sets the index to that target. The crystal stays consistent, so the array remains the histogram of positions. |
| `Walk.Target` | Model/Particle.cs:70-77 | From an index inside the array, the target is inside the array and at most one cell away. It equals the current index exactly at a boundary: index 0 stepping down, or the last index stepping up. Otherwise it is the index plus the step. |
| `Walk.Next` | Model/Particle.cs:65-80 | After one tick the index is inside the array and at most one cell from where it was. With `Stay` it is unchanged. |
| `Model.BoundaryHopIsNoOp` | Model/Particle.cs:73-79 | A step off either end targets the current cell, so the move is called with `from == to`. It changes no counter, and the per-cell variant takes no mutex for it. |
| `Walk.SimulateSnoc` | Model/Crystal.cs:53-60 | An unfolding lemma for the prefixes of a schedule: the run up to turn `j + 1` is the run up to turn `j` followed by turn `j`, which changes only the named particle, as `Next` says. |
| `Walk.SimulateInBounds` | Model/Particle.cs:73-77 | A serialised run of any length keeps every particle inside the array. |
| `Walk.SerialRunKeepsIntegrity` | Model/Crystal.cs:119-123 | For any number of particles starting in cell 0 and any serialised sequence of ticks, the histogram of the final positions sums to the particle count. |
| `Model.Particle.Loop` | Model/Particle.cs:46-61 | The loop ticks and then tests the stop flag. It ends with the flag set and keeps the crystal consistent. It performs `LoopTicks` ticks, at most one per supplied step, and the particle ends where `Next` takes it over the choices of those ticks (`LoopIndex`). The lock log grows by exactly the mutex events of those ticks (`LoopLockTrace`), and they leave no mutex held. |
| `Model.Particle.LoopIteration` | Model/Particle.cs:53-57 | One pass of the loop body adds one to the tick counter, moves the particle as `Next` says and appends that tick's mutex events (`TickLockTrace`). The stop flag is set afterwards exactly when it was set before or the stop request arrived during this pass. |
| `Walk.LoopExtendsTrace` | Model/Particle.cs:51-57 | An unfolding lemma for the lock log of a loop: the log after `n + 1` passes is the log after `n` passes followed by pass `n`'s mutex events. |
| `Walk.LoopReleasesAll` | Model/Particle.cs:51-57 | The mutex events of any number of loop passes leave no mutex held and never take one twice. When every choice was to stay, they are empty. |
| `Walk.LoopIndexBounds` | Model/Particle.cs:51-57 | However many iterations the loop runs, the particle stays inside the array and at most one cell per iteration from where it started. When every choice so far was to stay, it has not moved. |
| `Walk.LoopTicksUntilStop` | Model/Particle.cs:51-57 | The loop performs at least one tick, and exactly one when stop was already requested. Its last tick is the iteration in which the stop request arrived, and no earlier iteration saw one. |

## Left out

- Threads, the start and stop `Barrier` rendezvous, and the real mutual exclusion of `Mutex`. Their point is concurrency, which this sequential model does not have. Mutexes appear only as the event log `LockLog`.
- The lost-update race of `CrystalInvalid` under parallel execution. A sequential model cannot exhibit it; only the variant's sequential effect is modelled.
- `Random` draws and the `double` move probability. They are a library and floating point. The decision and the direction are the `Choice` parameter of `Particle.Tick`; an even draw maps to `Down` and an odd one to `Up`.
- Wall-clock timing, `Thread.Sleep` and `Thread.Yield`, both in the controller's observation loop and in the particle loop. The length of a run is the length of its schedule.
- Console output: `PrintSnapshot`, the message strings and the `N0` number format. The model keeps only the final snapshot (Model/Crystal.cs:67, the report's `finalCells`), the sum, the pass/fail boolean and the integer tick total. The initial snapshot (Model/Crystal.cs:51) and the periodic snapshots of the observation loop (Model/Crystal.cs:58) are dropped.
- The `Main` program (SimultaneousLab1/Program.cs), which only constructs the three variants and calls `Start`. It is not part of this model.
- Model.Crystal.Start: the concurrent run window is replaced by a serialised schedule. Interleavings that the locks do not serialise (the `CrystalInvalid` race) are not covered.
- Model.Particle.Loop: runs in which the stop request never arrives are excluded by its precondition `EndsWithin`, because the supplied choices must end. The model places the controller's `Stop()` call inside the iteration in which it lands.
- Model.Crystal.MoveParticle: the model does not write out 32-bit wrap-around of the counters or the overflow check of `Sum()`. `Model.Crystal.ConsistentCells` shows that neither can occur in a consistent crystal, since every counter and the sum stay within 0 .. 32766.
- Model.Particle.Tick: the 64-bit `TickCount` is an unbounded integer. Overflow would need more than 9.2·10^18 ticks.
- Model.Crystal.constructor: negative counts are excluded by the `nat` types. A negative cell count makes `new int[cells]` throw. A particle count below -1 makes `new Barrier(particles + 1)` throw. A particle count of -1 gives a legal barrier of 0 participants; `Start` would then set the running flag, write -1 to cell 0 and throw at the first `SignalAndWait` (Model/Crystal.cs:53).
