/**
 The crystal and its particles as objects. A `Crystal` owns the cell
 array, the list of particles and the running flag; its three variants differ
 only in the mutexes a move takes. A `Particle` owns its cell index, its tick
 counter and its stop flag, and moves through the crystal it belongs to.

 Threads, barriers and real mutual exclusion are not part of this model:
 the moves of a run are executed one at a time, in an order given as a
 parameter, which is what the global and the per-cell mutexes aim to
 guarantee.
 */
module Model {
  import opened CellArray
  import opened LockOrder
  import opened Walk

  /** The largest number of participants a `Barrier` accepts. */
  const MaxBarrierParticipants: nat := 32767

  /** The largest value of a 32-bit signed integer, the type of a cell counter. */
  const MaxInt32: int := 0x7FFF_FFFF

  datatype StartError =
    | AlreadyRunning       // Start called while a run is in progress
    | CellIndexOutOfRange  // a crystal of zero cells has no cell 0 to fill

  /** What a completed run reports: the final snapshot, the integrity check and the tick total. */
  datatype RunReport = RunReport(finalCells: seq<int>, cellSum: int, integrityPassed: bool, totalTicks: int)

  datatype StartResult = Completed(report: RunReport) | Failed(error: StartError)

  predicate Distinct<T(==)>(s: seq<T>)
  {
    forall i, j :: 0 <= i < j < |s| ==> s[i] != s[j]
  }

  /** The cell index of each particle of `ps`. */
  ghost function PositionsOf(ps: seq<Particle>): (positions: seq<int>)
    reads ps
    ensures |positions| == |ps|
    ensures forall i :: 0 <= i < |ps| ==> positions[i] == ps[i].arrayIndex
  {
    seq(|ps|, i reads ps requires 0 <= i < |ps| => ps[i].arrayIndex)
  }

  /** The tick counter of each particle of `ps`. */
  ghost function TickCountsOf(ps: seq<Particle>): (counts: seq<int>)
    reads ps
    ensures |counts| == |ps|
    ensures forall i :: 0 <= i < |ps| ==> counts[i] == ps[i].tickCount
  {
    seq(|ps|, i reads ps requires 0 <= i < |ps| => ps[i].tickCount)
  }

  /**
   A step off either end of the array is a move from a cell to itself: it
   changes no counter, and the per-cell variant takes no mutex for it.
   */
  lemma BoundaryHopIsNoOp(cells: nat, counters: seq<int>, index: int, d: Direction)
    requires |counters| == cells
    requires (index == 0 && d == Down && cells >= 1) || (index == cells - 1 && d == Up && index >= 0)
    ensures Target(index, cells, d) == index
    ensures Moved(counters, index, Target(index, cells, d)) == counters
    ensures MoveLockTrace(LocalMutex, index, Target(index, cells, d)) == []
  {
    MovedSum(counters, index, index);
  }

  class Crystal {
    const strategy: Strategy
    const Cells: nat
    const particles: nat
    const cellsArray: array<int>
    var isRunning: bool
    var particlesList: seq<Particle>
    /** The mutex events of all moves so far. */
    ghost var LockLog: seq<LockEvent>

    /** The structure every crystal keeps, running or not. */
    ghost predicate Valid()
      reads this`isRunning, this`particlesList
    {
      && cellsArray.Length == Cells
      && particles < MaxBarrierParticipants
      && Distinct(particlesList)
      && (forall i :: 0 <= i < |particlesList| ==> particlesList[i].crystal == this)
      && (!isRunning ==> particlesList == [])
    }

    ghost function Positions(): seq<int>
      reads this`particlesList, particlesList
    {
      PositionsOf(particlesList)
    }

    ghost function TickCounts(): seq<int>
      reads this`particlesList, particlesList
    {
      TickCountsOf(particlesList)
    }

    /**
     The invariant of a run whose moves are serialised: one particle per
     unit of the particle count, every particle inside the array, and the
     array equal to the histogram of the particles' positions.
     */
    ghost predicate Consistent()
      reads this`isRunning, this`particlesList, cellsArray, particlesList
    {
      && Valid()
      && Cells >= 1
      && |particlesList| == particles
      && InBounds(Positions(), Cells)
      && cellsArray[..] == Histogram(Positions(), Cells)
    }

    /**
     In a consistent crystal the integrity check passes, and every counter
     lies between 0 and the particle count, so no counter can wrap around.
     */
    lemma ConsistentCells()
      requires Consistent()
      ensures Sum(cellsArray[..]) == particles
      ensures forall i :: 0 <= i < Cells ==> 0 <= cellsArray[i] <= particles < MaxInt32
    {
      HistogramSum(Positions(), Cells);
      forall i | 0 <= i < Cells ensures cellsArray[i] <= particles {
        assert cellsArray[i] == cellsArray[..][i];
        CountBound(Positions(), i);
      }
    }

    /**
     A tick of particle `k` keeps the crystal consistent: when only that
     particle changed and the counters changed as a move from its old cell
     to its new one, the array is still the histogram of the positions.
     */
    twostate lemma RelocateKeepsConsistent(k: nat)
      requires old(Consistent())
      requires unchanged(this`isRunning, this`particlesList)
      requires k < |particlesList|
      requires forall j :: 0 <= j < |particlesList| && j != k ==> unchanged(particlesList[j])
      requires 0 <= particlesList[k].arrayIndex < Cells
      requires cellsArray[..] == Moved(old(cellsArray[..]), old(particlesList[k].arrayIndex), particlesList[k].arrayIndex)
      ensures Consistent()
      ensures Positions() == old(Positions())[k := particlesList[k].arrayIndex]
      ensures TickCounts() == old(TickCounts())[k := particlesList[k].tickCount]
    {
      var p := particlesList[k];
      assert Positions() == old(Positions())[k := p.arrayIndex] by {
        assert forall j :: 0 <= j < |particlesList| ==> Positions()[j] == old(Positions())[k := p.arrayIndex][j];
      }
      assert TickCounts() == old(TickCounts())[k := p.tickCount] by {
        assert forall j :: 0 <= j < |particlesList| ==> TickCounts()[j] == old(TickCounts())[k := p.tickCount][j];
      }
      HistogramRelocate(old(Positions()), Cells, k, p.arrayIndex);
    }

    constructor (strategy: Strategy, cells: nat, particles: nat)
      requires particles + 1 <= MaxBarrierParticipants
      ensures Valid() && !isRunning
      ensures this.strategy == strategy && Cells == cells && this.particles == particles
      ensures fresh(cellsArray) && cellsArray[..] == Zeros(cells)
      ensures particlesList == [] && LockLog == []
    {
      this.strategy := strategy;
      Cells := cells;
      this.particles := particles;
      cellsArray := new int[cells](_ => 0);
      isRunning := false;
      particlesList := [];
      LockLog := [];
    }

    /** One move of a particle from cell `fromIndex` to cell `toIndex`, under this crystal's strategy. */
    method MoveParticle(fromIndex: int, toIndex: int)
      requires Valid()
      requires 0 <= fromIndex < Cells && 0 <= toIndex < Cells
      modifies cellsArray, this`LockLog
      ensures cellsArray[..] == Moved(old(cellsArray[..]), fromIndex, toIndex)
      ensures LockLog == old(LockLog) + MoveLockTrace(strategy, fromIndex, toIndex)
    {
      match strategy
      case Invalid => MoveInvalid(fromIndex, toIndex);
      case GlobalMutex => MoveGlobalMutex(fromIndex, toIndex);
      case LocalMutex => MoveLocalMutex(fromIndex, toIndex);
    }

    /** The unsynchronised move: decrement the source cell, increment the target cell. */
    method MoveInvalid(fromIndex: int, toIndex: int)
      requires Valid()
      requires 0 <= fromIndex < Cells && 0 <= toIndex < Cells
      modifies cellsArray
      ensures cellsArray[..] == Moved(old(cellsArray[..]), fromIndex, toIndex)
    {
      cellsArray[fromIndex] := cellsArray[fromIndex] - 1;
      cellsArray[toIndex] := cellsArray[toIndex] + 1;
    }

    /** The same change with the one global mutex held around it. */
    method MoveGlobalMutex(fromIndex: int, toIndex: int)
      requires Valid()
      requires 0 <= fromIndex < Cells && 0 <= toIndex < Cells
      modifies cellsArray, this`LockLog
      ensures cellsArray[..] == Moved(old(cellsArray[..]), fromIndex, toIndex)
      ensures LockLog == old(LockLog) + MoveLockTrace(GlobalMutex, fromIndex, toIndex)
    {
      LockLog := LockLog + [Acquire(Global)];
      cellsArray[fromIndex] := cellsArray[fromIndex] - 1;
      cellsArray[toIndex] := cellsArray[toIndex] + 1;
      LockLog := LockLog + [Release(Global)];
    }

    /**
     The same change with the mutexes of both cells held, the higher cell's
     taken first; a move within one cell returns at once.
     */
    method MoveLocalMutex(fromIndex: int, toIndex: int)
      requires Valid()
      requires 0 <= fromIndex < Cells && 0 <= toIndex < Cells
      modifies cellsArray, this`LockLog
      ensures cellsArray[..] == Moved(old(cellsArray[..]), fromIndex, toIndex)
      ensures LockLog == old(LockLog) + MoveLockTrace(LocalMutex, fromIndex, toIndex)
    {
      var lowerIndex := if fromIndex <= toIndex then fromIndex else toIndex;
      var higherIndex := if fromIndex >= toIndex then fromIndex else toIndex;

      if lowerIndex == higherIndex {
        assert Moved(cellsArray[..], fromIndex, toIndex) == cellsArray[..];
        return;
      }

      LockLog := LockLog + [Acquire(CellLock(higherIndex))];
      LockLog := LockLog + [Acquire(CellLock(lowerIndex))];

      cellsArray[fromIndex] := cellsArray[fromIndex] - 1;
      cellsArray[toIndex] := cellsArray[toIndex] + 1;

      LockLog := LockLog + [Release(CellLock(lowerIndex))];
      LockLog := LockLog + [Release(CellLock(higherIndex))];
    }

    /**
     The integrity check: it passes exactly when the counters add up to the
     particle count, which they always do in a consistent crystal.
     */
    method IntegrityCheck() returns (sum: int, passed: bool)
      ensures sum == Sum(cellsArray[..])
      ensures passed <==> sum == particles
      ensures Consistent() ==> sum == particles && passed
    {
      sum := Sum(cellsArray[..]);
      passed := sum == particles;
      if Consistent() {
        ConsistentCells();
      }
    }

    /** The total number of ticks, summed over the particles of the run. */
    method TicksPerformed() returns (totalTicks: int)
      ensures totalTicks == Sum(TickCounts())
    {
      totalTicks := 0;
      for i := 0 to |particlesList|
        invariant totalTicks == Sum(TickCounts()[..i])
      {
        assert TickCounts()[..i + 1] == TickCounts()[..i] + [particlesList[i].tickCount];
        SumSnoc(TickCounts()[..i], particlesList[i].tickCount);
        totalTicks := totalTicks + particlesList[i].tickCount;
      }
      assert TickCounts()[..|particlesList|] == TickCounts();
    }

    /** Sets every counter to zero. */
    method ClearCells()
      requires Valid()
      modifies cellsArray
      ensures cellsArray[..] == Zeros(Cells)
    {
      for i := 0 to cellsArray.Length
        invariant forall j :: 0 <= j < i ==> cellsArray[j] == 0
      {
        cellsArray[i] := 0;
      }
    }

    /** Creates one particle per unit of the particle count, each in cell 0 with no tick done. */
    method SpawnParticles()
      requires Valid() && isRunning && particlesList == []
      modifies this`particlesList
      ensures Valid()
      ensures |particlesList| == particles
      ensures forall i :: 0 <= i < particles ==>
                && fresh(particlesList[i])
                && particlesList[i].particleIndex == i
                && particlesList[i].arrayIndex == 0
                && particlesList[i].tickCount == 0
                && !particlesList[i].shutDown
      ensures Positions() == Zeros(particles) && TickCounts() == Zeros(particles)
    {
      for i := 0 to particles
        invariant Valid() && |particlesList| == i
        invariant forall j :: 0 <= j < i ==>
                    && fresh(particlesList[j])
                    && particlesList[j].particleIndex == j
                    && particlesList[j].arrayIndex == 0
                    && particlesList[j].tickCount == 0
                    && !particlesList[j].shutDown
      {
        var particle := new Particle(i, this);
        particlesList := particlesList + [particle];
      }
      assert Positions() == Zeros(particles);
      assert TickCounts() == Zeros(particles);
    }

    /**
     The run window with its moves serialised: the ticks of `schedule`, each
     by the particle it names, one after the other.
     */
    method RunSerialised(schedule: seq<Turn>)
      requires Consistent()
      requires forall j :: 0 <= j < |schedule| ==> schedule[j].particle < particles
      modifies cellsArray, this`LockLog, particlesList`arrayIndex, particlesList`tickCount
      ensures Consistent()
      ensures Positions() == Simulate(old(Positions()), Cells, schedule)
      ensures TickCounts() == TicksAfter(old(TickCounts()), schedule)
      ensures Sum(TickCounts()) == old(Sum(TickCounts())) + |schedule|
      ensures LockLog == old(LockLog) + RunLockTrace(strategy, old(Positions()), Cells, schedule)
    {
      ghost var start := Positions();
      ghost var ticks := TickCounts();
      ghost var log := LockLog;
      for j := 0 to |schedule|
        invariant Consistent()
        invariant Positions() == Simulate(start, Cells, schedule[..j])
        invariant TickCounts() == TicksAfter(ticks, schedule[..j])
        invariant LockLog == log + RunLockTrace(strategy, start, Cells, schedule[..j])
      {
        ghost var trace, counts := LockLog, TickCounts();
        assert counts == TicksAfter(ticks, schedule[..j]);
        RunTurn(schedule[j]);
        assert TickCounts() == counts[schedule[j].particle := counts[schedule[j].particle] + 1];
        SimulateSnoc(start, Cells, schedule, j);
        TicksAfterSnoc(ticks, schedule, j, counts, TickCounts());
        TurnExtendsTrace(strategy, start, Cells, schedule, j, log, trace, LockLog);
      }
      assert schedule[..|schedule|] == schedule;
      TicksAfterSum(ticks, schedule);
    }

    /** One tick of the particle `turn` names, with the choice it names. */
    method RunTurn(turn: Turn)
      requires Consistent()
      requires turn.particle < particles
      modifies cellsArray, this`LockLog, particlesList`arrayIndex, particlesList`tickCount
      ensures Consistent()
      ensures Positions() == old(Positions())[turn.particle := Next(old(Positions())[turn.particle], Cells, turn.choice)]
      ensures TickCounts() == old(TickCounts())[turn.particle := old(TickCounts())[turn.particle] + 1]
      ensures LockLog == old(LockLog) + TickLockTrace(strategy, old(Positions())[turn.particle], Cells, turn.choice)
    {
      var particle := particlesList[turn.particle];
      assert particle.crystal == this && particle in particlesList;
      ghost var positionsBefore := Positions();
      ghost var ticksBefore := TickCounts();
      particle.Tick(turn.choice);
      assert particlesList[turn.particle] == particle;
      assert Positions() == positionsBefore[turn.particle := particle.arrayIndex];
      assert TickCounts() == ticksBefore[turn.particle := ticksBefore[turn.particle] + 1];
    }

    /** Raises the stop flag of every particle. */
    method StopAll()
      requires Consistent()
      modifies particlesList
      ensures Consistent()
      ensures Positions() == old(Positions()) && TickCounts() == old(TickCounts())
      ensures forall i :: 0 <= i < |particlesList| ==> particlesList[i].shutDown
    {
      for i := 0 to |particlesList|
        invariant Consistent()
        invariant Positions() == old(Positions()) && TickCounts() == old(TickCounts())
        invariant forall j :: 0 <= j < i ==> particlesList[j].shutDown
      {
        ghost var positions, ticks := Positions(), TickCounts();
        particlesList[i].Stop();
        assert Positions() == positions && TickCounts() == ticks;
      }
    }

    /**
     One run: refused while a run is in progress; otherwise it spawns the
     particles, puts them all in cell 0, executes the ticks of `schedule`,
     stops the particles, reports, and clears the crystal again.
     */
    method Start(schedule: seq<Turn>) returns (r: StartResult)
      requires Valid()
      requires forall j :: 0 <= j < |schedule| ==> schedule[j].particle < particles
      modifies this, cellsArray
      ensures Valid()
      ensures old(isRunning) ==> r == Failed(AlreadyRunning) && unchanged(this, cellsArray)
      ensures !old(isRunning) && Cells == 0 ==>
                && r == Failed(CellIndexOutOfRange) && isRunning && |particlesList| == particles
                && Positions() == Zeros(particles) && TickCounts() == Zeros(particles)
                && LockLog == old(LockLog)
      ensures !old(isRunning) && Cells >= 1 ==>
                && r == Completed(RunReport(Histogram(Simulate(Zeros(particles), Cells, schedule), Cells),
                                            particles, true, |schedule|))
                && !isRunning && particlesList == [] && cellsArray[..] == Zeros(Cells)
                && LockLog == old(LockLog) + RunLockTrace(strategy, Zeros(particles), Cells, schedule)
                && Replay(LockLog[|old(LockLog)|..], []) == Some([])
    {
      if isRunning {
        return Failed(AlreadyRunning);
      }
      isRunning := true;

      SpawnParticles();
      ClearCells();
      if Cells == 0 {
        return Failed(CellIndexOutOfRange);
      }
      var report := Run(schedule);
      r := Completed(report);
    }

    /**
     A run from the moment the particles exist and the cells are cleared:
     put every particle's unit in cell 0, execute the serialised ticks, and
     finish.
     */
    method Run(schedule: seq<Turn>) returns (report: RunReport)
      requires Valid() && isRunning && Cells >= 1 && |particlesList| == particles
      requires Positions() == Zeros(particles) && TickCounts() == Zeros(particles)
      requires cellsArray[..] == Zeros(Cells)
      requires forall j :: 0 <= j < |schedule| ==> schedule[j].particle < particles
      modifies this`isRunning, this`particlesList, this`LockLog, cellsArray, particlesList
      ensures Valid() && !isRunning && particlesList == [] && cellsArray[..] == Zeros(Cells)
      ensures report == RunReport(Histogram(Simulate(Zeros(particles), Cells, schedule), Cells),
                                  particles, true, |schedule|)
      ensures LockLog == old(LockLog) + RunLockTrace(strategy, Zeros(particles), Cells, schedule)
      ensures Replay(LockLog[|old(LockLog)|..], []) == Some([])
    {
      cellsArray[0] := particles;
      ColocatedHistogram(particles, Cells);
      assert Positions() == Zeros(particles) && TickCounts() == Zeros(particles);
      assert cellsArray[..] == Histogram(Positions(), Cells);
      ZerosSum(particles);
      assert Sum(TickCounts()) == 0;

      RunSerialised(schedule);
      ghost var final := Positions();
      assert final == Simulate(Zeros(particles), Cells, schedule);
      assert Sum(TickCounts()) == |schedule|;
      report := FinishRun();
      assert report.finalCells == Histogram(final, Cells);
      RunReleasesAll(strategy, Zeros(particles), Cells, schedule);
      assert LockLog[|old(LockLog)|..] == RunLockTrace(strategy, Zeros(particles), Cells, schedule);
    }

    /**
     The end of a run: stop every particle, take the final snapshot, run the
     integrity check, total the ticks, then clear the cells and the particle
     list and leave the running state.
     */
    method FinishRun() returns (report: RunReport)
      requires Consistent() && isRunning
      modifies this`isRunning, this`particlesList, cellsArray, particlesList
      ensures Valid() && !isRunning && particlesList == [] && cellsArray[..] == Zeros(Cells)
      ensures report == RunReport(Histogram(old(Positions()), Cells), particles, true, old(Sum(TickCounts())))
    {
      ghost var final := Positions();
      StopAll();

      var finalCells := cellsArray[..];
      ConsistentCells();
      var sum, passed := IntegrityCheck();
      var totalTicks := TicksPerformed();
      report := RunReport(finalCells, sum, passed, totalTicks);

      ClearCells();
      particlesList := [];
      isRunning := false;
    }
  }

  class Particle {
    const crystal: Crystal
    const particleIndex: nat
    var arrayIndex: int
    var shutDown: bool
    var tickCount: int

    constructor (particleIndex: nat, crystal: Crystal)
      ensures this.crystal == crystal && this.particleIndex == particleIndex
      ensures arrayIndex == 0 && !shutDown && tickCount == 0
    {
      this.crystal := crystal;
      this.particleIndex := particleIndex;
      arrayIndex := 0;
      shutDown := false;
      tickCount := 0;
    }

    /** Asks the particle to stop; it notices at the end of its current tick. */
    method Stop()
      modifies this`shutDown
      ensures shutDown
    {
      shutDown := true;
    }

    /**
     One tick: count it; unless `choice` is to stay, step one cell in its
     direction, clamped to the array, moving through the crystal.
     */
    method Tick(choice: Choice)
      requires crystal.Consistent() && this in crystal.particlesList
      modifies this`tickCount, this`arrayIndex, crystal.cellsArray, crystal`LockLog
      ensures crystal.Consistent()
      ensures tickCount == old(tickCount) + 1
      ensures arrayIndex == Next(old(arrayIndex), crystal.Cells, choice)
      ensures forall k :: 0 <= k < |crystal.particlesList| && crystal.particlesList[k] == this ==>
                && crystal.Positions() == old(crystal.Positions())[k := arrayIndex]
                && crystal.TickCounts() == old(crystal.TickCounts())[k := tickCount]
      ensures choice == Stay ==>
                crystal.cellsArray[..] == old(crystal.cellsArray[..]) && crystal.LockLog == old(crystal.LockLog)
      ensures choice != Stay ==>
                && crystal.cellsArray[..] == Moved(old(crystal.cellsArray[..]), old(arrayIndex), arrayIndex)
                && crystal.LockLog == old(crystal.LockLog) + MoveLockTrace(crystal.strategy, old(arrayIndex), arrayIndex)
    {
      ghost var k :| 0 <= k < |crystal.particlesList| && crystal.particlesList[k] == this;
      tickCount := tickCount + 1;

      if choice == Stay {
        crystal.RelocateKeepsConsistent(k);
        return;
      }

      var targetCell := arrayIndex + Offset(choice.dir);

      if targetCell < 0 {
        targetCell := 0;
      }

      if targetCell >= crystal.Cells {
        targetCell := crystal.Cells - 1;
      }

      crystal.MoveParticle(arrayIndex, targetCell);
      arrayIndex := targetCell;
      crystal.RelocateKeepsConsistent(k);
    }

    /** One pass of the loop body: a tick, during which the stop signal may land. */
    method LoopIteration(step: LoopStep)
      requires crystal.Consistent() && this in crystal.particlesList
      modifies this`tickCount, this`arrayIndex, this`shutDown, crystal.cellsArray, crystal`LockLog
      ensures crystal.Consistent()
      ensures tickCount == old(tickCount) + 1
      ensures arrayIndex == Next(old(arrayIndex), crystal.Cells, step.choice)
      ensures shutDown == (old(shutDown) || step.stopArrives)
      ensures crystal.LockLog == old(crystal.LockLog) + TickLockTrace(crystal.strategy, old(arrayIndex), crystal.Cells, step.choice)
    {
      Tick(step.choice);
      if step.stopArrives {
        ghost var positions := crystal.Positions();
        Stop();
        assert crystal.Positions() == positions;
      }
    }

    /**
     The particle's loop: tick, then leave if the stop flag is set. Each
     element of `steps` gives the choice of one tick and whether the
     controller's stop signal lands during that iteration.
     */
    method Loop(steps: seq<LoopStep>) returns (ticks: nat)
      requires crystal.Consistent() && this in crystal.particlesList
      requires EndsWithin(shutDown, steps)
      modifies this`tickCount, this`arrayIndex, this`shutDown, crystal.cellsArray, crystal`LockLog
      ensures crystal.Consistent()
      ensures shutDown
      ensures ticks == LoopTicks(old(shutDown), steps)
      ensures tickCount == old(tickCount) + ticks
      ensures ticks <= |steps| && arrayIndex == LoopIndex(old(arrayIndex), crystal.Cells, steps, ticks)
      ensures crystal.LockLog == old(crystal.LockLog) + LoopLockTrace(crystal.strategy, old(arrayIndex), crystal.Cells, steps, ticks)
      ensures Replay(crystal.LockLog[|old(crystal.LockLog)|..], []) == Some([])
    {
      ticks := 0;
      while true
        invariant crystal.Consistent() && this in crystal.particlesList
        invariant ticks <= |steps|
        invariant ticks > 0 ==> !shutDown
        invariant EndsWithin(shutDown, steps[ticks..])
        invariant ticks + LoopTicks(shutDown, steps[ticks..]) == LoopTicks(old(shutDown), steps)
        invariant tickCount == old(tickCount) + ticks
        invariant arrayIndex == LoopIndex(old(arrayIndex), crystal.Cells, steps, ticks)
        invariant crystal.LockLog == old(crystal.LockLog) + LoopLockTrace(crystal.strategy, old(arrayIndex), crystal.Cells, steps, ticks)
        decreases |steps| - ticks
      {
        ghost var index, trace := arrayIndex, crystal.LockLog;
        LoopIteration(steps[ticks]);
        LoopExtendsTrace(crystal.strategy, old(arrayIndex), crystal.Cells, steps, ticks, old(crystal.LockLog), trace, crystal.LockLog);
        assert steps[ticks..][1..] == steps[ticks + 1..];
        ticks := ticks + 1;
        if shutDown {
          break;
        }
      }
      LoopReleasesAll(crystal.strategy, old(arrayIndex), crystal.Cells, steps, ticks);
      assert crystal.LockLog[|old(crystal.LockLog)|..] == LoopLockTrace(crystal.strategy, old(arrayIndex), crystal.Cells, steps, ticks);
    }
  }
}
