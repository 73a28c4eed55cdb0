/**
 The pure part of a particle's life: where one tick takes it, where a
 serialised sequence of ticks takes a whole crystal of particles, and how
 many ticks a particle's loop performs before it honours the stop flag.
 The random draws of the tick are replaced by the choice they lead to.
 */
module Walk {
  import opened CellArray
  import opened LockOrder

  /** The sign of a draw: an even draw steps down (-1), an odd one up (+1). */
  datatype Direction = Down | Up

  /** What the two random draws of one tick decide: no move, or a step in a direction. */
  datatype Choice = Stay | Hop(dir: Direction)

  function Offset(d: Direction): int
  {
    if d == Down then -1 else 1
  }

  /**
   The cell a step in direction `d` from `index` aims at, clamped to the
   array: a step off either end leaves the particle where it is.
   */
  function Target(index: int, cells: int, d: Direction): (t: int)
    ensures 0 <= index < cells ==> 0 <= t < cells && -1 <= t - index <= 1
    ensures 0 <= index < cells ==>
              (t == index <==> (index == 0 && d == Down) || (index == cells - 1 && d == Up))
    ensures 0 <= index < cells && t != index ==> t == index + Offset(d)
  {
    var aimed := index + Offset(d);
    var floored := if aimed < 0 then 0 else aimed;
    if floored >= cells then cells - 1 else floored
  }

  /** The index of a particle in an array of `cells` cells after one tick with choice `c`. */
  function Next(index: int, cells: int, c: Choice): (n: int)
    ensures 0 <= index < cells ==> 0 <= n < cells && -1 <= n - index <= 1
    ensures c == Stay ==> n == index
  {
    match c
    case Stay => index
    case Hop(d) => Target(index, cells, d)
  }

  /** One tick of one particle, picked from the serialised history of a run. */
  datatype Turn = Turn(particle: nat, choice: Choice)

  /** The positions of all particles after the turns of `turns`, taken one at a time. */
  function Simulate(start: seq<int>, cells: int, turns: seq<Turn>): (ps: seq<int>)
    ensures |ps| == |start|
  {
    if turns == [] then start
    else
      var before := Simulate(start, cells, turns[..|turns| - 1]);
      var t := turns[|turns| - 1];
      if t.particle < |before| then before[t.particle := Next(before[t.particle], cells, t.choice)]
      else before
  }

  /** The turns up to `j + 1` are the turns up to `j` followed by turn `j`. */
  lemma SimulateSnoc(start: seq<int>, cells: int, turns: seq<Turn>, j: nat)
    requires j < |turns| && turns[j].particle < |start|
    ensures var before := Simulate(start, cells, turns[..j]);
            Simulate(start, cells, turns[..j + 1])
            == before[turns[j].particle := Next(before[turns[j].particle], cells, turns[j].choice)]
  {
    assert turns[..j + 1][..j] == turns[..j];
  }

  /** The particle each turn of `turns` names, in order. */
  function Scheduled(turns: seq<Turn>): (ps: seq<int>)
    ensures |ps| == |turns|
    ensures forall j :: 0 <= j < |turns| ==> ps[j] == turns[j].particle
  {
    seq(|turns|, j requires 0 <= j < |turns| => turns[j].particle)
  }

  /** One more turn adds one tick to the particle it names and none to any other. */
  lemma ScheduledSnoc(turns: seq<Turn>, j: nat, i: int)
    requires j < |turns|
    ensures Count(Scheduled(turns[..j + 1]), i)
         == Count(Scheduled(turns[..j]), i) + (if turns[j].particle == i then 1 else 0)
  {
    assert Scheduled(turns[..j + 1]) == Scheduled(turns[..j]) + [turns[j].particle];
    CountSnoc(Scheduled(turns[..j]), turns[j].particle, i);
  }

  /**
   The mutex events of one tick from `index` under `strategy`: none when the
   particle stays; otherwise those of the move to the clamped target, which
   is made even when the clamp leaves the particle where it is. Replayed
   from no mutex held, they never take a mutex twice and end with none held.
   */
  function TickLockTrace(strategy: Strategy, index: int, cells: int, c: Choice): (trace: seq<LockEvent>)
    ensures c == Stay ==> trace == []
    ensures c != Stay ==> trace == MoveLockTrace(strategy, index, Next(index, cells, c))
    ensures Replay(trace, []) == Some([])
  {
    match c
    case Stay => []
    case Hop(_) =>
      MoveReleasesAll(strategy, index, Next(index, cells, c));
      MoveLockTrace(strategy, index, Next(index, cells, c))
  }

  /** The mutex events of a serialised run, turn after turn, in the order they happen. */
  function RunLockTrace(strategy: Strategy, start: seq<int>, cells: int, turns: seq<Turn>): seq<LockEvent>
  {
    if turns == [] then []
    else
      var before := Simulate(start, cells, turns[..|turns| - 1]);
      var t := turns[|turns| - 1];
      RunLockTrace(strategy, start, cells, turns[..|turns| - 1])
        + (if t.particle < |before| then TickLockTrace(strategy, before[t.particle], cells, t.choice) else [])
  }

  /** The events of the turns up to `j + 1` are those up to `j` followed by those of turn `j`. */
  lemma RunLockTraceSnoc(strategy: Strategy, start: seq<int>, cells: int, turns: seq<Turn>, j: nat)
    requires j < |turns| && turns[j].particle < |start|
    ensures RunLockTrace(strategy, start, cells, turns[..j + 1])
         == RunLockTrace(strategy, start, cells, turns[..j])
            + TickLockTrace(strategy, Simulate(start, cells, turns[..j])[turns[j].particle], cells, turns[j].choice)
  {
    assert turns[..j + 1][..j] == turns[..j];
  }

  /** A serialised run of any length never takes a mutex it holds and ends holding none. */
  lemma {:induction false} RunReleasesAll(strategy: Strategy, start: seq<int>, cells: int, turns: seq<Turn>)
    ensures Replay(RunLockTrace(strategy, start, cells, turns), []) == Some([])
  {
    if turns != [] {
      var prefix := turns[..|turns| - 1];
      var before := Simulate(start, cells, prefix);
      var t := turns[|turns| - 1];
      RunReleasesAll(strategy, start, cells, prefix);
      ReplayAppend(RunLockTrace(strategy, start, cells, prefix),
                   if t.particle < |before| then TickLockTrace(strategy, before[t.particle], cells, t.choice) else [],
                   []);
    }
  }

  /** The tick counters after `turns`, from the counters `ticks`: each turn counts one tick for the particle it names. */
  function TicksAfter(ticks: seq<int>, turns: seq<Turn>): (counts: seq<int>)
    ensures |counts| == |ticks|
  {
    seq(|ticks|, i requires 0 <= i < |ticks| => ticks[i] + Count(Scheduled(turns), i))
  }

  /** One more turn adds one tick to the counter of the particle it names and to no other. */
  lemma TicksAfterSnoc(ticks: seq<int>, turns: seq<Turn>, j: nat, before: seq<int>, after: seq<int>)
    requires j < |turns| && turns[j].particle < |ticks|
    requires before == TicksAfter(ticks, turns[..j])
    requires after == before[turns[j].particle := before[turns[j].particle] + 1]
    ensures after == TicksAfter(ticks, turns[..j + 1])
  {
    var after := TicksAfter(ticks, turns[..j + 1]);
    forall i | 0 <= i < |ticks|
      ensures after[i] == before[turns[j].particle := before[turns[j].particle] + 1][i]
    {
      ScheduledSnoc(turns, j, i);
    }
  }

  /**
   A schedule of turns that all name a particle adds exactly its length to
   the total of the tick counters.
   */
  lemma {:induction false} TicksAfterSum(ticks: seq<int>, turns: seq<Turn>)
    requires forall j :: 0 <= j < |turns| ==> turns[j].particle < |ticks|
    ensures Sum(TicksAfter(ticks, turns)) == Sum(ticks) + |turns|
  {
    if turns == [] {
      assert TicksAfter(ticks, turns) == ticks;
    } else {
      var n := |turns| - 1;
      var prefix := turns[..n];
      assert prefix[..n] == prefix && turns[..n + 1] == turns;
      TicksAfterSum(ticks, prefix);
      var before := TicksAfter(ticks, prefix);
      TicksAfterSnoc(ticks, turns, n, before, before[turns[n].particle := before[turns[n].particle] + 1]);
      SumUpdate(before, turns[n].particle, before[turns[n].particle] + 1);
    }
  }

  /**
   One more turn appends its tick's mutex events: if the log holds the events
   of `j` turns, it then holds those of `j + 1`.
   */
  lemma TurnExtendsTrace(strategy: Strategy, start: seq<int>, cells: int, turns: seq<Turn>, j: nat,
                         log: seq<LockEvent>, trace: seq<LockEvent>, trace': seq<LockEvent>)
    requires j < |turns| && turns[j].particle < |start|
    requires trace == log + RunLockTrace(strategy, start, cells, turns[..j])
    requires trace' == trace + TickLockTrace(strategy, Simulate(start, cells, turns[..j])[turns[j].particle],
                                             cells, turns[j].choice)
    ensures trace' == log + RunLockTrace(strategy, start, cells, turns[..j + 1])
  {
    var prefix := RunLockTrace(strategy, start, cells, turns[..j]);
    var tick := TickLockTrace(strategy, Simulate(start, cells, turns[..j])[turns[j].particle], cells, turns[j].choice);
    RunLockTraceSnoc(strategy, start, cells, turns, j);
    assert trace' == log + prefix + tick == log + (prefix + tick);
  }

  /** The unsynchronised variant takes no mutex in a whole run. */
  lemma {:induction false} InvalidRunTakesNoMutex(start: seq<int>, cells: int, turns: seq<Turn>)
    ensures RunLockTrace(Invalid, start, cells, turns) == []
  {
    if turns != [] {
      InvalidRunTakesNoMutex(start, cells, turns[..|turns| - 1]);
    }
  }

  /** A serialised run keeps every particle inside the array. */
  lemma {:induction false} SimulateInBounds(start: seq<int>, cells: nat, turns: seq<Turn>)
    requires InBounds(start, cells)
    ensures InBounds(Simulate(start, cells, turns), cells)
  {
    if turns != [] {
      SimulateInBounds(start, cells, turns[..|turns| - 1]);
    }
  }

  /**
   The integrity of a serialised run: when all particles start in cell 0,
   the cell counters of their positions after any sequence of turns sum to
   the number of particles.
   */
  lemma SerialRunKeepsIntegrity(particles: nat, cells: nat, turns: seq<Turn>)
    requires cells >= 1
    ensures Sum(Histogram(Simulate(Zeros(particles), cells, turns), cells)) == particles
  {
    SimulateInBounds(Zeros(particles), cells, turns);
    HistogramSum(Simulate(Zeros(particles), cells, turns), cells);
  }

  /**
   One iteration of a particle's loop: the choice its tick draws, and
   whether the controller's stop signal lands during this iteration, before
   the flag is tested.
   */
  datatype LoopStep = LoopStep(choice: Choice, stopArrives: bool)

  /** The loop, entered with the flag `stopped`, ends within `steps`. */
  predicate EndsWithin(stopped: bool, steps: seq<LoopStep>)
  {
    |steps| >= 1 && (stopped || steps[0].stopArrives || EndsWithin(false, steps[1..]))
  }

  /** The number of ticks the loop performs: it ticks, then leaves as soon as the flag is set. */
  function LoopTicks(stopped: bool, steps: seq<LoopStep>): nat
    requires EndsWithin(stopped, steps)
  {
    if stopped || steps[0].stopArrives then 1 else 1 + LoopTicks(false, steps[1..])
  }

  /** The index of a particle after the ticks of the first `n` loop iterations, from `index`. */
  function LoopIndex(index: int, cells: int, steps: seq<LoopStep>, n: nat): int
    requires n <= |steps|
  {
    if n == 0 then index else Next(LoopIndex(index, cells, steps, n - 1), cells, steps[n - 1].choice)
  }

  /** The mutex events of the ticks of the first `n` loop iterations, from `index`. */
  function LoopLockTrace(strategy: Strategy, index: int, cells: int, steps: seq<LoopStep>, n: nat): seq<LockEvent>
    requires n <= |steps|
  {
    if n == 0 then []
    else LoopLockTrace(strategy, index, cells, steps, n - 1)
           + TickLockTrace(strategy, LoopIndex(index, cells, steps, n - 1), cells, steps[n - 1].choice)
  }

  /** One more pass of the loop appends that tick's mutex events to the log. */
  lemma LoopExtendsTrace(strategy: Strategy, index: int, cells: int, steps: seq<LoopStep>, n: nat,
                         log: seq<LockEvent>, trace: seq<LockEvent>, trace': seq<LockEvent>)
    requires n < |steps|
    requires trace == log + LoopLockTrace(strategy, index, cells, steps, n)
    requires trace' == trace + TickLockTrace(strategy, LoopIndex(index, cells, steps, n), cells, steps[n].choice)
    ensures trace' == log + LoopLockTrace(strategy, index, cells, steps, n + 1)
  {
    var prefix := LoopLockTrace(strategy, index, cells, steps, n);
    var tick := TickLockTrace(strategy, LoopIndex(index, cells, steps, n), cells, steps[n].choice);
    assert LoopLockTrace(strategy, index, cells, steps, n + 1) == prefix + tick;
    assert trace' == log + prefix + tick == log + (prefix + tick);
  }

  /**
   The ticks of a loop never take a mutex they hold and leave none held; a
   loop whose every choice was to stay takes no mutex at all.
   */
  lemma {:induction false} LoopReleasesAll(strategy: Strategy, index: int, cells: int, steps: seq<LoopStep>, n: nat)
    requires n <= |steps|
    ensures Replay(LoopLockTrace(strategy, index, cells, steps, n), []) == Some([])
    ensures (forall i :: 0 <= i < n ==> steps[i].choice == Stay) ==> LoopLockTrace(strategy, index, cells, steps, n) == []
  {
    if n > 0 {
      LoopReleasesAll(strategy, index, cells, steps, n - 1);
      var prefix := LoopLockTrace(strategy, index, cells, steps, n - 1);
      var tick := TickLockTrace(strategy, LoopIndex(index, cells, steps, n - 1), cells, steps[n - 1].choice);
      assert LoopLockTrace(strategy, index, cells, steps, n) == prefix + tick;
      ReplayAppend(prefix, tick, []);
    }
  }

  /**
   However many iterations a loop runs, the particle stays inside the array,
   never further from where it started than the number of iterations, and
   where it is when every choice so far was to stay.
   */
  lemma {:induction false} LoopIndexBounds(index: int, cells: int, steps: seq<LoopStep>, n: nat)
    requires n <= |steps| && 0 <= index < cells
    ensures 0 <= LoopIndex(index, cells, steps, n) < cells
    ensures index - n <= LoopIndex(index, cells, steps, n) <= index + n
    ensures (forall i :: 0 <= i < n ==> steps[i].choice == Stay) ==> LoopIndex(index, cells, steps, n) == index
  {
    if n > 0 {
      LoopIndexBounds(index, cells, steps, n - 1);
    }
  }

  /**
   The loop performs at least one tick, exactly one when the flag was
   already set, and its last tick is the one during which the stop signal
   arrived: no iteration before it saw a stop, and it never ticks again
   after one.
   */
  lemma {:induction false} LoopTicksUntilStop(stopped: bool, steps: seq<LoopStep>)
    requires EndsWithin(stopped, steps)
    ensures 1 <= LoopTicks(stopped, steps) <= |steps|
    ensures stopped ==> LoopTicks(stopped, steps) == 1
    ensures !stopped ==> steps[LoopTicks(stopped, steps) - 1].stopArrives
    ensures forall i :: 0 <= i < LoopTicks(stopped, steps) - 1 ==> !steps[i].stopArrives
  {
    if !stopped && !steps[0].stopArrives {
      LoopTicksUntilStop(false, steps[1..]);
      var n := LoopTicks(false, steps[1..]);
      forall i | 0 <= i < n ensures !steps[i].stopArrives {
        if i > 0 {
          assert steps[i] == steps[1..][i - 1];
        }
      }
    }
  }
}
