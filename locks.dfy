/**
 The locking disciplines of the three crystal variants, recorded as the
 sequence of mutex acquire and release events one particle move performs.
 Only the order of the events is modelled, not the mutual exclusion itself.
 */
module LockOrder {

  /** The three crystal variants: no lock, one global mutex, one mutex per cell. */
  datatype Strategy = Invalid | GlobalMutex | LocalMutex

  /** A mutex: the single mutex of the global variant, or the mutex of one cell. */
  datatype Lock = Global | CellLock(cell: int)

  datatype LockEvent = Acquire(lock: Lock) | Release(lock: Lock)

  /** The events one move from cell `from` to cell `to` performs under `strategy`. */
  function MoveLockTrace(strategy: Strategy, from: int, to: int): seq<LockEvent>
  {
    match strategy
    case Invalid => []
    case GlobalMutex => [Acquire(Global), Release(Global)]
    case LocalMutex =>
      var lower := if from <= to then from else to;
      var higher := if from <= to then to else from;
      if lower == higher then []
      else [Acquire(CellLock(higher)), Acquire(CellLock(lower)),
            Release(CellLock(lower)), Release(CellLock(higher))]
  }

  /**
   Replays a trace from the locks `held` (innermost last). It fails
   (`None`) when a lock is acquired while already held, or when a release is
   not of the most recently acquired lock still held; otherwise it gives the
   locks held at the end.
   */
  function Replay(trace: seq<LockEvent>, held: seq<Lock>): Option<seq<Lock>>
  {
    if trace == [] then Some(held)
    else match trace[0]
      case Acquire(l) =>
        if l in held then None else Replay(trace[1..], held + [l])
      case Release(l) =>
        if held != [] && held[|held| - 1] == l then Replay(trace[1..], held[..|held| - 1]) else None
  }

  datatype Option<T> = None | Some(value: T)

  /** Replaying two traces one after the other is replaying the second from where the first left off. */
  lemma {:induction false} ReplayAppend(a: seq<LockEvent>, b: seq<LockEvent>, held: seq<Lock>)
    requires Replay(a, held).Some?
    ensures Replay(a + b, held) == Replay(b, Replay(a, held).value)
  {
    if a == [] {
      assert a + b == b;
    } else {
      assert (a + b)[0] == a[0];
      assert (a + b)[1..] == a[1..] + b;
      match a[0]
      case Acquire(l) =>
        ReplayAppend(a[1..], b, held + [l]);
      case Release(l) =>
        ReplayAppend(a[1..], b, held[..|held| - 1]);
    }
  }

  /** The locks a trace acquires, in the order it acquires them. */
  function Acquired(trace: seq<LockEvent>): (locks: seq<Lock>)
    ensures forall l :: l in locks <==> Acquire(l) in trace
  {
    if trace == [] then []
    else (if trace[0].Acquire? then [trace[0].lock] else []) + Acquired(trace[1..])
  }

  /** Locks acquired in strictly descending cell order: the one global order of the per-cell variant. */
  predicate Descending(locks: seq<Lock>)
  {
    forall i, j :: 0 <= i < j < |locks| ==>
      locks[i].CellLock? && locks[j].CellLock? && locks[i].cell > locks[j].cell
  }

  /**
   Every variant releases, in reverse order, each lock a move acquires,
   never acquires a lock it already holds, and holds no lock when the move
   returns.
   */
  lemma MoveReleasesAll(strategy: Strategy, from: int, to: int)
    ensures Replay(MoveLockTrace(strategy, from, to), []) == Some([])
  {
    var trace := MoveLockTrace(strategy, from, to);
    if strategy == GlobalMutex {
      assert Replay(trace[1..], [Global]) == Replay([], []);
    } else if strategy == LocalMutex && from != to {
      NestedPairReplays(CellLock(if from <= to then to else from), CellLock(if from <= to then from else to));
    }
  }

  /** Two distinct locks taken one inside the other and released innermost first leave nothing held. */
  lemma NestedPairReplays(hi: Lock, lo: Lock)
    requires hi != lo
    ensures Replay([Acquire(hi), Acquire(lo), Release(lo), Release(hi)], []) == Some([])
  {
    assert Replay([Release(hi)], [hi]) == Some([]) by {
      assert [hi][..0] == [];
      assert Replay([], []) == Some([]);
    }
    assert Replay([Release(lo), Release(hi)], [hi, lo]) == Some([]) by {
      assert [hi, lo][..1] == [hi];
      assert [Release(lo), Release(hi)][1..] == [Release(hi)];
    }
    assert Replay([Acquire(lo), Release(lo), Release(hi)], [hi]) == Some([]) by {
      assert lo !in [hi];
      assert [hi] + [lo] == [hi, lo];
      assert [Acquire(lo), Release(lo), Release(hi)][1..] == [Release(lo), Release(hi)];
    }
    assert [] + [hi] == [hi];
    assert [Acquire(hi), Acquire(lo), Release(lo), Release(hi)][1..] == [Acquire(lo), Release(lo), Release(hi)];
  }

  /**
   A per-cell move between two distinct cells acquires exactly the two cells'
   mutexes, the higher cell first; a move within one cell touches no mutex.
   */
  lemma LocalMoveAcquires(from: int, to: int)
    ensures from == to ==> MoveLockTrace(LocalMutex, from, to) == []
    ensures from != to ==> Acquired(MoveLockTrace(LocalMutex, from, to))
                           == [CellLock(if from > to then from else to), CellLock(if from > to then to else from)]
    ensures Descending(Acquired(MoveLockTrace(LocalMutex, from, to)))
  {
    var trace := MoveLockTrace(LocalMutex, from, to);
    if from != to {
      var lo := CellLock(if from <= to then from else to);
      var hi := CellLock(if from <= to then to else from);
      assert trace == [Acquire(hi), Acquire(lo), Release(lo), Release(hi)];
      var releases := [Release(lo), Release(hi)];
      assert Acquired(releases[1..]) == [] by {
        assert releases[1..] == [Release(hi)];
        assert releases[1..][1..] == [];
      }
      assert Acquired(releases) == [];
      assert trace[1..][1..] == releases;
      assert Acquired(trace) == [hi, lo];
    }
  }

  /** The per-cell trace depends on the unordered pair of cells only. */
  lemma LocalTraceSymmetric(a: int, b: int)
    ensures MoveLockTrace(LocalMutex, a, b) == MoveLockTrace(LocalMutex, b, a)
  {
  }

  /**
   No two per-cell moves can wait for each other: there are no two locks
   that one move acquires in one order and the other move in the opposite
   order, which is the condition for a two-move deadlock.
   */
  lemma LocalMovesNeverCross(f1: int, t1: int, f2: int, t2: int, x: Lock, y: Lock)
    requires var a1 := Acquired(MoveLockTrace(LocalMutex, f1, t1));
             exists i, j :: 0 <= i < j < |a1| && a1[i] == x && a1[j] == y
    ensures var a2 := Acquired(MoveLockTrace(LocalMutex, f2, t2));
            forall i, j :: 0 <= i < j < |a2| ==> !(a2[i] == y && a2[j] == x)
  {
    LocalMoveAcquires(f1, t1);
    LocalMoveAcquires(f2, t2);
  }
}
