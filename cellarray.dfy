/**
 The cell array of a crystal, viewed as a value: the per-cell particle
 counters, their sum, the histogram of particle positions they are meant to
 equal, and the change one particle move makes to them.
 */
module CellArray {

  /** The sum of all counters (the `Sum()` of the integrity check). */
  function Sum(s: seq<int>): int
  {
    if s == [] then 0 else s[0] + Sum(s[1..])
  }

  /** An array of `n` counters, all zero. */
  function Zeros(n: nat): (z: seq<int>)
    ensures |z| == n
    ensures forall i :: 0 <= i < n ==> z[i] == 0
  {
    seq(n, _ => 0)
  }

  /** How many of the `positions` are equal to `v`. */
  function Count(positions: seq<int>, v: int): nat
  {
    if positions == [] then 0
    else (if positions[0] == v then 1 else 0) + Count(positions[1..], v)
  }

  /** The counters that `cells` cells hold when the particles sit at `positions`. */
  function Histogram(positions: seq<int>, cells: nat): seq<int>
  {
    seq(cells, c => Count(positions, c))
  }

  /** All positions name a cell of an array of `cells` cells. */
  predicate InBounds(positions: seq<int>, cells: nat)
  {
    forall i :: 0 <= i < |positions| ==> 0 <= positions[i] < cells
  }

  /**
   The counters after one particle leaves `from` and arrives at `to`:
   every counter changes by the number of arrivals minus the number of
   departures at that cell.
   */
  function Moved(s: seq<int>, from: int, to: int): seq<int>
  {
    seq(|s|, i requires 0 <= i < |s| =>
      s[i] - (if i == from then 1 else 0) + (if i == to then 1 else 0))
  }

  lemma {:induction false} SumSnoc(s: seq<int>, x: int)
    ensures Sum(s + [x]) == Sum(s) + x
  {
    if s == [] {
      assert [] + [x] == [x];
    } else {
      assert (s + [x])[1..] == s[1..] + [x];
      SumSnoc(s[1..], x);
    }
  }

  lemma {:induction false} CountSnoc(s: seq<int>, x: int, v: int)
    ensures Count(s + [x], v) == Count(s, v) + (if x == v then 1 else 0)
  {
    if s == [] {
      assert [] + [x] == [x];
      assert [x][1..] == [];
    } else {
      assert (s + [x])[1..] == s[1..] + [x];
      CountSnoc(s[1..], x, v);
    }
  }

  /** Changing one counter changes the sum by exactly the change of that counter. */
  lemma {:induction false} SumUpdate(s: seq<int>, i: nat, v: int)
    requires i < |s|
    ensures Sum(s[i := v]) == Sum(s) - s[i] + v
  {
    if i > 0 {
      assert s[i := v][1..] == s[1..][i - 1 := v];
      SumUpdate(s[1..], i - 1, v);
    }
  }

  /** No counter of a histogram exceeds the number of particles counted. */
  lemma {:induction false} CountBound(positions: seq<int>, v: int)
    ensures Count(positions, v) <= |positions|
  {
    if positions != [] {
      CountBound(positions[1..], v);
    }
  }

  /** Relocating one particle moves exactly one unit between the two cells' counts. */
  lemma {:induction false} CountRelocate(positions: seq<int>, k: nat, t: int, v: int)
    requires k < |positions|
    ensures Count(positions[k := t], v)
         == Count(positions, v) - (if positions[k] == v then 1 else 0) + (if t == v then 1 else 0)
  {
    if k > 0 {
      assert positions[k := t][1..] == positions[1..][k - 1 := t];
      CountRelocate(positions[1..], k - 1, t, v);
    }
  }

  /**
   When particle `k` goes from its cell to cell `t`, the histogram changes as
   a move from `positions[k]` to `t` changes the counters.
   */
  lemma HistogramRelocate(positions: seq<int>, cells: nat, k: nat, t: int)
    requires k < |positions|
    ensures Histogram(positions[k := t], cells) == Moved(Histogram(positions, cells), positions[k], t)
  {
    forall c | 0 <= c < cells
      ensures Histogram(positions[k := t], cells)[c] == Moved(Histogram(positions, cells), positions[k], t)[c]
    {
      CountRelocate(positions, k, t, c);
    }
  }

  /** Every particle inside the array is counted once: the histogram sums to the number of particles. */
  lemma {:induction false} HistogramSum(positions: seq<int>, cells: nat)
    requires InBounds(positions, cells)
    ensures Sum(Histogram(positions, cells)) == |positions|
  {
    if positions == [] {
      assert Histogram(positions, cells) == Zeros(cells);
      ZerosSum(cells);
    } else {
      var rest := positions[1..];
      var h := Histogram(rest, cells);
      assert InBounds(rest, cells) by {
        forall i | 0 <= i < |rest| ensures 0 <= rest[i] < cells {
          assert rest[i] == positions[i + 1];
        }
      }
      HistogramSum(rest, cells);
      var p := positions[0];
      assert Histogram(positions, cells) == h[p := h[p] + 1];
      SumUpdate(h, p, h[p] + 1);
    }
  }

  lemma {:induction false} ZerosSum(n: nat)
    ensures Sum(Zeros(n)) == 0
  {
    if n > 0 {
      assert Zeros(n)[1..] == Zeros(n - 1);
      ZerosSum(n - 1);
    }
  }

  /** Of `n` particles all in cell 0, cell 0 counts `n` and every other cell none. */
  lemma {:induction false} CountColocated(n: nat, v: int)
    ensures Count(Zeros(n), v) == if v == 0 then n else 0
  {
    if n > 0 {
      assert Zeros(n)[1..] == Zeros(n - 1);
      CountColocated(n - 1, v);
    }
  }

  /**
   Particles that all sit in cell 0 give cell 0 a counter equal to their
   number, every other cell a zero, and a sum equal to their number.
   */
  lemma ColocatedHistogram(n: nat, cells: nat)
    requires cells >= 1
    ensures Histogram(Zeros(n), cells)[0] == n
    ensures forall c :: 1 <= c < cells ==> Histogram(Zeros(n), cells)[c] == 0
    ensures Sum(Histogram(Zeros(n), cells)) == n
  {
    forall c | 0 <= c < cells ensures Histogram(Zeros(n), cells)[c] == if c == 0 then n else 0 {
      CountColocated(n, c);
    }
    HistogramSum(Zeros(n), cells);
  }

  /**
   A move between two cells of the array keeps the sum of the counters, and
   a move from a cell to itself changes no counter at all.
   */
  lemma MovedSum(s: seq<int>, from: int, to: int)
    requires 0 <= from < |s| && 0 <= to < |s|
    ensures |Moved(s, from, to)| == |s|
    ensures Sum(Moved(s, from, to)) == Sum(s)
    ensures from == to ==> Moved(s, from, to) == s
  {
    var down := s[from := s[from] - 1];
    SumUpdate(s, from, s[from] - 1);
    SumUpdate(down, to, down[to] + 1);
    assert Moved(s, from, to) == down[to := down[to] + 1];
  }
}
