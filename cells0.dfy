/** The unguarded simulation: the same grid, move and step rule as Cells1 with
    no lock. Its workers race on `cells`; this model covers it only when calls
    do not overlap, i.e. when each `MoveParticle` happens to run alone, and so
    says nothing about the lost updates the race can cause. */
module Cells0 {
  import opened Grid

  class Cells0 {
    const n: int
    const k: int
    const p: real
    const cells: array<int>

    /** What construction establishes and nothing ever changes. */
    ghost predicate Valid()
    {
      ValidConfig(n, k, p) && n <= MaxInt32 && k <= MaxInt32 && cells.Length == n
    }

    /** The conservation invariant the final check reports on. */
    ghost predicate Conserved()
      reads cells
    {
      NonNegative(cells[..]) && Sum(cells[..]) == k
    }

    /** The C# constructor: parse, validate, then build the grid. A rejected
        configuration ends the process before any grid exists (here: null). */
    static method Create(n: int, k: int, p: real) returns (c: Cells0?)
      requires -MaxInt32 - 1 <= n <= MaxInt32 && -MaxInt32 - 1 <= k <= MaxInt32
      ensures c == null <==> !ValidConfig(n, k, p)
      ensures c != null ==> fresh(c) && fresh(c.cells) && c.Valid() && c.Conserved()
      ensures c != null ==> c.n == n && c.k == k && c.p == p && c.cells[..] == Initial(n, k)
    {
      if n <= 0 || k <= 0 || p < 0.0 || p > 1.0 {
        return null;
      }
      c := new Cells0(n, k, p);
    }

    /** Grid set-up once the parameters are accepted: `new int[n]`, `cells[0] = k`. */
    constructor (n: int, k: int, p: real)
      requires ValidConfig(n, k, p) && n <= MaxInt32 && k <= MaxInt32
      ensures Valid() && Conserved() && fresh(cells)
      ensures this.n == n && this.k == k && this.p == p && cells[..] == Initial(n, k)
    {
      this.n, this.k, this.p := n, k, p;
      var a := new int[n](_ => 0);
      a[0] := k;
      cells := a;
      new;
      assert cells[..] == Initial(n, k);
      InitialConserved(n, k);
    }

    method GetCell(i: int) returns (r: Result<int>)
      requires Valid()
      ensures 0 <= i < n ==> r == Ok(cells[i])
      ensures !(0 <= i < n) ==> r == IndexOutOfRange
    {
      if 0 <= i < n {
        r := Ok(cells[i]);
      } else {
        r := IndexOutOfRange;
      }
    }

    /** The unguarded move, taken as running alone. Out-of-range indices raise as the array accesses do:
        a bad `from` before anything changes, a bad `to` only after an
        occupied `from` has already been decremented. */
    method MoveParticle(from: int, to: int) returns (r: Result<()>)
      requires Valid()
      modifies cells
      ensures !(0 <= from < n) ==> r == IndexOutOfRange && cells[..] == old(cells[..])
      ensures 0 <= from < n && 0 <= to < n ==>
                r == Ok(()) && cells[..] == Moved(old(cells[..]), from, to)
      ensures 0 <= from < n && !(0 <= to < n) && old(cells[from]) > 0 ==>
                r == IndexOutOfRange && cells[..] == old(cells[..])[from := old(cells[from]) - 1]
      ensures 0 <= from < n && !(0 <= to < n) && old(cells[from]) <= 0 ==>
                r == Ok(()) && cells[..] == old(cells[..])
      ensures 0 <= from < n && 0 <= to < n && old(Conserved()) ==>
                Conserved() && forall i :: 0 <= i < n ==> 0 <= cells[i] <= k
    {
      if !(0 <= from < n) {
        return IndexOutOfRange;
      }
      ghost var before := cells[..];
      if cells[from] > 0 {
        cells[from] := cells[from] - 1;
        if !(0 <= to < n) {
          return IndexOutOfRange;
        }
        cells[to] := cells[to] + 1;
      }
      r := Ok(());
      if 0 <= to < n {
        MovedConserves(before, from, to);
        forall i | 0 <= i < n && NonNegative(cells[..]) ensures cells[i] <= Sum(cells[..]) {
          CellAtMostSum(cells[..], i);
        }
      }
    }

    /** The summing loop and its verdict: `conserved` is `total == k`. */
    method VerifyTotalAtoms() returns (total: int, conserved: bool)
      requires Valid()
      ensures total == Sum(cells[..])
      ensures conserved <==> total == k
      ensures Conserved() ==> conserved
    {
      total := 0;
      var i := 0;
      while i < n
        invariant 0 <= i <= n
        invariant total == Sum(cells[..i])
        invariant Conserved() ==> 0 <= total <= k
      {
        assert cells[..i + 1][..i] == cells[..i];
        total := total + cells[i];
        i := i + 1;
        if Conserved() {
          PrefixSumBound(cells[..], i);
        }
      }
      assert cells[..i] == cells[..];
      conserved := total == k;
    }

    /** One iteration of `ParticleRun`'s loop: pick the candidate, clamp it,
        and move one unit from `cell` to it if `cell` is occupied (otherwise
        the grid is unchanged). The move never raises. */
    method Step(cell: int, right: bool) returns (newPos: int)
      requires Valid() && 0 <= cell < n
      modifies cells
      ensures newPos == NextCell(cell, n, right)
      ensures cells[..] == Moved(old(cells[..]), cell, newPos)
    {
      if right {
        newPos := cell + 1;
      } else {
        newPos := cell - 1;
      }
      if newPos < 0 || newPos >= n {
        newPos := cell;
      }
      var status := MoveParticle(cell, newPos);
      assert status == Ok(());
    }

    /** One worker's loop, starting at cell 0, taking `draws` in order while no
        other worker moves; it stops once the draws run out. The worker carries
        its own unit from cell 0 to wherever its walk ends. */
    method ParticleRun(draws: seq<bool>) returns (cell: int)
      requires Valid() && NonNegative(cells[..]) && 0 < cells[0]
      modifies cells
      ensures cell == WalkFrom(0, n, draws)
      ensures cells[..] == Moved(old(cells[..]), 0, cell)
    {
      cell := 0;
      var i := 0;
      while i < |draws|
        invariant 0 <= i <= |draws|
        invariant cell == WalkFrom(0, n, draws[..i])
        invariant cells[..] == Moved(old(cells[..]), 0, cell)
      {
        ghost var next := NextCell(cell, n, draws[i]);
        MovedCarry(old(cells[..]), 0, cell, next);
        cell := Step(cell, draws[i]);
        assert draws[..i + 1][..i] == draws[..i];
        i := i + 1;
      }
      assert draws[..i] == draws;
    }

    /** One transition of a run whose steps do not overlap: worker `j` takes
        one whole step and updates its private position. If
        the grid mirrors the positions before, it still does after; in
        particular the move's guard holds. */
    method WorkerStep(positions: seq<int>, j: nat, right: bool) returns (positions': seq<int>)
      requires Valid() && InRange(positions, n) && j < |positions|
      requires cells[..] == Histogram(positions, n)
      modifies cells
      ensures positions' == positions[j := NextCell(positions[j], n, right)]
      ensures cells[..] == Histogram(positions', n)
    {
      HistogramOccupied(positions, n, j);
      var next := Step(positions[j], right);
      HistogramMove(positions, n, j, next);
      positions' := positions[j := next];
    }

    /** A whole run in which the `k` workers' steps happen not to overlap and
        come in the order `schedule` gives, followed by the final conservation
        check. Under that assumption the grid always equals the histogram of the workers' private positions,
        so no move ever finds its source cell empty and the total stays `k`. */
    method StartSimulation(schedule: seq<Tick>) returns (positions: seq<int>, total: int, conserved: bool)
      requires Valid() && cells[..] == Initial(n, k) && Scheduled(schedule, k)
      modifies cells
      ensures positions == Advance(Zeros(k), n, schedule)
      ensures cells[..] == Histogram(positions, n)
      ensures forall i :: 0 <= i < n ==> 0 <= cells[i] <= k
      ensures total == k && conserved
    {
      var start := Zeros(k);
      assert InRange(start, n);
      positions := start;
      HistogramInitial(n, k);
      var i := 0;
      while i < |schedule|
        invariant 0 <= i <= |schedule|
        invariant Scheduled(schedule[..i], k)
        invariant positions == Advance(start, n, schedule[..i])
        invariant cells[..] == Histogram(positions, n)
      {
        positions := WorkerStep(positions, schedule[i].particle, schedule[i].right);
        assert schedule[..i + 1][..i] == schedule[..i];
        i := i + 1;
      }
      assert schedule[..i] == schedule;
      HistogramSum(positions, n);
      HistogramBound(positions, n);
      total, conserved := VerifyTotalAtoms();
    }
  }
}
