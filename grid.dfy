/** Value-level specification shared by both simulations (Cells1 with its lock,
    Cells0 without): the occupancy grid as a sequence of counters, the effect of
    one move on it, a particle's step rule, and the histogram of particle
    positions that the grid mirrors. */
module Grid {

  /** Largest value of a C# `int`; `int.Parse` yields nothing larger. */
  const MaxInt32: int := 0x7fff_ffff

  /** The exception an out-of-range array access or `GetCell` raises. */
  datatype Result<T> = Ok(value: T) | IndexOutOfRange

  /** The constructor's parameter check: `n` cells, `k` particles, threshold `p`. */
  predicate ValidConfig(n: int, k: int, p: real)
  {
    0 < n && 0 < k && 0.0 <= p <= 1.0
  }

  function Zeros(n: nat): seq<int>
  {
    seq(n, _ => 0)
  }

  /** The grid right after construction: `new int[n]` then `cells[0] = k`. */
  function Initial(n: nat, k: int): (s: seq<int>)
    requires 0 < n
    ensures |s| == n && s[0] == k
    ensures forall i :: 0 < i < n ==> s[i] == 0
  {
    Zeros(n)[0 := k]
  }

  predicate NonNegative(s: seq<int>)
  {
    forall i :: 0 <= i < |s| ==> 0 <= s[i]
  }

  /** Total occupancy, accumulated left to right as `VerifyTotalAtoms` does. */
  function Sum(s: seq<int>): int
  {
    if |s| == 0 then 0 else Sum(s[..|s| - 1]) + s[|s| - 1]
  }

  // ---------------------------------------------------------------------------
  // Facts about Sum

  lemma {:induction false} SumZeros(n: nat)
    ensures Sum(Zeros(n)) == 0
  {
    if n > 0 {
      assert Zeros(n)[..n - 1] == Zeros(n - 1);
      SumZeros(n - 1);
    }
  }

  /** Overwriting one counter changes the total by exactly the difference. */
  lemma {:induction false} SumUpdate(s: seq<int>, i: int, v: int)
    requires 0 <= i < |s|
    ensures Sum(s[i := v]) == Sum(s) - s[i] + v
  {
    var m := |s| - 1;
    if i == m {
      assert s[i := v][..m] == s[..m];
    } else {
      assert s[i := v][..m] == s[..m][i := v];
      SumUpdate(s[..m], i, v);
    }
  }

  lemma {:induction false} SumNonNegative(s: seq<int>)
    requires NonNegative(s)
    ensures 0 <= Sum(s)
  {
    if |s| > 0 {
      SumNonNegative(s[..|s| - 1]);
    }
  }

  /** Every running total of the summing loop lies between 0 and the final
      total, so on a non-negative grid the accumulator never exceeds it. */
  lemma {:induction false} PrefixSumBound(s: seq<int>, j: int)
    requires NonNegative(s) && 0 <= j <= |s|
    ensures 0 <= Sum(s[..j]) <= Sum(s)
  {
    SumNonNegative(s[..j]);
    if j < |s| {
      var m := |s| - 1;
      assert s[..m][..j] == s[..j];
      PrefixSumBound(s[..m], j);
    } else {
      assert s[..j] == s;
    }
  }

  /** On a non-negative grid no single counter exceeds the total. */
  lemma CellAtMostSum(s: seq<int>, i: int)
    requires NonNegative(s) && 0 <= i < |s|
    ensures 0 <= s[i] <= Sum(s)
  {
    SumUpdate(s, i, 0);
    SumNonNegative(s[i := 0]);
  }

  lemma InitialConserved(n: nat, k: int)
    requires 0 < n && 0 <= k
    ensures NonNegative(Initial(n, k)) && Sum(Initial(n, k)) == k
  {
    SumZeros(n);
    SumUpdate(Zeros(n), 0, k);
  }

  // ---------------------------------------------------------------------------
  // The move

  /** `MoveParticle(from, to)` on in-range indices: when `from` is occupied one
      unit leaves it (`cells[from]--`) and then arrives at `to` (`cells[to]++`);
      when it is empty nothing happens. */
  function Moved(s: seq<int>, from: int, to: int): (r: seq<int>)
    requires 0 <= from < |s| && 0 <= to < |s|
    ensures |r| == |s|
    ensures forall i :: 0 <= i < |s| && i != from && i != to ==> r[i] == s[i]
    ensures s[from] <= 0 || from == to ==> r == s
    ensures 0 < s[from] && from != to ==> r[from] == s[from] - 1 && r[to] == s[to] + 1
  {
    if s[from] > 0 then
      var d := s[from := s[from] - 1];
      d[to := d[to] + 1]
    else
      s
  }

  /** A move conserves the total and keeps every counter non-negative. */
  lemma MovedConserves(s: seq<int>, from: int, to: int)
    requires 0 <= from < |s| && 0 <= to < |s|
    ensures Sum(Moved(s, from, to)) == Sum(s)
    ensures NonNegative(s) ==> NonNegative(Moved(s, from, to))
  {
    if s[from] > 0 {
      var d := s[from := s[from] - 1];
      SumUpdate(s, from, s[from] - 1);
      SumUpdate(d, to, d[to] + 1);
    }
  }

  /** A unit carried from `a` to `b` and then on from `b` to `c` is the same as
      a unit carried from `a` to `c`: the second move always finds `b` occupied. */
  lemma MovedCarry(s: seq<int>, a: int, b: int, c: int)
    requires NonNegative(s) && 0 <= a < |s| && 0 <= b < |s| && 0 <= c < |s|
    requires 0 < s[a]
    ensures 0 < Moved(s, a, b)[b]
    ensures Moved(Moved(s, a, b), b, c) == Moved(s, a, c)
  {
  }

  // ---------------------------------------------------------------------------
  // The step rule

  /** One step of a particle at `cell`: the candidate is `cell + 1` when the draw
      says "right" (`m > p`; a larger `p` therefore favours the left) and
      `cell - 1` otherwise; a candidate outside `[0, n)` is replaced by `cell`. */
  function NextCell(cell: int, n: int, right: bool): (r: int)
    requires 0 <= cell < n
    ensures 0 <= r < n
    ensures cell - 1 <= r <= cell + 1
    ensures r == cell <==> (if right then cell == n - 1 else cell == 0)
    ensures r > cell <==> right && cell < n - 1
  {
    var candidate := if right then cell + 1 else cell - 1;
    if candidate < 0 || candidate >= n then cell else candidate
  }

  /** Where a particle that starts at `cell` is after taking `draws` in order. */
  function WalkFrom(cell: int, n: int, draws: seq<bool>): (r: int)
    requires 0 <= cell < n
    ensures 0 <= r < n
    ensures cell - |draws| <= r <= cell + |draws|
  {
    if |draws| == 0 then cell
    else NextCell(WalkFrom(cell, n, draws[..|draws| - 1]), n, draws[|draws| - 1])
  }

  // ---------------------------------------------------------------------------
  // Serialized runs of many particles

  /** One whole step of one particle: which particle, and its draw. */
  datatype Tick = Tick(particle: nat, right: bool)

  predicate InRange(pos: seq<int>, n: int)
  {
    forall j :: 0 <= j < |pos| ==> 0 <= pos[j] < n
  }

  predicate Scheduled(schedule: seq<Tick>, k: int)
  {
    forall i :: 0 <= i < |schedule| ==> schedule[i].particle < k
  }

  /** The private positions after every tick of `schedule` has been taken. */
  function Advance(pos: seq<int>, n: int, schedule: seq<Tick>): (r: seq<int>)
    requires InRange(pos, n) && Scheduled(schedule, |pos|)
    ensures |r| == |pos| && InRange(r, n)
  {
    if |schedule| == 0 then pos
    else
      var q := Advance(pos, n, schedule[..|schedule| - 1]);
      var t := schedule[|schedule| - 1];
      q[t.particle := NextCell(q[t.particle], n, t.right)]
  }

  /** The draws that `schedule` gives particle `j`, in order. */
  function DrawsOf(schedule: seq<Tick>, j: int): seq<bool>
  {
    if |schedule| == 0 then []
    else
      var t := schedule[|schedule| - 1];
      DrawsOf(schedule[..|schedule| - 1], j) + (if t.particle == j then [t.right] else [])
  }

  /** However the steps of different particles interleave, each particle ends
      where its own walk over its own draws takes it. */
  lemma {:induction false} AdvanceIsOwnWalk(pos: seq<int>, n: int, schedule: seq<Tick>, j: int)
    requires InRange(pos, n) && Scheduled(schedule, |pos|) && 0 <= j < |pos|
    ensures Advance(pos, n, schedule)[j] == WalkFrom(pos[j], n, DrawsOf(schedule, j))
  {
    if |schedule| > 0 {
      var m := |schedule| - 1;
      var t := schedule[m];
      var d := DrawsOf(schedule[..m], j);
      AdvanceIsOwnWalk(pos, n, schedule[..m], j);
      if t.particle == j {
        assert (d + [t.right])[..|d|] == d;
      } else {
        assert d + [] == d;
      }
    }
  }

  /** Cell `c` of the histogram counts the particles whose position is `c`. */
  function Histogram(pos: seq<int>, n: nat): (h: seq<int>)
    ensures |h| == n
  {
    seq(n, c => multiset(pos)[c])
  }

  /** All `k` particles start in cell 0, which is exactly the initial grid. */
  lemma HistogramInitial(n: nat, k: nat)
    requires 0 < n
    ensures Histogram(Zeros(k), n) == Initial(n, k)
  {
    ZerosMultiset(k);
  }

  lemma {:induction false} ZerosMultiset(k: nat)
    ensures forall c :: multiset(Zeros(k))[c] == if c == 0 then k else 0
  {
    if k == 0 {
      assert Zeros(k) == [];
    } else {
      assert Zeros(k) == Zeros(k - 1) + [0];
      ZerosMultiset(k - 1);
    }
  }

  /** The histogram of in-range positions holds every particle exactly once. */
  lemma {:induction false} HistogramSum(pos: seq<int>, n: nat)
    requires InRange(pos, n)
    ensures NonNegative(Histogram(pos, n))
    ensures Sum(Histogram(pos, n)) == |pos|
  {
    if |pos| == 0 {
      assert Histogram(pos, n) == Zeros(n);
      SumZeros(n);
    } else {
      var m := |pos| - 1;
      var x := pos[m];
      assert pos == pos[..m] + [x];
      HistogramSum(pos[..m], n);
      var h := Histogram(pos[..m], n);
      assert Histogram(pos, n) == h[x := h[x] + 1];
      SumUpdate(h, x, h[x] + 1);
    }
  }

  /** No cell holds more particles than there are. */
  lemma HistogramBound(pos: seq<int>, n: nat)
    requires InRange(pos, n)
    ensures forall c :: 0 <= c < n ==> 0 <= Histogram(pos, n)[c] <= |pos|
  {
  }

  /** The cell a particle occupies is never empty: the guard `cells[from] > 0`
      holds for every particle's move. */
  lemma HistogramOccupied(pos: seq<int>, n: nat, j: int)
    requires InRange(pos, n) && 0 <= j < |pos|
    ensures 0 < Histogram(pos, n)[pos[j]]
  {
  }

  /** Moving particle `j` to `b` and moving one unit from its cell to `b` in
      the grid keep the grid equal to the histogram of positions. */
  lemma HistogramMove(pos: seq<int>, n: nat, j: int, b: int)
    requires InRange(pos, n) && 0 <= j < |pos| && 0 <= b < n
    ensures Histogram(pos[j := b], n) == Moved(Histogram(pos, n), pos[j], b)
  {
  }
}
