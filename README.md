# Random-walk cells: a Dafny model

The repository has two versions of one simulation. `k` particles walk on a line of
`n` cells. A shared `int[] cells` counts the particles in each cell. It starts as
`[k, 0, …, 0]`. Each particle runs in its own task. It draws a direction, computes
`cell ± 1`, and clamps that back to `cell` when it leaves `[0, n)`. It then calls
`MoveParticle(cell, newPos)`, which moves one unit from `cell` to `newPos` only when
`cells[cell] > 0`. At the end, `VerifyTotalAtoms` sums the grid and reports whether
the total is still `k`. `Cells1` runs every move under one lock. `Cells0` has no lock.

The model has three modules:

- `Grid` (grid.dfy) is the value-level specification. It defines the grid as a
  `seq<int>`, the effect of one move (`Moved`), the step rule (`NextCell`), one
  particle's walk (`WalkFrom`) and a serialized run of many particles (`Advance`
  over a schedule of `Tick`s). It also defines the histogram of the particles'
  private positions. Its lemmas say that a move conserves the total and that the
  grid mirrors the positions.
- `Cells1` (cells1.dfy) is the locked program as a class. `cells` is an
  `array<int>`. `MoveParticle` updates it in place. `VerifyTotalAtoms` is the
  summing loop, and `ParticleRun` is one worker's loop. `StartSimulation` is a
  whole run whose whole-step transitions are serialized by the lock.
- `Cells0` (cells0.dfy) is the unguarded program with the same members. Its run is
  modelled only when the workers' calls do not overlap.

The central theorem is `StartSimulation`'s postcondition. In a serialized run, the
grid always equals the histogram of the `k` private positions. So the guard
`cells[from] > 0` never fails, every cell stays within `[0, k]`, and the final sum
is exactly `k`.

Two decisions shape the model:

- Each direction draw `m > p` is a `bool` (`right`). A larger `p` therefore means
  more moves to the left, as in the program.
- The stop flag is represented by the finite list of draws or ticks taken before
  the stop is seen.

## Model

| member | source | states |
|---|---|---|
| `Cells1.Cells1.Create` | Cells1/Cells1.cs:38-59 | No grid exists unless `n > 0`, `k > 0` and `0 ≤ p ≤ 1`. An accepted configuration yields a fresh grid of length `n` with `cells[0] == k`, every other cell 0, and total `k`. |
| `Cells1.Cells1.constructor` | Cells1/Cells1.cs:57-58 | The new grid is `Initial(n, k)`: `k` in cell 0 and 0 elsewhere. It is non-negative and sums to `k`. |
| `Cells1.Cells1.GetCell` | Cells1/Cells1.cs:94-105 | Returns `cells[i]` for `0 ≤ i < n`, otherwise `IndexOutOfRange`. It has no `modifies` clause, so it changes nothing. |
| `Cells1.Cells1.MoveParticle` | Cells1/Cells1.cs:107-117 | With in-range indices the new grid is `Moved(old, from, to)`. A bad `from` raises and changes nothing. A bad `to` raises after an occupied `from` is already decremented, which loses a unit. With in-range indices, a conserved grid stays conserved, with every cell in `[0, k]`. |
| `Cells1.Cells1.VerifyTotalAtoms` | Cells1/Cells1.cs:133-153 | `total` is the sum of all cells. The verdict is `total == k`. On a conserved grid the verdict is "unchanged". |
| `Cells1.Cells1.Step` | Cells1/Cells1.cs:162-180 | The new position is `NextCell(cell, n, right)`. The new grid is `Moved(old, cell, newPos)`: one unit moves when `cell` is occupied, otherwise nothing changes. The move never raises. |
| `Cells1.Cells1.ParticleRun` | Cells1/Cells1.cs:155-191 | A worker that starts at cell 0 and runs alone ends at `WalkFrom(0, n, draws)`. Its moves add up to carrying one unit from cell 0 to that cell. |
| `Cells1.Cells1.WorkerStep` | Cells1/Cells1.cs:174-180 | One atomic whole step of worker `j` keeps the grid equal to the histogram of private positions. The step's guard holds. |
| `Cells1.Cells1.StartSimulation` | Cells1/Cells1.cs:61-92 | For any schedule of whole steps, the positions are `Advance(start, schedule)` and the grid is their histogram. Every cell is in `[0, k]`, and the final check finds total `k`. |
| `Cells0.Cells0.Create` | Cells0/Cells0.cs:36-57 | Same acceptance rule as Cells1: `n > 0`, `k > 0`, `0 ≤ p ≤ 1`. Otherwise no grid exists. |
| `Cells0.Cells0.constructor` | Cells0/Cells0.cs:55-56 | The new grid is `[k, 0, …, 0]` of length `n`, with total `k`. |
| `Cells0.Cells0.GetCell` | Cells0/Cells0.cs:92-98 | Returns `cells[i]` in range and `IndexOutOfRange` outside `[0, n)`. It has no side effects. |
| `Cells0.Cells0.MoveParticle` | Cells0/Cells0.cs:100-107 | When running alone, an occupied `from` gives one unit to `to` and no other cell changes. An empty `from` changes nothing. The exception paths are as in Cells1. |
| `Cells0.Cells0.VerifyTotalAtoms` | Cells0/Cells0.cs:120-137 | `total` is the sum of the cells. The verdict is `total == k`. |
| `Cells0.Cells0.Step` | Cells0/Cells0.cs:146-164 | The new position is the clamped `cell ± 1`. The new grid is `Moved(old, cell, newPos)`: one unit moves when `cell` is occupied, otherwise nothing changes. The move never raises. |
| `Cells0.Cells0.ParticleRun` | Cells0/Cells0.cs:139-175 | A worker alone ends at its walk's end and carries one unit there from cell 0. |
| `Cells0.Cells0.WorkerStep` | Cells0/Cells0.cs:158-164 | A non-overlapping whole step keeps the grid equal to the histogram of private positions. |
| `Cells0.Cells0.StartSimulation` | Cells0/Cells0.cs:59-90 | With non-overlapping calls, the sum equals `k` after any schedule, and every cell is in `[0, k]`. |
| `Grid.Moved` | Cells1/Cells1.cs:111-115 | No cell other than `from` and `to` changes. An empty `from`, or `from == to`, leaves the grid unchanged. Otherwise `from` loses one and `to` gains one. |
| `Grid.MovedConserves` | Cells1/Cells1.cs:111-115 | A move keeps the total and keeps every counter non-negative. |
| `Grid.MovedCarry` | Cells1/Cells1.cs:160-180 | Moving a unit from `a` to `b` and then from `b` to `c` equals moving it from `a` to `c`. The second move finds `b` occupied. |
| `Grid.NextCell` | Cells1/Cells1.cs:164-177 | The result is in `[0, n)` and differs from `cell` by at most 1. It stays at `cell` exactly at the wall it is pushed against. It moves right exactly when the draw says right and `cell < n - 1`. |
| `Grid.WalkFrom` | Cells0/Cells0.cs:144-164 | A walk of `t` draws stays in `[0, n)` and ends within `t` cells of its start. |
| `Grid.Initial` | Cells1/Cells1.cs:57-58 | The grid built by the constructor has length `n`, holds `k` in cell 0 and 0 in every other cell. |
| `Grid.Advance` | Cells1/Cells1.cs:155-180 | After any schedule of whole steps there is still one position per particle, and every position lies in `[0, n)`. |
| `Grid.AdvanceIsOwnWalk` | Cells1/Cells1.cs:155-158 | However whole steps interleave, each particle ends where its own walk over its own draws takes it. |
| `Grid.InitialConserved` | Cells0/Cells0.cs:55-56 | The initial grid is non-negative and sums to `k`. |
| `Grid.HistogramInitial` | Cells1/Cells1.cs:57-58 | `k` particles all at cell 0 have exactly the initial grid as their histogram. |
| `Grid.HistogramSum` | Cells1/Cells1.cs:145 | The histogram of in-range positions is non-negative and sums to the number of particles. |
| `Grid.HistogramBound` | Cells0/Cells0.cs:104-105 | No cell of the histogram exceeds the number of particles. |
| `Grid.HistogramOccupied` | Cells1/Cells1.cs:111 | A particle's own cell is never empty, so the guard `cells[from] > 0` holds. |
| `Grid.HistogramMove` | Cells1/Cells1.cs:179-180 | Moving particle `j` to `b` and applying `Moved(grid, pos[j], b)` keep grid and histogram equal. |
| `Grid.PrefixSumBound` | Cells1/Cells1.cs:138-141 | Every running total of the summing loop on a non-negative grid lies in `[0, total]`. So the 32-bit accumulator never exceeds `k`. |
| `Grid.CellAtMostSum` | Cells0/Cells0.cs:104-105 | On a non-negative grid each counter is at most the total. So `cells[to]++` cannot pass `k ≤ 2³¹ − 1`. |

## Left out

- Threads and tasks are not modelled: `Task.Run`, `Task.WaitAll`, the swallowed `AggregateException` and the `volatile running` flag. A run is a finite schedule of whole steps. In Cells1 the lock makes every `MoveParticle`, and so every step, atomic. That is the only part of the concurrency the model keeps.
- The data race in Cells0 is not modelled. Two unguarded workers can both pass `cells[from] > 0` and both decrement, and the total can drift from `k`. That is an interleaving effect that a sequential model cannot show. Every Cells0 member here describes calls that do not overlap.
- `PrintSnapshot` and the 60-iteration snapshot loop are not modelled. They only read the grid and format text.
- `Random.NextDouble` and the comparison `m > p` are not modelled. Each draw is a `bool` (`right` means `m > p`). `p` is a `real`, used only for the constructor's check. NaN and infinite `double` values are not modelled. `double.Parse` accepts "NaN", and NaN passes the check `p < 0 || p > 1`.
- `Thread.Sleep`, `TIME_UNIT_MS` and `ThreadInterruptedException` are not modelled. They only affect timing.
- Argument handling is not modelled: `int.Parse`, `double.Parse`, the argument-count check, the usage message, console output and `Environment.Exit`. `Create` takes already-parsed 32-bit values and returns null where the program exits.
- Cells1.Cells1.ParticleRun: models one worker's loop with no other worker moving in between, starting from an occupied cell 0. Interleaved workers are covered by `StartSimulation` and `Grid.AdvanceIsOwnWalk` instead.
- Cells0.Cells0.ParticleRun: same restriction as in Cells1.
- Cells1.Cells1.MoveParticle: does not model 32-bit wrap-around of `cells[to]++`. It cannot occur on a conserved grid, because every cell is at most `k ≤ 2³¹ − 1`.
- Cells0.Cells0.MoveParticle: same as Cells1; no 32-bit wrap-around.
- Cells1.Cells1.VerifyTotalAtoms: does not model 32-bit wrap-around of `total`. It cannot occur on a non-negative grid whose sum is `k ≤ 2³¹ − 1`, because `Grid.PrefixSumBound` bounds every running total by the sum.
- Cells0.Cells0.VerifyTotalAtoms: same as Cells1; no 32-bit wrap-around of `total`.
- Cells1.Cells1.StartSimulation: starts from the freshly constructed grid, as `Main` does. It returns the final positions and the verdict instead of printing them.
- Cells0.Cells0.StartSimulation: same as Cells1, and only for non-overlapping calls.
