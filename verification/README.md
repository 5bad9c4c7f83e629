# Ising-Magnet in Dafny

This project models the simulation core of the Ising-Magnet programs: a square grid of spins (+1 or -1) with periodic boundaries, evolved by Monte Carlo sweeps.

- `python/ising.py` runs single-site Metropolis sweeps.
- `python/ising_with_heatbath.py` runs four-colour heat-bath sweeps and then a running-average and heat-capacity analysis of the energy series.
- Three C++ programs share one set of lattice functions:
  - `cpp/ising_vis.cpp` uses the intended Metropolis test;
  - `cpp/main.cpp` has the comparison inside `exp`;
  - `cpp/ising_optimization.cpp` only draws coordinates.
- `cpp/lattice.cpp` is a separate lattice-gas program. It swaps 0/1 cells with non-periodic nearest neighbours.

The modules:

- `Arith`: C++ truncating `%` and `/`, `superMod`, Python's `int()`, and the `floor(n * draw)` index of a uniform draw.
- `Lattice`: grid values (`seq<seq<int>>`) and the two-dimensional buffers (`array2<int>`) the programs update in place. `Snapshot` reads a buffer back as a grid value.
- `Hamiltonian`: the energy `-1/2 Σ s·(4 neighbours)` and the flip delta `2·s·(4 neighbours)`. It proves two things:
  - the raw sum is twice the bond sum, so every halving in the programs is exact;
  - on grids of at least 2×2, a flip changes the energy by exactly the delta computed before it.
- `Acceptance` and `Metropolis`: the two forms of the acceptance test, the single-site step, and runs of steps.
- `PyIsing` and `CppIsing`: the Python and C++ Metropolis programs, as methods on a buffer.
- `Colors`, `ColorPass`, `Statistics` and `HeatBath`: the heat-bath program.
  - The colour masks are predicates.
  - A colour pass and a sweep are functions of the grid before them.
  - The program's globals are the fields of a `Simulation` object.
  - The object's methods update those fields in place.
- `LatticeGas`: the lattice-gas program. The lattice is an `array2<int>` of 0/1 cells.

Randomness enters as the draws the generators return: reals in `[0, 1)`, passed in per step or per sweep. The exponential enters as a caller-supplied function `expf` that is at least 1 on non-negative arguments; nothing else about it is assumed. Floats are exact reals. C++ `int` arithmetic is unbounded integers.

## Model

| member | source | states |
|---|---|---|
| Arith.TruncRem | cpp/main.cpp:90 | C++ `x % y` for positive `y`: strictly between `-y` and `y`, with the sign of `x` when non-zero, and congruent to `x` |
| Arith.TruncHalf | cpp/main.cpp:75 | C++ `x / 2`: rounds toward zero (remainder 0 or 1 for non-negative `x`, 0 or -1 for negative `x`) |
| Arith.SuperMod | cpp/main.cpp:89-90 | `superMod(x, y)` for `y > 0` lies in `[0, y)` and is congruent to `x`, although C++ `%` truncates |
| Arith.SuperModIsFloorMod | cpp/ising_vis.cpp:113-114 | `superMod` equals the floored remainder, which is Python's `%` |
| Arith.TruncRemNegativeWithoutCorrection | cpp/ising_optimization.cpp:76-78 | for a negative `x` that `y` does not divide, C++ `%` alone is negative; `superMod` adds `y` back |
| Arith.TruncRemOfReduced | cpp/ising_vis.cpp:96 | the trailing `% size` after `superMod` changes nothing |
| Arith.TruncToInt | python/ising_with_heatbath.py:78 | Python `int()` truncates toward zero |
| Arith.ScaledFloor | python/ising.py:60-61 | for a draw in `[0, 1)`, `floor(draw * n)` is an index in `[0, n)` when `n > 0` |
| Arith.HalvingEvenIsExact | python/ising.py:37 | on an even value, Python's `int(v / 2)` and C++'s `v / 2` both give exactly `v / 2` |
| Hamiltonian.Wrap | python/ising.py:35-36 | the periodic index lies in `[0, n)` |
| Hamiltonian.WrapIsMod | python/ising.py:35-36 | the periodic index is Python's floored `k % n` |
| Hamiltonian.WrapStep | python/ising.py:35-36 | the successor of the last index wraps to 0, and the predecessor of 0 wraps to `n - 1` |
| Hamiltonian.NeighbourSumByMod | python/ising.py:43-44 | the model's neighbour sum is the sum the programs index with `%` |
| Hamiltonian.RawIsTwiceBonds | python/ising.py:27-37 | the raw sum `Σ s·(4 neighbours)` is twice the sum over bonds, on any integer grid; so it is even and the energy is minus the bond sum |
| Hamiltonian.HalvingIsExact | python/ising_with_heatbath.py:70-78 | `int(-0.5 * raw)`, `int(-raw / 2)` and C++ `-raw / 2` all equal the energy |
| Hamiltonian.FlipChangesEnergy | python/ising.py:39-46 | on a grid of at least 2×2, negating one spin changes the energy by exactly the flip delta computed before the flip |
| Hamiltonian.SingleSiteGrid | python/ising.py:39-46 | on a 1×1 grid the flip delta is 8 but the energy does not change: the 2×2 bound is needed |
| Hamiltonian.FlipDeltaRange | cpp/main.cpp:78-83 | on a ±1 grid the flip delta is one of -8, -4, 0, 4, 8 |
| Hamiltonian.AllUpEnergy | cpp/ising_optimization.cpp:59-70 | an all-(+1) grid of `R` rows and `C` columns has energy `-2·R·C` |
| Acceptance.DownhillAccepted | cpp/ising_vis.cpp:44 | with `exp(-β·ΔE) > u`, `β >= 0` and `u < 1`, a flip with `ΔE <= 0` is always accepted |
| Acceptance.MisplacedParenthesisAcceptsAll | cpp/main.cpp:34 | `exp(-β·ΔE > u)` holds for every `ΔE` and every draw |
| Acceptance.MisplacedParenthesisAcceptsUphill | cpp/main.cpp:34-36 | at `β = 1/2`, `ΔE = 8`, `u = 1/2`, the intended test rejects and the written test accepts |
| Metropolis.Step | python/ising.py:60-64 | reference definition of one proposal: negate the proposed site when the acceptance test passes, otherwise leave the grid; the result is a grid of the same dimensions; `StepChangesOnlyProposedSite` and `StepEnergy` state its effect |
| Metropolis.Run | python/ising.py:59-64 | reference definition of a run of proposals, applied in order; the result keeps the grid's dimensions; `RunPrefix` relates it to `Step` |
| Metropolis.ProposalInGrid | python/ising.py:60-61 | the proposed site lies in the grid |
| Metropolis.StepChangesOnlyProposedSite | python/ising.py:60-64 | a step negates exactly the proposed site if the test passes; every other site keeps its value |
| Metropolis.StepKeepsSpins | python/ising.py:63-64 | a step keeps every entry ±1 |
| Metropolis.SweepsKeepSpins | cpp/main.cpp:27-38 | every entry stays ±1 through all sweeps |
| Metropolis.StepEnergy | cpp/ising_vis.cpp:42-45 | on a grid of at least 2×2, a step changes the energy by the delta its acceptance test used if accepted, by 0 otherwise |
| Metropolis.DownhillStepFlips | cpp/ising_vis.cpp:38-47 | with the intended test, a step whose delta is not positive always negates the proposed site |
| Metropolis.MisplacedParenthesisFlipsAll | cpp/main.cpp:27-38 | with the comparison inside `exp`, a run of proposals negates every proposed site, whatever the energy |
| Metropolis.RunPrefix | python/ising.py:59-64 | running the first `k + 1` proposals is one more step after the first `k` |
| Metropolis.SweepsPrefix | python/ising.py:58-64 | running the first `k + 1` sweeps is one more sweep after the first `k` |
| PyIsing.PlusMinusOne | python/ising.py:12-16 | the result is ±1, and it is 1 exactly when the draw exceeds 0.5 |
| PyIsing.Initialize | python/ising.py:18-25 | a fresh `gridSize`×`gridSize` grid; entry `(i, j)` is `plusminusone` of its own draw, so every entry is ±1 |
| PyIsing.Neighbours | python/ising.py:35-36 | the four entries read with Python's `%` by the grid's dimensions, as written, are the model's periodic neighbour sum |
| PyIsing.SiteTerm | python/ising.py:34-36 | what the loop adds for one site is the model's per-site term |
| PyIsing.CalculateEnergy | python/ising.py:27-37 | on an `nrows`×`ncols` grid the result is exactly the model's energy; the method cannot write the grid |
| PyIsing.SpinFlipEnergyChange | python/ising.py:39-46 | the result is the flip delta of the grid; the function reads the grid and does not write it |
| PyIsing.Propose | python/ising.py:60-64 | the grid after one proposal is the Metropolis step (intended test) applied to the grid before it |
| PyIsing.Sweep | python/ising.py:59-64 | `nrows·ncols` proposals, in order: the grid ends as their run |
| PyIsing.MonteCarloLoop | python/ising.py:55-66 | the grid ends as the given sweeps applied to its initial contents |
| CppIsing.PlusMinusOne | cpp/main.cpp:85-87 | the result is ±1, and it is -1 exactly when the draw is below 0.5 |
| CppIsing.PlusMinusOneAgree | cpp/ising_vis.cpp:109-111 | the C++ and Python coin flips agree on every draw except 0.5 |
| CppIsing.SuperModIsWrap | cpp/main.cpp:71-72 | `superMod` gives the periodic index, and so does `superMod(...) % size` |
| CppIsing.NeighbourTotal | cpp/main.cpp:80-82 | the four entries indexed with `superMod` (and the extra `% size`) are the model's neighbour sum |
| CppIsing.SpinFlipEnergyChange | cpp/ising_vis.cpp:102-107 | the result is the flip delta; the lattice is a value, so the caller's lattice cannot change |
| CppIsing.CalculateEnergy | cpp/ising_vis.cpp:89-100 | the truncated `-energy / 2` is exactly the model's energy |
| CppIsing.InitializeSimulation | cpp/main.cpp:49-61 | a fresh `latticeSize`×`latticeSize` lattice; entry `(i, j)` is `plusminusone` of its draw, so every entry is ±1 |
| CppIsing.Propose | cpp/ising_vis.cpp:39-46 | the lattice after one step is the Metropolis step, under the given acceptance rule |
| CppIsing.Sweep | cpp/ising_vis.cpp:38-47 | `latticeSize²` steps, in order: the lattice ends as their run |
| CppIsing.RunSweeps | cpp/main.cpp:27-38 | the lattice ends as the given sweeps applied to its initial contents |
| CppIsing.IdleSweeps | cpp/ising_optimization.cpp:29-34 | the lattice keeps its initial contents through all the sweeps; the returned count of coordinate pairs drawn (`sweeps·latticeSize²`) has no counterpart in the program and exists only so the loop has an observable result |
| Colors.MasksPartition | python/ising_with_heatbath.py:111-124 | every site lies in exactly one of the four masks |
| Colors.CornerIsRed | python/ising_with_heatbath.py:114-121 | the corner `(N-1, N-1)` is red, not green |
| Colors.MaskParity | python/ising_with_heatbath.py:112-124 | red and green sites have even `x + y`; blue and yellow sites have odd `x + y` |
| Colors.ColorIndependent | python/ising_with_heatbath.py:96-97 | for every `N`, no two distinct sites of one colour are periodic neighbours |
| Colors.InMask | python/ising_with_heatbath.py:111-124 | reference definition of the four masks: parity of `x + y`, inside or on the last row or column, with the corner moved from green to red; `MasksPartition`, `MaskParity` and `ColorIndependent` state its properties |
| Colors.ColorCells | python/ising_with_heatbath.py:96 | `isingModel[color]` visits sites of the mask, inside the grid, in strictly increasing row-major order |
| Colors.ColorCellsComplete | python/ising_with_heatbath.py:101 | every site of a mask is visited by its colour's pass |
| ColorPass.Deltas | python/ising_with_heatbath.py:96-97 | reference definition of `color_dE`: entry `k` is the flip delta of the `k`-th site, read from the grid before the pass; that this equals the delta on the grid midway through the pass is `NextDeltaUnchanged` |
| ColorPass.Decisions | python/ising_with_heatbath.py:99 | reference definition of `color_prob`: entry `k` is the test `exp(-β·ΔE_k) > u_k`; what the accepted flips do to the energy is `PassEnergy` |
| ColorPass.Pass | python/ising_with_heatbath.py:94-101 | reference definition of one colour pass: the sites of the colour negated, in row-major order, where their decision is set; its effect is stated by `PassChangesOnlyColor`, `PassKeepsSpins` and `PassEnergy` |
| ColorPass.AcceptedSum | python/ising_with_heatbath.py:103 | reference definition of `energySum` over a prefix of the sites: the deltas of the accepted sites; `PassEnergy` proves it is the energy change |
| ColorPass.PassSum | python/ising_with_heatbath.py:103-105 | reference definition of the amount a pass adds to `energy_array[sweep]`; `PassEnergy` proves it is the energy change of the pass |
| ColorPass.PassChangesOnlyColor | python/ising_with_heatbath.py:94-101 | a pass negates each site of its colour exactly when that site's test passed; every other site is unchanged |
| ColorPass.PassKeepsSpins | python/ising_with_heatbath.py:101 | a pass keeps every entry ±1 |
| ColorPass.NextDeltaUnchanged | python/ising_with_heatbath.py:96-101 | midway through a pass, the next site's delta on the current grid equals its delta read before the pass |
| ColorPass.PassEnergy | python/ising_with_heatbath.py:103-105 | for `N >= 2`, a pass changes the energy by exactly its `energySum` |
| ColorPass.SweepEnergy | python/ising_with_heatbath.py:126-132 | for `N >= 2`, a sweep (red, blue, green, yellow) changes the energy by exactly what it adds to the record |
| ColorPass.SweepKeepsSpins | python/ising_with_heatbath.py:129-132 | a sweep keeps every entry ±1 |
| ColorPass.RecordedIsEnergy | python/ising_with_heatbath.py:58 | when the record starts from the initial energy, the record after the sweeps is the energy of the resulting grid |
| ColorPass.EvolveKeepsSpins | python/ising_with_heatbath.py:126-132 | every entry stays ±1 through all sweeps |
| ColorPass.EvolvePrefix | python/ising_with_heatbath.py:126-128 | the first `k + 1` sweeps are one more sweep after the first `k`, for both the grid and the record |
| ColorPass.RecordsAreEnergies | python/ising_with_heatbath.py:126-132 | for `N >= 2`, every entry `s` of a record that starts from the initial energy is the energy after `s` sweeps |
| Statistics.Squares | python/ising_with_heatbath.py:88 | reference definition of `energySquared_array`: entry `i` is the square of entry `i`; `MeanSquareAtLeastSquaredMean` states its relation to the running average |
| Statistics.RunningAverage | python/ising_with_heatbath.py:67-68 | reference definition of `arrayRunningAverage`: the mean of entries `0..i`; its bounds and its incremental form are `RunningAverageBounds` and `RunningAverageStep` |
| Statistics.HeatCapacity | python/ising_with_heatbath.py:92 | reference definition of `heatCapacity_array[i]`: `β²·per_particle·(⟨E²⟩ − ⟨E⟩²)` over the prefix; it is 0 at index 0 and never negative (`HeatCapacityAtStart`, `HeatCapacityNonNegative`) |
| Statistics.MeanSquareAtLeastSquaredMean | python/ising_with_heatbath.py:90-92 | the running average of the squares is never below the square of the running average |
| Statistics.HeatCapacityAtStart | python/ising_with_heatbath.py:92 | the heat capacity at index 0 is zero |
| Statistics.HeatCapacityNonNegative | python/ising_with_heatbath.py:92 | with a non-negative `per_particle`, every heat capacity is non-negative |
| Statistics.RunningAverageBounds | python/ising_with_heatbath.py:67-68 | a running average lies between any bounds of the entries up to its index |
| Statistics.RunningAverageStep | python/ising_with_heatbath.py:67-68 | each running average is the previous one extended by the next entry |
| Statistics.DeviationExpands | python/ising_with_heatbath.py:92 | the squared deviation from `y` is `ΣE² - 2yΣE + n·y²` |
| HeatBath.Magnetization | python/ising_with_heatbath.py:60 | reference definition of `np.sum(isingModel)`: the total spin; `MagnetizationBound` bounds it |
| HeatBath.MagnetizationBound | python/ising_with_heatbath.py:60 | the total spin of an `m`×`n` ±1 grid lies in `[-mn, mn]` |
| HeatBath.RunningAverageOfPrefix | python/ising_with_heatbath.py:67-68 | a running average reads only the entries up to its index |
| HeatBath.CalculateEnergy | python/ising_with_heatbath.py:70-78 | `int(-0.5 * energy)` is exactly the model's energy of the grid |
| HeatBath.FlipAccepted | python/ising_with_heatbath.py:101 | the in-place assignment negates exactly the listed sites whose flag is set |
| HeatBath.HeatCapacityFrom | python/ising_with_heatbath.py:92 | the value the loop computes from the stored averages is the heat capacity of the series at that index |
| HeatBath.AverageSquaredFrom | python/ising_with_heatbath.py:91 | the square of the stored running average is the squared-average entry |
| HeatBath.AnalysisComplete | python/ising_with_heatbath.py:86-92 | series that agree with their reference values are, entry by entry, the squares, running averages and squared averages of the energies |
| HeatBath.Simulation.constructor | python/ising_with_heatbath.py:21-60 | `inv_temperature = 1/T` and `per_particle = 1/N²`; a ±1 grid from the draws; entry 0 holds the energy, its square and the squared magnetization; every other entry is 0 |
| HeatBath.Simulation.ColorSwap | python/ising_with_heatbath.py:94-105 | the grid becomes the pass of the colour, `energy_array[sweep]` grows by the pass's `energySum`, and no other entry changes |
| HeatBath.Simulation.Sweep | python/ising_with_heatbath.py:128-132 | `energy_array[sweep]` becomes `energy_array[sweep-1]` plus the four passes' sums, and the grid becomes the sweep of the old grid; no other entry changes |
| HeatBath.Simulation.NextSweep | python/ising_with_heatbath.py:126-132 | sweep `s` carries the grid and the record of the first `s - 1` sweeps on to the first `s` |
| HeatBath.Simulation.MonteCarloLoop | python/ising_with_heatbath.py:107-132 | the grid ends as the sweeps of its initial contents; entry 0 is kept; entry `s` is the record after `s` sweeps |
| HeatBath.Simulation.AverageEntry | python/ising_with_heatbath.py:88-90 | entry `i` of the squared energies, the running average of the energies, and the running average of their squares all take their reference values |
| HeatBath.Simulation.CapacityEntry | python/ising_with_heatbath.py:91-92 | entry `i` of the squared average and of the heat capacity take their reference values |
| HeatBath.Simulation.EnergyAnalysis | python/ising_with_heatbath.py:86-92 | every entry of every series is its formula over the energy prefix; every heat capacity is ≥ 0; the first is 0 |
| LatticeGas.Site | cpp/lattice.cpp:67-69 | `rand_x` and `rand_y` are cell indices, and `neighboor` is in `{0, 1, 2, 3}` |
| LatticeGas.Choose | cpp/lattice.cpp:71-86 | a step either stays put or picks a cell inside the lattice at distance exactly 1, with no wrap-around |
| LatticeGas.LowerMoveCondition | cpp/lattice.cpp:71-77 | a move to a lower row (column) is made exactly when `rand_x >= 2` (`rand_y >= 2`) as written, or `>= 1` when corrected |
| LatticeGas.UpperMoveCondition | cpp/lattice.cpp:79-85 | a move to a higher row or column is made exactly when the index is at most `N - 2`, toward `+1` |
| LatticeGas.EdgeMoveRefused | cpp/lattice.cpp:71-77 | from row 1 (column 1) the written test never moves to row 0 (column 0); the corrected test does |
| LatticeGas.CorrectedIsSymmetric | cpp/lattice.cpp:71-85 | with the corrected test, a cell can move toward the lower edge exactly when its mirror image can move toward the upper edge |
| LatticeGas.Swapped | cpp/lattice.cpp:40-44 | the two cells exchange values and every other cell is unchanged |
| LatticeGas.SwapTwice | cpp/lattice.cpp:40-44 | swapping the same two cells twice restores the grid |
| LatticeGas.ValueSwap | cpp/lattice.cpp:40-44 | the lattice after `valueSwap` is the old lattice with the two cells exchanged |
| LatticeGas.SwapKeepsCount | cpp/lattice.cpp:40-44 | a swap keeps the number of cells of every value, particles (1) and holes (0) included |
| LatticeGas.HalfRows | cpp/lattice.cpp:31 | `floor(N * 0.5)` is `N / 2` |
| LatticeGas.Initial | cpp/lattice.cpp:25-38 | the starting lattice is `N`×`N`: rows below `N / 2` hold 0, the rest hold 1 |
| LatticeGas.InitialCounts | cpp/lattice.cpp:31-37 | the starting lattice holds `(N - N/2)·N` particles and `(N/2)·N` holes |
| LatticeGas.FillRow | cpp/lattice.cpp:32 | `fill` sets every cell of one row and changes no other row |
| LatticeGas.Initialize | cpp/lattice.cpp:25-38 | a fresh `N`×`N` lattice whose contents are the starting lattice |
| LatticeGas.Step | cpp/lattice.cpp:66-87 | reference definition of one step of the inner loop on a grid value: the move `Choose` picks, applied with `Swapped`; the result is again `N`×`N`; `StepIsNeighbourSwap` and `StepKeepsCount` state its effect |
| LatticeGas.Steps | cpp/lattice.cpp:59-88 | reference definition of the steps of a list of draws, in order; the result is again `N`×`N`; `StepsKeepCount` and `StepsAppend` state its properties |
| LatticeGas.StepIsNeighbourSwap | cpp/lattice.cpp:66-87 | a step either leaves the lattice unchanged or swaps the chosen cell with one in-bounds 4-neighbour |
| LatticeGas.StepKeepsCount | cpp/lattice.cpp:66-87 | a step keeps the number of particles and of holes |
| LatticeGas.StepInPlace | cpp/lattice.cpp:66-87 | the lattice after one step of the inner loop is the step applied to the lattice before it |
| LatticeGas.StepsKeepCount | cpp/lattice.cpp:59-88 | any run of steps keeps the number of particles and of holes |
| LatticeGas.StepsAppend | cpp/lattice.cpp:59-88 | running two lists of draws one after the other is running their concatenation |
| LatticeGas.Sweep | cpp/lattice.cpp:66-87 | the lattice ends as the sweep's steps applied in order |
| LatticeGas.Sweeps | cpp/lattice.cpp:59-88 | with `N²` steps per sweep, the lattice ends as all sweeps' steps applied in order |
| LatticeGas.Simulate | cpp/lattice.cpp:52-88 | from the starting lattice, after all sweeps there are still `(N - N/2)·N` particles and `(N/2)·N` holes |

## Left out

- Randomness: `rand()`, `random_device`, `mt19937` and `uniform_real_distribution` are not modelled. Their draws are inputs in `[0, 1)`.
- The upper end of the draws: `uniform_real_distribution<float>` can round up to 1.0 on some library versions. That would make `rand_x == latticeSize` and index out of range. The model requires draws below 1.
- The exponential: `exp` is a parameter with `exp(t) >= 1` for `t >= 0`. Floats are exact reals, so float rounding in `floor(n * draw)`, `inv_temperature`, `per_particle` and the running averages is not modelled.
- Integer width: C++ `int` is unbounded here. The sums stay within `4·N²` in absolute value (40000 for the programs' sizes), far inside 32 bits.
- Output and timing:
  - `startProgram`'s paths and directories, `plotModel`, the Excel and GIF export of `DataAnalysis`;
  - the final `cout` dumps;
  - `time.time()`;
  - SDL windows and drawing: `drawFrame`, `draw_state`, `SDL_Delay`.
- The programs' top-level constants (sizes, sweep counts, temperatures) are parameters.
- `ising.py`'s `coupling_constant` is folded in, because it is 1.
- `plusminusone` calls in the initialisers: each site's draw is given in a grid of draws.
- `np.roll`, `np.indices`, boolean mask indexing and `nditer`: modelled by their index meaning only:
  - periodic neighbours;
  - masks as predicates;
  - `isingModel[color]` as the mask's sites in row-major order;
  - `nditer` as row-major filling.
- `resize` of a `vector` that already holds rows is not modelled. Every program calls it on an empty lattice, modelled as a fresh buffer.
- The initial energy computed and discarded by `initializeSimulation` is computed and discarded in the model too. Its value is not stated.
- `magnitizationSquared_array` is written only at index 0 and otherwise stays 0. It is not analysed further.
- PyIsing.CalculateEnergy: requires at least one row. With no rows the program raises on `isingModel[0]`, an error path the model does not include.
- HeatBath.CalculateEnergy: requires a positive `simulation_size`. For size 0 the program returns 0; that case is left out. The program's size is the constant 250.
- HeatBath.Simulation.constructor: requires a non-zero temperature (the program would raise on `1/temperature`) and a positive size.
- Acceptance.Accepts: Python's `math.exp` raises `OverflowError` above about 709.78. A downhill delta of -8 gives the argument `8β`, so the Python programs raise once the temperature is below about 0.0113. The model's `expf` is total, so this error path is not modelled. The programs' temperatures (2 and 0.1) give `8β` = 4 and 80. C++ `exp` returns infinity instead and does not raise.
- ColorPass.Decisions: does not model the `OverflowError` of `math.exp` for `-β·ΔE` above about 709.78, as for `Acceptance.Accepts`.
- PyIsing.Propose: does not model the `OverflowError` of `math.exp` for `-β·ΔE` above about 709.78, as for `Acceptance.Accepts`; nor do `PyIsing.Sweep` and `PyIsing.MonteCarloLoop`, which call it.
- HeatBath.Simulation.ColorSwap: does not model the `OverflowError` of `math.exp` for `-β·ΔE` above about 709.78, as for `Acceptance.Accepts`.
- HeatBath.Simulation.MonteCarloLoop: states that entry `s` is the record after `s` sweeps. That this equals the energy of the grid is the lemma `ColorPass.RecordsAreEnergies`, for grids of at least 2×2.
- HeatBath.Simulation.Sweep: each sweep's draws come as one `SweepDraws` value, one draw per site of each colour.
- LatticeGas.Simulate: requires a positive lattice size. The program's size is the constant 100.

## Findings

| source | as written | input that shows it | evidently intended | confidence | as-written member | corrected member |
|---|---|---|---|---|---|---|
| cpp/main.cpp:34 | `exp(-inv_temperature*spinFlipCandidate > dist(rd))`: the comparison sits inside `exp`, so the test is `exp(0)` or `exp(1)`, always true | β = 1/2, ΔE = 8, draw 1/2: the written test accepts, although `exp(-4) < 1/2` | `exp(-inv_temperature*spinFlipCandidate) > dist(rd)`, as in `cpp/ising_vis.cpp:44` | not executed | Acceptance.MisplacedParenthesisAcceptsUphill | Acceptance.DownhillAccepted |
| cpp/lattice.cpp:71 | `rand_x - 1 > 0` (and `rand_y - 1 > 0` at line 75) refuses the move from index 1 to index 0 | `rand_x = 1`, `neighboor = 0`: the step does nothing, though row 0 exists | `rand_x - 1 >= 0`: symmetric with the `rand_x + 1 < lattice_size` test | not executed | LatticeGas.EdgeMoveRefused | LatticeGas.CorrectedIsSymmetric |
