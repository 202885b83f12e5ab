# Predator–prey agent-based model in Dafny

This project models the core of the Predator_Prey_Agent_Besed_Model
repository. That repository runs a discrete-time predator–prey simulation
on a toroidal `GRID_SIZE × GRID_SIZE` grid, repeats it many times for each
parameter point, and reduces each point to its majority outcome:
0 means all prey died, 1 means all predators died, 2 means coexistence.

The model covers five source files:

- **The CPU step engine** (`engine.dfy`, module `Engine`).
  - The same engine is copied into reproduction.py, phase_diagram_ratio.py,
    phaseDiag.py and main.py. It is written once, as the class
    `Engine.World`.
  - `World` holds the grid as an `array2<Cell>`, the two agent lists as
    sequences of object ids, and the agents' mutable `x`/`y`/`energy`
    fields as the maps `preyAt` and `wolves`.
  - A `Rules` value carries what differs between the copies: food gain,
    move cost, initial energy, whether agents reproduce
    (reproduction.py), and whether eating sets the energy-gain display
    flags (main.py).
- **The neighbourhood** (`torus.dfy`). This is `get_neighbors`.
- **The trial driver** (`trial.dfy`). This is `run_simulation`:
  rejection-sampling placement, the step loop bounded by `MAX_STEPS`, and
  the 0/1/2 classification.
  - Each CPU file is a `Setup` value holding its own constants.
  - The interactive viewer of main.py is the class `Viewer.Simulation`.
- **The CUDA kernel** (`gpu.dfy`). This is `run_simulation_kernel`, run
  for one thread on `array2<int>` cell codes and energies: placement, a
  copy-then-update step, the death sweep, and the extinction census.
- **The sweeps and the majority aggregation** (`sweep.dfy`,
  `majority.dfy`, `drivers.dfy`).
  - `Sweep` covers the clamping of `(num_prey, num_predators)`, the
    replication of each point `NUM_SIMULATIONS` times, and the NaN marking
    of skipped points.
  - `Outcomes` covers `Counter(outcomes).most_common(1)[0][0]` (the most
    frequent outcome, ties going to the value seen first) and the grouping
    of results by position.

Every random draw is a parameter, so each property holds for every
possible outcome of the generator:

- `randint` pairs are a stream `nat -> Pos` in which every cell keeps
  recurring.
- A `shuffle` is a permutation of indices.
- A `choice` is an index taken modulo the list length.
- A coin `random() < p` is a boolean.

Two behaviours of the code are kept as written:

- A predator that cannot move pays the move cost twice: once in the `else`
  branch and again in `if not moved`.
- Initial predator placement may land on a prey. That prey stays in
  `prey_list`, off the grid.

For this reason `World.Valid()` is the weak invariant: every cell's
occupant is listed and located there. It holds throughout a trial.
`World.Consistent()` adds the converse: every listed agent is on the grid
at its own coordinates. Every step operation preserves `Consistent()` when
it already held.

Three more facts about the code shape the contracts:

- A prey covered by a predator at placement still moves. When it finds an
  empty neighbour, `move_prey` sets its old cell to `None`
  (reproduction.py:81-87), and that clears the predator standing there.
  The predator stays in `predator_list`, off the grid. So
  `World.MovePrey` keeps predator cells unchanged only when the grid was
  consistent.
- Each placement loop retries until it draws an acceptable cell
  (reproduction.py:43-59). For prey that is an empty cell, for predators
  an empty or prey cell, so on a board with no such cell the loop never
  ends.
- No step checks the occupancy invariant. `Valid()` and `Consistent()`
  are proved about the steps, not tested by them.

## Model

| member | source | states |
|---|---|---|
| Torus.Wrap | reproduction.py:155-156 | Python's `%` for a positive modulus: the result is in `[0, n)`, differs from the input by a multiple of `n`, and leaves in-range values unchanged |
| Torus.WrapNear | reproduction.py:155-156 | a coordinate one step off the board wraps to the opposite edge |
| Torus.Neighbors | reproduction.py:149-158 | the neighbourhood has exactly 8 cells, all on the board |
| Torus.GetNeighbors | reproduction.py:149-158 | the dx-outer, dy-inner double loop, skipping (0, 0), yields exactly the reference neighbourhood in offset order |
| Torus.NeighborsAvoidCentre | reproduction.py:153-154 | on a board at least 2 wide no neighbour is the cell itself |
| Torus.NeighborsDistinct | reproduction.py:149-158 | on a board at least 3 wide the 8 neighbours are pairwise distinct |
| Torus.CellsCard | reproduction.py:37 | the board has exactly `n * n` cells, which are exactly the in-range positions |
| Torus.FreeCellExists | reproduction.py:43-50 | pigeonhole: while fewer than `n * n` cells are taken, an untaken cell exists, so rejection sampling can succeed |
| Engine.Shuffled | reproduction.py:79 | a shuffled neighbour list has 8 entries, each taken from the original list |
| Engine.ShuffledCovers | reproduction.py:79 | a shuffle loses no neighbour: every neighbour appears in the shuffled list |
| Engine.Half | reproduction.py:142-143 | `energy // 2` for energy above 1 is at least 1, and the two halves together never exceed the energy; at most one unit is lost |
| Engine.World.constructor | reproduction.py:37-39 | an n x n grid of `None` cells with empty agent lists, which satisfies the full occupancy invariant |
| Engine.World.FirstFree | reproduction.py:81-87 | the index of the first empty cell of a list (or its length): that cell is empty and every earlier one is occupied |
| Engine.World.FirstEmpty | reproduction.py:81-87 | the scan with `break` returns the first empty index, `FirstFree` |
| Engine.World.Select | reproduction.py:104-110 | the kept neighbours are exactly those holding prey (or exactly the empty ones) |
| Engine.World.ScanNeighbors | reproduction.py:104-110 | the loop fills `prey_neighbors` and `empty_neighbors` with exactly the prey cells and the empty cells, in scan order |
| Engine.World.MovePreyOne | reproduction.py:81-87 | a prey moves iff some shuffled neighbour is empty; it moves into the first such cell, its old cell becomes empty, nothing else on the grid changes, and both invariants are kept |
| Engine.World.BreedPrey | reproduction.py:91-97 | a newborn prey is created iff a reshuffled neighbour is empty; it goes to the first such cell and is appended to `prey_list` |
| Engine.World.AddPrey | reproduction.py:94-96 | `Prey(x, y)` on an empty cell gets a fresh id, is appended to `prey_list`, and is the only cell that changes |
| Engine.World.WanderPrey | reproduction.py:76-87 | a prey stays iff all 8 neighbours were occupied, and otherwise ends on a neighbour that was empty; lists and predators are unchanged |
| Engine.World.StepPrey | reproduction.py:76-97 | one prey's turn: the movement rule above, at most one birth and only when breeding is on and the coin succeeds, and no predator cell changes |
| Engine.World.MaybeBreedPrey | reproduction.py:89-97 | breeding happens only on a successful coin in the breeding variant; the parent keeps its position and no predator cell changes |
| Engine.World.MovePrey | reproduction.py:75-97 | iterating over a copy of `prey_list`: the old list is kept as a prefix, newborns are appended after it, at most one per prey of the copy and none without breeding, predators are unchanged, predator cells are unchanged when the grid was consistent, and the invariants are kept |
| Engine.World.Eat | reproduction.py:112-120 | the predator moves onto the prey's cell and clears its own; that prey is removed from `prey_list` (its first occurrence); energy rises by the gain |
| Engine.World.Walk | reproduction.py:121-127 | the predator moves into an empty neighbour and pays the move cost once |
| Engine.World.Hold | reproduction.py:128-131 | a blocked predator stays and pays the move cost twice (`else` and `if not moved`) |
| Engine.World.ChoosePlan | reproduction.py:104-127 | it plans to eat iff some neighbour holds prey; to walk iff none holds prey and some is empty; otherwise to stay. The chosen target is a neighbour of the right kind |
| Engine.World.DecidePlan | reproduction.py:104-113 | the neighbour scan followed by `random.choice` yields the plan `ChoosePlan` describes |
| Engine.World.Forage | reproduction.py:111-131 | the three rules in priority order, each with its exact effect on the lists, the predator's fields and the grid |
| Engine.World.BreedPredator | reproduction.py:135-144 | a newborn appears iff a reshuffled neighbour is empty, in the first such cell; parent and newborn both get `energy // 2` |
| Engine.World.AddPredator | reproduction.py:57-59 | `Predator(x, y)` gets a fresh id, is appended to `predator_list`, and is the only cell that changes |
| Engine.World.MaybeBreed | reproduction.py:133-144 | reproduction needs the breeding variant, the coin and energy above 1; both parent and newborn keep positive energy |
| Engine.World.Starve | reproduction.py:145-147 | a predator dies iff its energy is at most 0; its cell is cleared and it leaves `predator_list` |
| Engine.World.ForageAndBreed | reproduction.py:111-144 | foraging then breeding: an eaten prey leaves `prey_list`, a birth is appended to `predator_list`, and other predators are untouched |
| Engine.World.ProcessPredator | reproduction.py:102-147 | one predator's turn: it died iff it left the list, a survivor has positive energy, other predators keep their fields |
| Engine.World.TakeTurn | reproduction.py:101-147 | a turn inside the loop: the list length changes by births minus deaths, and every predator already processed has positive energy |
| Engine.World.Reorder | reproduction.py:100 | `random.shuffle(predator_list)` replaces the list by a permutation of itself and changes nothing else |
| Engine.World.MovePredators | reproduction.py:99-147 | after the pass every listed predator has energy > 0; `prey_list` loses exactly the eaten prey (as a multiset), at most one per predator of the copy; `predator_list` changes by births minus deaths, with at most one birth per predator and none without breeding |
| Engine.World.DrawCell | reproduction.py:44-50 | rejection sampling returns the first acceptable drawn cell, empty for prey and not a predator for predators, after rejecting every earlier draw |
| Engine.World.PlacePrey | reproduction.py:42-50 | exactly `num_prey` prey placed, each on its own empty cell, with the full occupancy invariant |
| Engine.World.PlacePredators | reproduction.py:52-60 | exactly `num_predators` predators with the initial energy, each on its own cell; a listed prey is on its cell or under a predator |
| Engine.World.PlaceNextPredator | reproduction.py:53-60 | one more predator on a cell that held no predator; the predator cells grow by exactly one |
| Trial.Step | reproduction.py:62-65 | one `move_prey` then `move_predators`: invariants kept, every predator's energy positive, and the list lengths change within `StepBound`: at most as many prey lost as there were predators, neither list more than doubles, and neither grows without breeding |
| Trial.RunSimulation | reproduction.py:35-73 | returns a fresh world satisfying the occupancy invariant whose list lengths are the remaining counts, and the trace of list lengths: it starts at the placed counts, every step began with both lists non-empty, each step stays within `StepBound`, at most `MAX_STEPS` steps ran and fewer only when a list emptied; the outcome is 0 iff no prey remain, 1 iff only predators are gone, 2 iff both remain |
| Trial.NoGrowth | reproduction.py:62-65 | along any trial trace without breeding, no count exceeds its placed value |
| Trial.PreyOutlast | reproduction.py:99-147 | without breeding, after `k` steps at least `numPrey - k * numPredators` prey remain, because each predator eats at most one prey per step |
| Trial.PreyExtinctionTakesTime | reproduction.py:35-73 | without breeding, a trial ending in prey extinction took at least `numPrey / numPredators` steps |
| Viewer.Verdict | main.py:276-287 | the state text is empty iff the run continues, and each message holds exactly in its case, prey extinction first |
| Viewer.VerdictAgreesWithClassify | main.py:276-287 | an ended run is worded as the batch classification words its outcome |
| Viewer.Simulation.constructor | main.py:87-98 | no grid, not running, empty histories, `step_count` 0, `max_steps` 1000 |
| Viewer.Simulation.InitializePopulation | main.py:122-146 | a fresh grid; cleared histories, step count and state; exactly the requested prey and predators, every predator with energy 5 and no gain display |
| Viewer.Simulation.SimulationLogic | main.py:268-287 | one step; `step_count` rises by 1; one entry is appended to each history, with `time_steps` ending in `step_count`; a finished run is paused with its verdict |
| Viewer.Simulation.CheckEnd | main.py:276-287 | sets the verdict, `is_running = False` and `is_paused = True` exactly when the run has ended |
| Outcomes.Classify | reproduction.py:67-73 | 0 iff no prey, 1 iff prey but no predators, 2 iff both remain |
| Outcomes.FirstIndex | reproduction.py:224 | the position of the first occurrence of a value, which is what the tie-break of `most_common` refers to |
| Outcomes.Tally | reproduction.py:224 | `Counter(outcomes)` maps exactly the values present to their number of occurrences |
| Outcomes.ScanReaches | reproduction.py:224 | the scan over the counter's keys ends on a best value for the whole list |
| Outcomes.MostCommonOfIsMostCommon | reproduction.py:224 | the reduction returns a value with maximal count and, among those, the first one encountered |
| Outcomes.MostCommon | reproduction.py:224 | the tally-then-scan computation returns that most common value |
| Outcomes.MostCommonUnique | reproduction.py:224 | with the tie-break, the most common value is unique |
| Outcomes.StrictMajorityIsOrderFree | reproduction.py:224 | with a strict majority the result does not depend on the order of the trials |
| Outcomes.Group | reproduction.py:215-220 | a position's group is empty iff the position has no trial |
| Outcomes.GroupByPosition | reproduction.py:215-220 | `outcomes_dict` holds exactly the positions that occur, each mapped to its results in result order |
| Outcomes.GroupSize | reproduction.py:215-220 | a group has one outcome per occurrence of its position |
| Outcomes.Aggregate | reproduction.py:215-226 | every position with trials gets the most common outcome of its group in `Z[j, i]`; other cells are untouched |
| Outcomes.GpuAggregateAsWritten | gpu_phase_diagram.py:202-213 | as written, the reduction fails with `NameError` iff some position has a trial |
| Outcomes.GpuAggregationCounterexample | gpu_phase_diagram.py:209-213 | one trial at one point already raises `NameError`, where the intended reduction returns that trial's outcome |
| Sweep.TotalAgents | reproduction.py:184-186 | `N` is the floor of density × cells, raised to 2 when smaller |
| Sweep.RawPrey | reproduction.py:188 | the raw prey share is at most `N` and is the floor of `ratio / (ratio + 1) × N` |
| Sweep.Clamp | reproduction.py:191-197 | both counts are at least 1, they sum to `N`, and the prey count is the raw share corrected at 0 and at `N` |
| Sweep.PointArgs | reproduction.py:184-197 | a point's counts are both at least 1 and sum to `N` |
| Sweep.ZeroRatioBranchAgrees | phase_diagram_ratio.py:154-168 | the `ratio == 0` branch gives the same counts as the formula: one prey and `N - 1` predators |
| Sweep.AppendTrials | reproduction.py:199-202 | `NUM_SIMULATIONS` copies of the arguments and of the position are appended, and no other position's count changes |
| Sweep.VisitPoint | reproduction.py:177-202 | a skipped point writes NaN and appends nothing; any other point appends its trials with its own counts |
| Sweep.ColumnCount | reproduction.py:177-202 | the density loop of one ratio appends `NUM_SIMULATIONS` trials for each of its unskipped points and none for any other point |
| Sweep.VisitColumn | reproduction.py:177-202 | the inner loop appends the column's trials in density order and marks its skipped points NaN |
| Sweep.BuildTrials | reproduction.py:176-202 | each unskipped point has exactly `NUM_SIMULATIONS` trials, skipped points have none and hold NaN, every trial carries its point's clamped counts |
| Drivers.RunTrials | reproduction.py:210-212 | one outcome per argument tuple, in argument order, each one `run_simulation` can end with for that tuple's counts (`Trial.Ran`) |
| Drivers.RatioDiagram | reproduction.py:176-226 | every result is one `run_simulation` can end with for its point's clamped counts; every unskipped point has `NUM_SIMULATIONS` outcomes and `Z[j, i]` holds their most common value; skipped points hold NaN |
| Drivers.RunPoint | phaseDiag.py:144-147 | `NUM_SIMULATIONS` outcomes for one point, each one `run_simulation` can end with for its counts |
| Drivers.RunCell | phaseDiag.py:144-149 | one point's `NUM_SIMULATIONS` outcomes, each one `run_simulation` can end with, and their most common value in `Z[j, i]`; no other cell of `Z` changes |
| Drivers.EmptySidePoint | phaseDiag.py:134-151 | at a zero-count point (which the configured ranges do not contain): trials that start without prey have majority 0, and trials with prey but no predators have majority 1, whatever the draws |
| Drivers.PhaseColumn | phaseDiag.py:141-149 | the inner loop over predator counts fills every point of its prey column and keeps the earlier ones |
| Drivers.PhaseDiagram | phaseDiag.py:134-151 | every (prey, predator) point runs `NUM_SIMULATIONS` trials, each ending as `run_simulation` can for that point's counts, and `Z[j, i]` holds their most common outcome |
| Gpu.ClearGrids | gpu_phase_diagram.py:30-35 | every cell is EMPTY with energy 0 |
| Gpu.DrawEmpty | gpu_phase_diagram.py:42-47 | rejection sampling returns the first drawn EMPTY cell |
| Gpu.PlaceAgents | gpu_phase_diagram.py:40-57 | exactly `count` EMPTY cells change to the agent's code, a predator's cell gets energy 5, and nothing else changes |
| Gpu.PlaceOne | gpu_phase_diagram.py:41-47 | one EMPTY cell takes the agent's code; all other cells are unchanged |
| Gpu.CopyGrids | gpu_phase_diagram.py:63-68 | `new_grid` and `new_energy_grid` equal the current grids |
| Gpu.MovePreyAt | gpu_phase_diagram.py:77-81 | the prey moves iff its target is EMPTY in `new_grid`; its old cell becomes EMPTY; the number of prey is unchanged |
| Gpu.PreyPhase | gpu_phase_diagram.py:70-81 | the number of PREY cells is unchanged, other codes keep their cells, and only EMPTY and PREY cells change |
| Gpu.MovePredatorAt | gpu_phase_diagram.py:86-107 | onto PREY: eat, energy + 5; onto EMPTY: move, energy − 1; otherwise stay, energy − 1. A vacated cell gets energy 0 |
| Gpu.PredatorRow | gpu_phase_diagram.py:83-107 | one row of the predator loop: the same counts and invariants, and the row's eaten prey are at most its predator cells |
| Gpu.PredatorPhase | gpu_phase_diagram.py:83-107 | the number of predator cells is unchanged, prey fall by exactly the number eaten, which is at most the number of predator cells, no cell becomes PREY, and only predator cells carry energy |
| Gpu.Update | gpu_phase_diagram.py:109-117 | the write-back copies each cell and removes a starved predator; afterwards no predator has energy ≤ 0, prey cells are unchanged, predator cells only shrink |
| Gpu.Census | gpu_phase_diagram.py:119-127 | each flag is set iff some cell holds that code |
| Gpu.Step | gpu_phase_diagram.py:61-117 | after a step the grid holds valid codes, only predators carry energy, none is starved, prey fall by the number eaten, at most one per predator, and predators never increase |
| Gpu.StepAndCheck | gpu_phase_diagram.py:59-129 | one pass of the step loop: the counts change within `GpuStepBound`, and each census flag is set iff that kind still has a cell |
| Gpu.Populate | gpu_phase_diagram.py:29-57 | fresh cleared grids, then exactly `num_prey` PREY and `num_predators` PREDATOR cells, with energy only on predators |
| Gpu.Simulate | gpu_phase_diagram.py:20-137 | returns final grids in which every cell holds a code, only predator cells carry energy and no predator is starved, whose prey and predator cell counts are the two counts; and the trace of cell counts: it starts at the placed counts, between 1 and `max_steps` steps ran, each within `GpuStepBound`, every step after the first began with both kinds present, and fewer than `max_steps` only when a kind died out; the outcome classifies the last counts as the CPU files do |
| Gpu.GpuPreyOutlast | gpu_phase_diagram.py:83-107 | after `k` kernel steps no count exceeds its placed value and at least `numPrey - k * numPredators` prey remain |
| Gpu.GpuPreyExtinctionTakesTime | gpu_phase_diagram.py:20-137 | a kernel result of prey extinction implies `numPrey <= max_steps * numPredators` |
| Gpu.GpuEmptySidePoint | gpu_phase_diagram.py:20-137 | at a zero-count point (which the configured sweep does not contain): trials that start without prey have majority 0, and trials with prey but no predators have majority 1, whatever the draws |
| Gpu.Kernel | gpu_phase_diagram.py:20-137 | a thread past the end writes nothing; any other thread writes only `results[idx]`, an outcome the kernel body can end with for its counts (`Gpu.GpuRan`) |
| Gpu.Launch | gpu_phase_diagram.py:139-154 | `blocks_per_grid` is the least number of blocks of `THREADS_PER_BLOCK` threads covering every trial, and every result is an outcome the kernel body can end with for that trial's counts |
| Gpu.GpuDiagram | gpu_phase_diagram.py:172-213 | every result is an outcome the kernel body can end with for its point's clamped counts; every point runs `NUM_SIMULATIONS` trials, and `Z[j, i]` holds their most common outcome (the intended reduction) |

## Left out

- Pygame rendering, the UI widgets, the event loop and `pygame.time.delay` (main.py:275) are left out. They are display and timing only.
- The gain-display countdown in `_draw_grid` (main.py:238-243) is left out. It belongs to drawing; eating still sets the flag and the timer.
- Matplotlib plotting and `tqdm` progress bars are left out. They are output only.
- `multiprocessing.Pool.imap` is modelled as running the trials in order. Its order-preserving result list is all the aggregation relies on.
- CUDA threads run one after the other in `Gpu.Launch`. Each writes only its own slot, so order does not matter.
- Device memory transfers are left out.
- The XORWOW generator and every random distribution are left out. Draws are parameters, and only their ranges are required.
- `int(rng.uniform(-1, 2))` truncates toward zero, so -1 is almost never drawn. The model allows any offset in {-1, 0, 1}.
- Floating-point sweep values are modelled as exact non-negative fractions (`Sweep.Frac`). `int(...)` is modelled as floor division. `np.arange` and float rounding are left out.
- Gpu.MovePredatorAt: energies are unbounded integers. The source stores them as `int8`, which wraps above 127; the wrap is not modelled.
- Gpu.Kernel: the unused `grid_size` argument is accepted and ignored; `GRID_SIZE` is used.
- Gpu.Kernel: a negative count means zero placement iterations, as `range` gives.
- Gpu.Simulate: requires `max_steps >= 1`. With 0 steps the source reads an unbound `prey_remaining`, and every driver passes 1000.
- Trial.RunSimulation: requires each count to be at most the number of cells. With more, the source's placement loop never ends.
- Gpu.Simulate: requires the two counts together to be at most the number of cells, for the same reason.
- Trial.RunSimulation: the trace gives list lengths, not world states. The contract does not say that the returned world is the placed world after `steps` calls of `Step`; each step's effect on the grid is stated by the `Engine` operations it calls.
- Gpu.Simulate: same as Trial.RunSimulation, for cell counts and the kernel's grids.
- Drivers.RunTrials: each result is stated to satisfy `Trial.Ran`, the end relation of `Trial.RunSimulation`, not to be the outcome those particular draws give, because a method's result cannot appear in another contract. On the configured points `Trial.Ran` admits every outcome code, since which one occurs depends on the draws.
- Drivers.RunPoint: same as Drivers.RunTrials.
- Gpu.Kernel: same as Drivers.RunTrials, with `Gpu.GpuRan` and `Gpu.Simulate`.
- Gpu.Launch: same as Drivers.RunTrials, with `Gpu.GpuRan` and `Gpu.Simulate`.
- Trial.Step: states the invariants, the list bounds and the positive energies. The full new grid is only given by the contracts of `MovePrey` and `MovePredators` it calls.
- Engine.World.MovePredators: states the list changes and the energy invariant. Each predator's final position is stated only per turn (`Forage`).
- Engine.World.TakeTurn: summarises one turn by list lengths and energies. The exact effect is in `ProcessPredator`.
- Gpu.PredatorPhase: states counts and invariants. The per-cell effect is stated per predator by `MovePredatorAt`.
- Gpu.Step: states counts and invariants, not the cell-by-cell result.
- The phase_diagram_ratio.py:101 recheck of an empty target always succeeds, because the target was selected as empty in the same turn. It is modelled as the plain move.
- main.py's `grid = None` before set-up is a null `world`.

## Findings

| source | as written | input that shows it | evidently intended | confidence | as-written member | corrected member |
|---|---|---|---|---|---|---|
| gpu_phase_diagram.py:211 | `Counter(outcomes)` is called, but `Counter` is never imported (lines 1-5 import only numpy, numba, cuda, math and tqdm), so the first group raises `NameError` | one trial at one point: results `[2]`, positions `[(0, 0)]` | each point's most common outcome, ties to the first seen, as in the CPU drivers | high; not executed | Outcomes.GpuAggregationCounterexample | Outcomes.MostCommonOfIsMostCommon |
