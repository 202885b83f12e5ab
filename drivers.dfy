// The batch drivers of the CPU files: the trials of a sweep run one after
// the other (the process pool's ordered `imap`), each trial with its own
// draws, and every grid point reduced to its majority outcome.
module Drivers {
  import opened Engine
  import opened Outcomes
  import opened Sweep
  import opened Trial

  /** Every trial's draws are well-formed. */
  ghost predicate AllDiceOk(dice: nat -> Dice, n: nat) {
    forall k :: DiceOk(dice(k), n)
  }

  /** `results = list(pool.imap(worker, simulation_args))`: trial k runs
      `run_simulation(args[k])` with draws `dice(k)`, and results keep the
      order of the arguments; each result is one `run_simulation` can
      return for its counts. */
  method RunTrials(setup: Setup, args: seq<(nat, nat)>, dice: nat -> Dice) returns (results: seq<int>)
    requires setup.gridSize >= 3 && AllDiceOk(dice, setup.gridSize)
    requires forall k :: 0 <= k < |args| ==>
      args[k].0 <= setup.gridSize * setup.gridSize && args[k].1 <= setup.gridSize * setup.gridSize
    ensures |results| == |args|
    ensures forall k :: 0 <= k < |results| ==> Ran(setup, args[k].0, args[k].1, results[k])
    ensures forall k :: 0 <= k < |results| ==> results[k] in {PreyExtinct, PredatorsExtinct, Coexistence}
  {
    results := [];
    for k := 0 to |args|
      invariant |results| == k
      invariant forall m :: 0 <= m < k ==> Ran(setup, args[m].0, args[m].1, results[m])
      invariant forall m :: 0 <= m < k ==> results[m] in {PreyExtinct, PredatorsExtinct, Coexistence}
    {
      var outcome, steps, preyLeft, predatorsLeft, w, tr := RunSimulation(setup, args[k].0, args[k].1, dice(k));
      results := results + [outcome];
    }
  }

  /** The ratio/density drivers (reproduction.py, phase_diagram_ratio.py):
      build the trial arguments, run them, and write each point's majority
      outcome into `z`; a skipped point holds NaN. */
  method RatioDiagram(setup: Setup, ratios: seq<Frac>, densities: seq<Frac>, zeroBranch: bool, skipZero: bool,
                      dice: nat -> Dice, z: array2<ZEntry>)
    returns (results: seq<int>, positions: seq<(nat, nat)>)
    requires setup.gridSize >= 3 && AllDiceOk(dice, setup.gridSize) && setup.numSims > 0
    requires forall i :: 0 <= i < |ratios| ==> ValidFrac(ratios[i])
    requires forall j :: 0 <= j < |densities| ==> ValidFrac(densities[j])
    requires forall j :: 0 <= j < |densities| ==>
      TotalAgents(densities[j], setup.gridSize * setup.gridSize) <= setup.gridSize * setup.gridSize
    requires z.Length0 == |densities| && z.Length1 == |ratios|
    modifies z
    ensures |results| == |positions|
    ensures forall k :: 0 <= k < |results| ==>
      var (j, i) := positions[k];
      && j < |densities| && i < |ratios|
      && var counts := PointArgs(ratios[i], densities[j], setup.gridSize * setup.gridSize, zeroBranch);
      Ran(setup, counts.0, counts.1, results[k])
    ensures forall j, i :: 0 <= j < |densities| && 0 <= i < |ratios| ==>
      if Skipped(densities[j], skipZero) then z[j, i] == NaN
      else
        && |Group(results, positions, (j, i))| == setup.numSims
        && z[j, i] == Value(MostCommonOf(Group(results, positions, (j, i))))
  {
    var cells := setup.gridSize * setup.gridSize;
    var args;
    args, positions := BuildTrials(ratios, densities, cells, setup.numSims, zeroBranch, skipZero, z);
    forall k | 0 <= k < |args| ensures args[k].0 <= cells && args[k].1 <= cells {
      var j, i := positions[k].0, positions[k].1;
      assert args[k] == PointArgs(ratios[i], densities[j], cells, zeroBranch);
    }
    results := RunTrials(setup, args, dice);
    forall j, i | 0 <= j < |densities| && 0 <= i < |ratios| && !Skipped(densities[j], skipZero)
      ensures (j, i) in positions
      ensures |Group(results, positions, (j, i))| == setup.numSims
    {
      assert (j, i) in multiset(positions);
      GroupSize(results, positions, (j, i));
    }
    Aggregate(results, positions, z);
  }

  /** `NUM_SIMULATIONS` runs of one `(initial_prey, initial_predators)`
      point, trial numbers counted on from `next`; each outcome is one
      `run_simulation` can return for those counts. */
  method RunPoint(setup: Setup, numPrey: nat, numPredators: nat, dice: nat -> Dice, next: nat)
    returns (outcomes: seq<int>)
    requires setup.gridSize >= 3 && AllDiceOk(dice, setup.gridSize)
    requires numPrey <= setup.gridSize * setup.gridSize && numPredators <= setup.gridSize * setup.gridSize
    ensures |outcomes| == setup.numSims
    ensures AllRan(setup, numPrey, numPredators, outcomes)
    ensures forall k :: 0 <= k < |outcomes| ==> outcomes[k] in {PreyExtinct, PredatorsExtinct, Coexistence}
  {
    outcomes := [];
    for k := 0 to setup.numSims
      invariant |outcomes| == k
      invariant forall m :: 0 <= m < k ==> Ran(setup, numPrey, numPredators, outcomes[m])
      invariant forall m :: 0 <= m < k ==> outcomes[m] in {PreyExtinct, PredatorsExtinct, Coexistence}
    {
      var outcome, steps, preyLeft, predatorsLeft, w, tr := RunSimulation(setup, numPrey, numPredators, dice(next + k));
      outcomes := outcomes + [outcome];
    }
  }

  /** Every outcome in `outcomes` is one `run_simulation` can return for
      `numPrey` prey and `numPredators` predators. */
  ghost predicate AllRan(setup: Setup, numPrey: nat, numPredators: nat, outcomes: seq<int>) {
    forall k :: 0 <= k < |outcomes| ==> Ran(setup, numPrey, numPredators, outcomes[k])
  }

  /** The edges of a phase diagram: a point whose trials start without prey
      shows prey extinction, and one with prey but no predators shows
      predator extinction, whatever the draws. */
  lemma EmptySidePoint(setup: Setup, numPrey: nat, numPredators: nat, outcomes: seq<int>)
    requires |outcomes| > 0 && AllRan(setup, numPrey, numPredators, outcomes)
    ensures numPrey == 0 ==> MostCommonOf(outcomes) == PreyExtinct
    ensures numPrey > 0 && numPredators == 0 ==> MostCommonOf(outcomes) == PredatorsExtinct
  {
    MostCommonOfIsMostCommon(outcomes);
    var k :| 0 <= k < |outcomes| && outcomes[k] == MostCommonOf(outcomes);
    var tr :| TrialEnd(setup, numPrey, numPredators, outcomes[k], tr);
    if numPrey == 0 || numPredators == 0 {
      assert !Alive(tr[0]);
      assert |tr| == 1;
    }
  }

  /** Every point recorded in `outcomes` is a `(j, i)` index pair of the
      ranges, and its outcomes are ones `run_simulation` can return for
      those counts. */
  ghost predicate Recorded(setup: Setup, preyRange: seq<nat>, predatorRange: seq<nat>, outcomes: map<(nat, nat), seq<int>>) {
    forall p :: p in outcomes ==>
      && p.0 < |predatorRange| && p.1 < |preyRange|
      && AllRan(setup, preyRange[p.1], predatorRange[p.0], outcomes[p])
  }

  /** Every point visited before `(j, i)` has its `numSims` outcomes in
      `outcomes` and their majority in `z`. */
  ghost predicate Filled(setup: Setup, preyRange: seq<nat>, predatorRange: seq<nat>,
                         outcomes: map<(nat, nat), seq<int>>, z: array2<ZEntry>, j: nat, i: nat)
    reads z
    requires setup.numSims > 0 && z.Length0 == |predatorRange| && z.Length1 == |preyRange|
  {
    forall j', i' :: 0 <= j' < |predatorRange| && 0 <= i' < |preyRange| && Before(j', i', j, i) ==>
      && (j', i') in outcomes
      && |outcomes[(j', i')]| == setup.numSims
      && z[j', i'] == Value(MostCommonOf(outcomes[(j', i')]))
  }

  /** One point of phaseDiag.py: its trials, and their majority in `z[j, i]`. */
  method RunCell(setup: Setup, numPrey: nat, numPredators: nat, dice: nat -> Dice, next: nat, z: array2<ZEntry>, j: nat, i: nat)
    returns (point: seq<int>)
    requires setup.gridSize >= 3 && AllDiceOk(dice, setup.gridSize) && setup.numSims > 0
    requires numPrey <= setup.gridSize * setup.gridSize && numPredators <= setup.gridSize * setup.gridSize
    requires j < z.Length0 && i < z.Length1
    modifies z
    ensures |point| == setup.numSims && AllRan(setup, numPrey, numPredators, point)
    ensures z[j, i] == Value(MostCommonOf(point))
    ensures forall j', i' :: 0 <= j' < z.Length0 && 0 <= i' < z.Length1 && (j' != j || i' != i) ==> z[j', i'] == old(z[j', i'])
  {
    point := RunPoint(setup, numPrey, numPredators, dice, next);
    var majority := MostCommon(point);
    z[j, i] := Value(majority);
  }

  /** The inner loop of phaseDiag.py for prey count `preyRange[i]`: every
      predator count in order, each point's trials numbered on from `next`. */
  method PhaseColumn(setup: Setup, preyRange: seq<nat>, predatorRange: seq<nat>, dice: nat -> Dice, z: array2<ZEntry>,
                     i: nat, outcomes0: map<(nat, nat), seq<int>>, next0: nat)
    returns (outcomes: map<(nat, nat), seq<int>>, next: nat)
    requires setup.gridSize >= 3 && AllDiceOk(dice, setup.gridSize) && setup.numSims > 0
    requires i < |preyRange| && preyRange[i] <= setup.gridSize * setup.gridSize
    requires forall j :: 0 <= j < |predatorRange| ==> predatorRange[j] <= setup.gridSize * setup.gridSize
    requires z.Length0 == |predatorRange| && z.Length1 == |preyRange|
    requires Filled(setup, preyRange, predatorRange, outcomes0, z, 0, i)
    requires Recorded(setup, preyRange, predatorRange, outcomes0)
    modifies z
    ensures Filled(setup, preyRange, predatorRange, outcomes, z, 0, i + 1)
    ensures Recorded(setup, preyRange, predatorRange, outcomes)
  {
    outcomes, next := outcomes0, next0;
    for j := 0 to |predatorRange|
      invariant Filled(setup, preyRange, predatorRange, outcomes, z, j, i)
      invariant Recorded(setup, preyRange, predatorRange, outcomes)
    {
      var point := RunCell(setup, preyRange[i], predatorRange[j], dice, next, z, j, i);
      next := next + setup.numSims;
      outcomes := outcomes[(j, i) := point];
    }
    assert Filled(setup, preyRange, predatorRange, outcomes, z, 0, i + 1) by {
      forall j', i' | 0 <= j' < |predatorRange| && 0 <= i' < |preyRange| && Before(j', i', 0, i + 1)
        ensures Before(j', i', |predatorRange|, i)
      {
      }
    }
  }

  /** phaseDiag.py: for every initial prey count (i) and predator count (j),
      run the point's trials and store their majority outcome in `z[j, i]`.
      `outcomes` returns each point's list of results. */
  method PhaseDiagram(setup: Setup, preyRange: seq<nat>, predatorRange: seq<nat>, dice: nat -> Dice, z: array2<ZEntry>)
    returns (outcomes: map<(nat, nat), seq<int>>)
    requires setup.gridSize >= 3 && AllDiceOk(dice, setup.gridSize) && setup.numSims > 0
    requires forall i :: 0 <= i < |preyRange| ==> preyRange[i] <= setup.gridSize * setup.gridSize
    requires forall j :: 0 <= j < |predatorRange| ==> predatorRange[j] <= setup.gridSize * setup.gridSize
    requires z.Length0 == |predatorRange| && z.Length1 == |preyRange|
    modifies z
    ensures forall j, i :: 0 <= j < |predatorRange| && 0 <= i < |preyRange| ==>
      && (j, i) in outcomes
      && |outcomes[(j, i)]| == setup.numSims
      && z[j, i] == Value(MostCommonOf(outcomes[(j, i)]))
    ensures Recorded(setup, preyRange, predatorRange, outcomes)
  {
    outcomes := map[];
    var next: nat := 0;
    for i := 0 to |preyRange|
      invariant Filled(setup, preyRange, predatorRange, outcomes, z, 0, i)
      invariant Recorded(setup, preyRange, predatorRange, outcomes)
    {
      outcomes, next := PhaseColumn(setup, preyRange, predatorRange, dice, z, i, outcomes, next);
    }
    assert Filled(setup, preyRange, predatorRange, outcomes, z, 0, |preyRange|);
  }
}
