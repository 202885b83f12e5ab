// The interactive simulation of main.py (`PredatorPreySimulation`) without
// its window: the population set-up, the per-frame step with its population
// history, and the end-of-run state machine. `grid = None` before set-up is
// a null world.
module Viewer {
  import opened Engine
  import opened Outcomes
  import opened Trial

  /** The text shown under the population graph once a run has ended, or
      "" while it continues. Prey extinction is checked first, then predator
      extinction, then the step limit. */
  function Verdict(preyLeft: bool, predatorsLeft: bool, limitReached: bool): (r: string)
    ensures r == "" <==> preyLeft && predatorsLeft && !limitReached
    ensures r == "All Prey Died" <==> !preyLeft
    ensures r == "All Predators Died" <==> preyLeft && !predatorsLeft
    ensures r == "Long-term Coexistence" <==> preyLeft && predatorsLeft && limitReached
  {
    if !preyLeft then "All Prey Died"
    else if !predatorsLeft then "All Predators Died"
    else if limitReached then "Long-term Coexistence"
    else ""
  }

  /** The batch outcome codes as the viewer words them. */
  function Label(outcome: int): string {
    if outcome == PreyExtinct then "All Prey Died"
    else if outcome == PredatorsExtinct then "All Predators Died"
    else "Long-term Coexistence"
  }

  /** A run the viewer stops at the step limit ends with the wording of the
      batch classification: both use the same priority. */
  lemma VerdictAgreesWithClassify(preyLeft: bool, predatorsLeft: bool)
    ensures Verdict(preyLeft, predatorsLeft, true) == Label(Classify(preyLeft, predatorsLeft))
    ensures !preyLeft || !predatorsLeft ==>
      Verdict(preyLeft, predatorsLeft, false) == Label(Classify(preyLeft, predatorsLeft))
  {
  }

  class Simulation {
    /** `self.grid` with the agent lists; null stands for `None`. */
    var world: World?
    var isRunning: bool
    var isPaused: bool
    var preyHistory: seq<nat>
    var predatorHistory: seq<nat>
    var timeSteps: seq<nat>
    var stepCount: nat
    const maxSteps: nat
    var simulationState: string

    /** The histories hold one entry per step taken since set-up, and
        `time_steps` counts 1, 2, ..., `step_count`. */
    ghost predicate Valid()
      reads this, world, if world != null then {world.grid} else {}
    {
      && (world != null ==> world.Valid() && world.n == ViewerSetup.gridSize && world.rules == ViewerSetup.rules)
      && |preyHistory| == stepCount && |predatorHistory| == stepCount && |timeSteps| == stepCount
      && (forall k :: 0 <= k < |timeSteps| ==> timeSteps[k] == k + 1)
    }

    /** The fields set in `__init__` (the window and widgets are not modelled). */
    constructor ()
      ensures Valid()
      ensures world == null && !isRunning && !isPaused
      ensures preyHistory == [] && predatorHistory == [] && timeSteps == []
      ensures stepCount == 0 && maxSteps == ViewerSetup.maxSteps && simulationState == ""
    {
      world := null;
      isRunning, isPaused := false, false;
      preyHistory, predatorHistory, timeSteps := [], [], [];
      stepCount := 0;
      maxSteps := ViewerSetup.maxSteps;
      simulationState := "";
    }

    /** `_initialize_population`: a fresh empty grid and lists, cleared
        histories, step count and state, then the placement loops. */
    method InitializePopulation(numPrey: nat, numPredators: nat, dice: Dice)
      requires Valid()
      requires numPrey <= ViewerSetup.gridSize * ViewerSetup.gridSize
      requires numPredators <= ViewerSetup.gridSize * ViewerSetup.gridSize
      requires DiceOk(dice, ViewerSetup.gridSize)
      modifies this
      ensures Valid() && world != null && fresh(world) && fresh(world.grid)
      ensures |world.preyList| == numPrey && |world.predatorList| == numPredators
      ensures forall id :: id in world.predatorList ==>
        world.wolves[id] == Wolf(world.wolves[id].pos, 5, false, 0)
      ensures preyHistory == [] && predatorHistory == [] && timeSteps == []
      ensures stepCount == 0 && simulationState == ""
      ensures isRunning == old(isRunning) && isPaused == old(isPaused)
    {
      var w := new World(ViewerSetup.gridSize, ViewerSetup.rules);
      preyHistory, predatorHistory, timeSteps := [], [], [];
      stepCount := 0;
      simulationState := "";
      var t := w.PlacePrey(numPrey, dice.place, 0);
      t := w.PlacePredators(numPredators, dice.place, t);
      world := w;
    }

    /** `simulation_logic`: one step, one history entry each, and the end
        checks; a run that ends is stopped and paused. */
    method SimulationLogic(dice: Dice)
      requires Valid() && world != null && DiceOk(dice, world.n)
      modifies this, world, world.grid
      ensures Valid() && world == old(world)
      ensures old(world.Consistent()) ==> world.Consistent()
      ensures stepCount == old(stepCount) + 1
      ensures preyHistory == old(preyHistory) + [|world.preyList|]
      ensures predatorHistory == old(predatorHistory) + [|world.predatorList|]
      ensures timeSteps == old(timeSteps) + [stepCount]
      ensures forall id :: id in world.predatorList ==> world.wolves[id].energy > 0
      ensures var verdict := Verdict(|world.preyList| > 0, |world.predatorList| > 0, stepCount >= maxSteps);
        if verdict == "" then
          simulationState == old(simulationState) && isRunning == old(isRunning) && isPaused == old(isPaused)
        else
          simulationState == verdict && !isRunning && isPaused
    {
      stepCount := stepCount + 1;
      Step(world, dice, stepCount);
      preyHistory := preyHistory + [|world.preyList|];
      predatorHistory := predatorHistory + [|world.predatorList|];
      timeSteps := timeSteps + [stepCount];
      CheckEnd();
    }

    /** The end checks of `simulation_logic`. */
    method CheckEnd()
      requires world != null
      modifies this
      ensures world == old(world) && stepCount == old(stepCount)
      ensures preyHistory == old(preyHistory) && predatorHistory == old(predatorHistory) && timeSteps == old(timeSteps)
      ensures var verdict := Verdict(|world.preyList| > 0, |world.predatorList| > 0, stepCount >= maxSteps);
        if verdict == "" then
          simulationState == old(simulationState) && isRunning == old(isRunning) && isPaused == old(isPaused)
        else
          simulationState == verdict && !isRunning && isPaused
    {
      if |world.preyList| == 0 {
        isPaused, isRunning := true, false;
        simulationState := "All Prey Died";
      } else if |world.predatorList| == 0 {
        isPaused, isRunning := true, false;
        simulationState := "All Predators Died";
      } else if stepCount >= maxSteps {
        isPaused, isRunning := true, false;
        simulationState := "Long-term Coexistence";
      }
    }
  }
}
