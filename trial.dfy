// One simulation trial of the CPU drivers (`run_simulation`): rejection
// sampling placement, the bounded step loop, and the 0/1/2 classification.
// Every random draw of a trial comes from a `Dice` value, so each property
// holds for every outcome of the generator.
module Trial {
  import opened Torus
  import opened Engine
  import opened Outcomes

  /** The random draws of one trial.
      - `place(t)`: the t-th `(randint, randint)` pair of the placement loops;
      - `prey(s, i)`: the draws of the i-th prey processed in step s;
      - `order(s, l)`: `random.shuffle(predator_list)` in step s, applied to list l;
      - `predator(s, i)`: the draws of the i-th predator processed in step s. */
  datatype Dice = Dice(
    place: nat -> Pos,
    prey: (nat, nat) -> PreyDraw,
    order: (nat, seq<nat>) -> seq<nat>,
    predator: (nat, nat) -> PredatorDraw)

  /** The draws are well-formed: placement pairs are on the board and every
      cell keeps recurring; shuffles are permutations. */
  ghost predicate DiceOk(dice: Dice, n: nat) {
    && DrawsOk(dice.place, n)
    && (forall s, i :: PreyDrawOk(dice.prey(s, i)))
    && (forall s: nat, l: seq<nat> :: multiset(dice.order(s, l)) == multiset(l))
    && (forall s, i :: PredatorDrawOk(dice.predator(s, i)))
  }

  /** The constants of one CPU file. */
  datatype Setup = Setup(gridSize: nat, maxSteps: nat, numSims: nat, rules: Rules)

  /** reproduction.py: GRID_SIZE 20, MAX_STEPS 100, 500 trials per point,
      WOLF_GAIN_FROM_FOOD 20, WOLF_MOVE_COST 1, WOLF_INITIAL_ENERGY 10, and
      both kinds reproduce. */
  const ReproductionSetup := Setup(20, 100, 500, Rules(20, 1, 10, true, false))

  /** phase_diagram_ratio.py: GRID_SIZE 20, MAX_STEPS 1000, 500 trials, gain
      5, cost 1, initial energy 5, no reproduction. */
  const RatioSetup := Setup(20, 1000, 500, Rules(5, 1, 5, false, false))

  /** phaseDiag.py: GRID_SIZE 15, MAX_STEPS 1000, 100 trials, same rules. */
  const PhaseDiagSetup := Setup(15, 1000, 100, Rules(5, 1, 5, false, false))

  /** main.py: a 20 x 20 grid, `max_steps` 1000, the same rules, and eating
      sets the energy-gain display flags. */
  const ViewerSetup := Setup(20, 1000, 1, Rules(5, 1, 5, false, true))

  /** How the list lengths can change in one step. Each prey breeds at most
      once and each predator eats at most one prey and breeds at most once,
      because both loops iterate over a copy of the list taken before the
      step; without reproduction neither list grows. */
  predicate StepBound(before: (nat, nat), after: (nat, nat), breeding: bool) {
    && before.0 <= after.0 + before.1
    && after.0 <= 2 * before.0 && after.1 <= 2 * before.1
    && (!breeding ==> after.0 <= before.0 && after.1 <= before.1)
  }

  /** One step of the run loop: `move_prey` then `move_predators`, with the
      draws of step `s`. */
  method Step(w: World, dice: Dice, s: nat)
    requires w.Valid() && DiceOk(dice, w.n)
    modifies w, w.grid
    ensures w.Valid()
    ensures old(w.Consistent()) ==> w.Consistent()
    ensures StepBound((old(|w.preyList|), old(|w.predatorList|)), (|w.preyList|, |w.predatorList|), w.rules.breeding)
    ensures forall id :: id in w.predatorList ==> w.wolves[id].energy > 0
  {
    var preyDraws := seq(|w.preyList|, i requires 0 <= i => dice.prey(s, i));
    var born := w.MovePrey(preyDraws);
    var order := dice.order(s, w.predatorList);
    var predatorDraws := seq(|order|, i requires 0 <= i => dice.predator(s, i));
    var eaten, births, deaths := w.MovePredators(order, predatorDraws);
  }

  /** What a trial promises, given its initial counts, as the trace `tr` of
      list lengths after placement and after each step: it starts at the
      placed counts, every step began with both kinds present and changed
      the counts as `StepBound` allows, at most `maxSteps` steps ran and
      fewer only when a kind died out, and the outcome classifies the last
      counts. */
  predicate TrialEnd(setup: Setup, numPrey: nat, numPredators: nat, outcome: int, tr: seq<(nat, nat)>) {
    && 1 <= |tr| <= setup.maxSteps + 1
    && tr[0] == (numPrey, numPredators)
    && (forall k :: 0 <= k < |tr| - 1 ==> Alive(tr[k]) && StepBound(tr[k], tr[k + 1], setup.rules.breeding))
    && (|tr| - 1 < setup.maxSteps ==> !Alive(Last(tr)))
    && outcome == Classify(Last(tr).0 > 0, Last(tr).1 > 0)
  }

  /** `outcome` is a result `run_simulation(numPrey, numPredators)` can
      return: some trace of counts satisfies `TrialEnd`. */
  ghost predicate Ran(setup: Setup, numPrey: nat, numPredators: nat, outcome: int) {
    exists tr: seq<(nat, nat)> :: TrialEnd(setup, numPrey, numPredators, outcome, tr)
  }

  /** Without reproduction no count ever exceeds its initial value. */
  lemma {:induction false} NoGrowth(setup: Setup, numPrey: nat, numPredators: nat, outcome: int, tr: seq<(nat, nat)>, k: nat)
    requires TrialEnd(setup, numPrey, numPredators, outcome, tr) && !setup.rules.breeding && k < |tr|
    ensures tr[k].0 <= numPrey && tr[k].1 <= numPredators
  {
    if k > 0 {
      NoGrowth(setup, numPrey, numPredators, outcome, tr, k - 1);
      assert StepBound(tr[k - 1], tr[k], false);
    }
  }

  /** Without reproduction each step removes at most `numPredators` prey,
      so after `k` steps at least `numPrey - k * numPredators` prey are
      left. */
  lemma {:induction false} PreyOutlast(setup: Setup, numPrey: nat, numPredators: nat, outcome: int, tr: seq<(nat, nat)>, k: nat)
    requires TrialEnd(setup, numPrey, numPredators, outcome, tr) && !setup.rules.breeding && k < |tr|
    ensures numPrey <= tr[k].0 + k * numPredators
  {
    if k > 0 {
      PreyOutlast(setup, numPrey, numPredators, outcome, tr, k - 1);
      NoGrowth(setup, numPrey, numPredators, outcome, tr, k - 1);
      assert StepBound(tr[k - 1], tr[k], false);
    }
  }

  /** Hence a trial without reproduction can end in prey extinction only
      after at least `numPrey / numPredators` steps. */
  lemma PreyExtinctionTakesTime(setup: Setup, numPrey: nat, numPredators: nat, outcome: int, tr: seq<(nat, nat)>)
    requires TrialEnd(setup, numPrey, numPredators, outcome, tr) && !setup.rules.breeding
    ensures outcome == PreyExtinct ==> numPrey <= (|tr| - 1) * numPredators
  {
    PreyOutlast(setup, numPrey, numPredators, outcome, tr, |tr| - 1);
  }

  /** `run_simulation`: place `numPrey` prey and `numPredators` predators
      on a fresh world `w`, then step while `step_count < MAX_STEPS` and
      both lists are non-empty. Returns the outcome, the number of steps,
      the final list lengths of `w`, and `w` itself; the ghost `tr` records
      the list lengths after placement and after each step. */
  method RunSimulation(setup: Setup, numPrey: nat, numPredators: nat, dice: Dice)
    returns (outcome: int, steps: nat, preyLeft: nat, predatorsLeft: nat, w: World, ghost tr: seq<(nat, nat)>)
    requires setup.gridSize >= 3 && DiceOk(dice, setup.gridSize)
    requires numPrey <= setup.gridSize * setup.gridSize && numPredators <= setup.gridSize * setup.gridSize
    ensures fresh(w) && w.Valid() && w.n == setup.gridSize && w.rules == setup.rules
    ensures preyLeft == |w.preyList| && predatorsLeft == |w.predatorList|
    ensures steps > 0 ==> forall id :: id in w.predatorList ==> w.wolves[id].energy > 0
    ensures |tr| == steps + 1 && Last(tr) == (preyLeft, predatorsLeft)
    ensures TrialEnd(setup, numPrey, numPredators, outcome, tr)
  {
    var n := setup.gridSize;
    w := new World(n, setup.rules);
    var t := w.PlacePrey(numPrey, dice.place, 0);
    t := w.PlacePredators(numPredators, dice.place, t);
    steps := 0;
    tr := [(numPrey, numPredators)];
    while steps < setup.maxSteps && |w.preyList| > 0 && |w.predatorList| > 0
      invariant fresh(w) && w.Valid() && w.n == n && w.rules == setup.rules
      invariant steps <= setup.maxSteps
      invariant |tr| == steps + 1 && tr[0] == (numPrey, numPredators)
      invariant Last(tr) == (|w.preyList|, |w.predatorList|)
      invariant forall k :: 0 <= k < |tr| - 1 ==> Alive(tr[k]) && StepBound(tr[k], tr[k + 1], setup.rules.breeding)
      invariant steps > 0 ==> forall id :: id in w.predatorList ==> w.wolves[id].energy > 0
      decreases setup.maxSteps - steps
    {
      steps := steps + 1;
      Step(w, dice, steps);
      tr := tr + [(|w.preyList|, |w.predatorList|)];
    }
    preyLeft, predatorsLeft := |w.preyList|, |w.predatorList|;
    outcome := Classify(preyLeft > 0, predatorsLeft > 0);
  }
}
