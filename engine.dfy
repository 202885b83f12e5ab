// The CPU step engine shared (copy-pasted) by reproduction.py,
// phase_diagram_ratio.py, phaseDiag.py and main.py: a torus of cells
// holding nothing, a prey or a predator, the two agent lists, and the
// agents' mutable fields. Python object identity becomes a numeric id; the
// `x`/`y` fields of prey and the `x`/`y`/`energy` fields of predators are
// held in the maps `preyAt` and `wolves`, which the methods update in place
// of the objects.
module Engine {
  import opened Lists
  import opened Torus

  /** What `grid[y][x]` refers to: None, a Prey object or a Predator object. */
  datatype Cell = Empty | PreyCell(id: nat) | PredatorCell(id: nat)

  /** The mutable fields of a Predator object. `showGain` and `gainTimer`
      exist only in main.py (`display_energy_gain`, `energy_gain_timer`). */
  datatype Wolf = Wolf(pos: Pos, energy: int, showGain: bool, gainTimer: int)

  /** The constants that distinguish the copies of the engine. */
  datatype Rules = Rules(gain: int, moveCost: int, initialEnergy: int, breeding: bool, marksGain: bool)

  /** `random.shuffle` of an 8-element list, as the permutation of indices it applies. */
  ghost predicate IsShuffle(order: seq<nat>) {
    |order| == 8 && (forall k :: 0 <= k < 8 ==> order[k] < 8) && (forall d :: 0 <= d < 8 ==> d in order)
  }

  /** The list `nbs` after a shuffle that moved entry `order[k]` to slot `k`. */
  function Shuffled(nbs: seq<Pos>, order: seq<nat>): (r: seq<Pos>)
    requires |nbs| == 8 && |order| == 8 && forall k :: 0 <= k < 8 ==> order[k] < 8
    ensures |r| == 8 && forall k :: 0 <= k < 8 ==> r[k] in nbs
  {
    seq(8, k requires 0 <= k < 8 => nbs[order[k]])
  }

  /** Random draws for one prey: the shuffle of its neighbours, the
      `random() < SHEEP_REPRODUCE` coin and the second shuffle. */
  datatype PreyDraw = PreyDraw(order: seq<nat>, breed: bool, breedOrder: seq<nat>)

  /** Random draws for one predator: `random.choice` as an index taken modulo
      the list length, the `random() < WOLF_REPRODUCE` coin and the shuffle. */
  datatype PredatorDraw = PredatorDraw(pick: nat, breed: bool, breedOrder: seq<nat>)

  ghost predicate PreyDrawOk(d: PreyDraw) {
    IsShuffle(d.order) && IsShuffle(d.breedOrder)
  }

  ghost predicate PredatorDrawOk(d: PredatorDraw) {
    IsShuffle(d.breedOrder)
  }

  /** What a predator decides from its neighbourhood. */
  datatype Plan = EatAt(target: Pos) | WalkTo(target: Pos) | Stay

  /** What a predator did in its turn. */
  datatype Action = Ate(victim: nat) | Moved | Stayed

  class World {
    const n: nat
    const rules: Rules
    /** `grid[y][x]`, stored as grid[y, x]. */
    const grid: array2<Cell>
    var preyList: seq<nat>
    var predatorList: seq<nat>
    /** The `x`, `y` fields of every prey object. */
    var preyAt: map<nat, Pos>
    /** The fields of every predator object. */
    var wolves: map<nat, Wolf>
    /** Identity of the next object created. */
    var nextId: nat

    /** The cell at `p`. */
    function At(p: Pos): Cell
      reads grid
      requires InGrid(p, grid.Length0) && grid.Length1 == grid.Length0
    {
      grid[p.y, p.x]
    }

    /** Whatever a cell refers to is in the matching list and sits at its
        own coordinates. */
    ghost predicate CellOk(y: int, x: int)
      reads this, grid
      requires 0 <= y < grid.Length0 && 0 <= x < grid.Length1
    {
      match grid[y, x]
      case Empty => true
      case PreyCell(id) => id in preyList && id in preyAt && preyAt[id] == Pos(x, y)
      case PredatorCell(id) => id in predatorList && id in wolves && wolves[id].pos == Pos(x, y)
    }

    /** The invariant every operation keeps, also after the placement
        quirk: the grid points only at listed agents at their own
        coordinates; the lists are duplicate-free and their members' fields
        are known and on the board. */
    ghost predicate Valid()
      reads this, grid
    {
      && grid.Length0 == n && grid.Length1 == n && n >= 3
      && NoDup(preyList) && NoDup(predatorList)
      && (forall id :: id in preyList ==> id in preyAt && InGrid(preyAt[id], n) && id < nextId)
      && (forall id :: id in predatorList ==> id in wolves && InGrid(wolves[id].pos, n) && id < nextId)
      && (forall y, x :: 0 <= y < n && 0 <= x < n ==> CellOk(y, x))
    }

    /** The full occupancy invariant: in addition, every listed agent is on
        the grid at its own coordinates. */
    ghost predicate Consistent()
      reads this, grid
    {
      && Valid()
      && (forall id :: id in preyList ==> At(preyAt[id]) == PreyCell(id))
      && (forall id :: id in predatorList ==> At(wolves[id].pos) == PredatorCell(id))
    }

    /** `grid = [[None ...]]`, empty lists. */
    constructor (n: nat, rules: Rules)
      requires n >= 3
      ensures this.n == n && this.rules == rules
      ensures preyList == [] && predatorList == [] && nextId == 0
      ensures grid.Length0 == n && grid.Length1 == n
      ensures forall y, x :: 0 <= y < n && 0 <= x < n ==> grid[y, x] == Empty
      ensures Consistent()
      ensures fresh(grid)
    {
      this.n := n;
      this.rules := rules;
      grid := new Cell[n, n]((y, x) => Empty);
      preyList, predatorList := [], [];
      preyAt, wolves := map[], map[];
      nextId := 0;
    }

    /** Index of the first empty cell of `s`, |s| when there is none. */
    function FirstFree(s: seq<Pos>): (k: nat)
      reads grid
      requires grid.Length0 == grid.Length1
      requires forall i :: 0 <= i < |s| ==> InGrid(s[i], grid.Length0)
      ensures k <= |s|
      ensures k < |s| ==> At(s[k]) == Empty
      ensures forall i :: 0 <= i < k ==> At(s[i]) != Empty
      decreases |s|
    {
      if |s| == 0 then 0
      else if At(s[0]) == Empty then 0
      else 1 + FirstFree(s[1..])
    }

    /** The `for nx, ny in neighbors: if grid[ny][nx] is None: ... break` search. */
    method FirstEmpty(s: seq<Pos>) returns (k: nat)
      requires grid.Length0 == grid.Length1
      requires forall i :: 0 <= i < |s| ==> InGrid(s[i], grid.Length0)
      ensures k == FirstFree(s)
    {
      k := 0;
      while k < |s| && At(s[k]) != Empty
        invariant k <= |s|
        invariant FirstFree(s) == k + FirstFree(s[k..])
      {
        assert s[k..][1..] == s[k + 1..];
        k := k + 1;
      }
    }

    /** The neighbours in `s` holding prey (`wantPrey`) or nothing (otherwise), in order. */
    function Select(s: seq<Pos>, wantPrey: bool): (r: seq<Pos>)
      reads grid
      requires grid.Length0 == grid.Length1
      requires forall i :: 0 <= i < |s| ==> InGrid(s[i], grid.Length0)
      ensures |r| <= |s|
      ensures forall p :: p in r <==> p in s && (if wantPrey then At(p).PreyCell? else At(p) == Empty)
      decreases |s|
    {
      if |s| == 0 then []
      else
        var rest := Select(s[..|s| - 1], wantPrey);
        var p := s[|s| - 1];
        assert s == s[..|s| - 1] + [p];
        if (if wantPrey then At(p).PreyCell? else At(p) == Empty) then rest + [p] else rest
    }

    /** The loop filling `prey_neighbors` and `empty_neighbors`. */
    method ScanNeighbors(s: seq<Pos>) returns (preyNbs: seq<Pos>, emptyNbs: seq<Pos>)
      requires grid.Length0 == grid.Length1
      requires forall i :: 0 <= i < |s| ==> InGrid(s[i], grid.Length0)
      ensures preyNbs == Select(s, true) && emptyNbs == Select(s, false)
    {
      preyNbs, emptyNbs := [], [];
      for k := 0 to |s|
        invariant preyNbs == Select(s[..k], true) && emptyNbs == Select(s[..k], false)
      {
        assert s[..k + 1][..k] == s[..k];
        var c := At(s[k]);
        if c.PreyCell? {
          preyNbs := preyNbs + [s[k]];
        } else if c == Empty {
          emptyNbs := emptyNbs + [s[k]];
        }
      }
      assert s[..|s|] == s;
    }
  
    /** A prey at `home` steps into the first empty cell of its shuffled
        neighbour list `s`, clearing `home`; it stays when all are occupied. */
    method MovePreyOne(id: nat, s: seq<Pos>) returns (moved: bool)
      requires Valid() && id in preyList
      requires |s| == 8 && (forall i :: 0 <= i < 8 ==> InGrid(s[i], n)) && preyAt[id] !in s
      modifies this, grid
      ensures Valid()
      ensures old(Consistent()) ==> Consistent()
      ensures preyList == old(preyList) && predatorList == old(predatorList)
      ensures wolves == old(wolves) && nextId == old(nextId)
      ensures moved <==> old(FirstFree(s)) < 8
      ensures var home := old(preyAt[id]);
        if moved then
          var target := s[old(FirstFree(s))];
          && old(At(target)) == Empty
          && preyAt == old(preyAt)[id := target]
          && At(home) == Empty && At(target) == PreyCell(id)
          && forall y, x :: 0 <= y < n && 0 <= x < n && Pos(x, y) != home && Pos(x, y) != target ==> grid[y, x] == old(grid[y, x])
        else
          preyAt == old(preyAt) && forall y, x :: 0 <= y < n && 0 <= x < n ==> grid[y, x] == old(grid[y, x])
    {
      var home := preyAt[id];
      var k := FirstEmpty(s);
      if k < 8 {
        var target := s[k];
        grid[home.y, home.x] := Empty;
        preyAt := preyAt[id := target];
        grid[target.y, target.x] := PreyCell(id);
        moved := true;
        forall y, x | 0 <= y < n && 0 <= x < n ensures CellOk(y, x) {
          if Pos(x, y) != home && Pos(x, y) != target {
            assert old(CellOk(y, x));
          }
        }
        if old(Consistent()) {
          forall j | j in preyList && j != id ensures At(preyAt[j]) == PreyCell(j) {
            assert old(grid[preyAt[j].y, preyAt[j].x]) == PreyCell(j);
          }
          forall j | j in predatorList ensures At(wolves[j].pos) == PredatorCell(j) {
            assert old(grid[wolves[j].pos.y, wolves[j].pos.x]) == PredatorCell(j);
          }
        }
      } else {
        moved := false;
      }
    }
  
    /** Prey reproduction: a new prey in the first empty cell of the
        (reshuffled) neighbour list `s`, appended to `prey_list`; nothing
        happens when every neighbour is occupied. */
    method BreedPrey(s: seq<Pos>) returns (born: bool)
      requires Valid()
      requires |s| == 8 && forall i :: 0 <= i < 8 ==> InGrid(s[i], n)
      modifies this, grid
      ensures Valid()
      ensures old(Consistent()) ==> Consistent()
      ensures predatorList == old(predatorList) && wolves == old(wolves)
      ensures born <==> old(FirstFree(s)) < 8
      ensures if born then
          var target := s[old(FirstFree(s))];
          && old(At(target)) == Empty
          && nextId == old(nextId) + 1
          && preyList == old(preyList) + [old(nextId)]
          && preyAt == old(preyAt)[old(nextId) := target]
          && At(target) == PreyCell(old(nextId))
          && forall y, x :: 0 <= y < n && 0 <= x < n && Pos(x, y) != target ==> grid[y, x] == old(grid[y, x])
        else
          && nextId == old(nextId) && preyList == old(preyList) && preyAt == old(preyAt)
          && forall y, x :: 0 <= y < n && 0 <= x < n ==> grid[y, x] == old(grid[y, x])
    {
      var k := FirstEmpty(s);
      if k < 8 {
        AddPrey(s[k]);
        born := true;
      } else {
        born := false;
      }
    }

    /** `Prey(x, y)` created on the empty cell `target` and appended to
        `prey_list`. */
    method AddPrey(target: Pos)
      requires Valid() && InGrid(target, n) && At(target) == Empty
      modifies this, grid
      ensures Valid()
      ensures old(Consistent()) ==> Consistent()
      ensures predatorList == old(predatorList) && wolves == old(wolves)
      ensures nextId == old(nextId) + 1
      ensures preyList == old(preyList) + [old(nextId)]
      ensures preyAt == old(preyAt)[old(nextId) := target]
      ensures At(target) == PreyCell(old(nextId))
      ensures forall y, x :: 0 <= y < n && 0 <= x < n && Pos(x, y) != target ==> grid[y, x] == old(grid[y, x])
    {
      var baby := nextId;
      assert baby !in preyList;
      assert NoDup(preyList + [baby]);
      nextId := nextId + 1;
      preyList := preyList + [baby];
      preyAt := preyAt[baby := target];
      grid[target.y, target.x] := PreyCell(baby);
      forall y, x | 0 <= y < n && 0 <= x < n ensures CellOk(y, x) {
        if Pos(x, y) != target {
          assert old(CellOk(y, x));
        }
      }
    }

    /** The movement half of a `move_prey` iteration: shuffle the
        neighbours of prey `id` and step into the first empty one. Returns
        the shuffled list, which breeding reuses. */
    method WanderPrey(id: nat, d: PreyDraw) returns (s: seq<Pos>)
      requires Valid() && id in preyList && PreyDrawOk(d)
      modifies this, grid
      ensures Valid()
      ensures old(Consistent()) ==> Consistent()
      ensures preyList == old(preyList) && predatorList == old(predatorList)
      ensures wolves == old(wolves) && nextId == old(nextId)
      ensures |s| == 8 && forall i :: 0 <= i < 8 ==> InGrid(s[i], n)
      ensures var home, now := old(preyAt[id]), preyAt[id];
        && (now == home <==> forall p :: p in Neighbors(home.x, home.y, n) ==> old(At(p)) != Empty)
        && (now != home ==> now in Neighbors(home.x, home.y, n) && old(At(now)) == Empty)
      ensures old(Consistent()) ==>
        forall y, x :: 0 <= y < n && 0 <= x < n ==>
          (grid[y, x].PredatorCell? || old(grid[y, x]).PredatorCell?) ==> grid[y, x] == old(grid[y, x])
    {
      var home := preyAt[id];
      var nbs := GetNeighbors(home.x, home.y, n);
      NeighborsAvoidCentre(home.x, home.y, n);
      s := Shuffled(nbs, d.order);
      ShuffledCovers(nbs, d.order);
      ghost var k0 := FirstFree(s);
      var moved := MovePreyOne(id, s);
      if moved {
        assert preyAt[id] == s[k0] && old(At(s[k0])) == Empty;
      } else {
        forall p | p in nbs ensures old(At(p)) != Empty {
          var i :| 0 <= i < 8 && s[i] == p;
        }
      }
    }

    /** One iteration of `move_prey` for the prey `id`: shuffle its
        neighbours, step into the first empty one, and (reproduction.py)
        on a successful coin breed into the first empty cell of the
        reshuffled list, still taken around the old position. */
    method StepPrey(id: nat, d: PreyDraw) returns (born: bool)
      requires Valid() && id in preyList && PreyDrawOk(d)
      modifies this, grid
      ensures Valid()
      ensures old(Consistent()) ==> Consistent()
      ensures predatorList == old(predatorList) && wolves == old(wolves)
      ensures born ==> rules.breeding && d.breed
      ensures preyList == old(preyList) + (if born then [old(nextId)] else [])
      ensures nextId == old(nextId) + (if born then 1 else 0)
      ensures var home, now := old(preyAt[id]), preyAt[id];
        && (now == home <==> forall p :: p in Neighbors(home.x, home.y, n) ==> old(At(p)) != Empty)
        && (now != home ==> now in Neighbors(home.x, home.y, n) && old(At(now)) == Empty)
      ensures old(Consistent()) ==>
        forall y, x :: 0 <= y < n && 0 <= x < n ==>
          (grid[y, x].PredatorCell? || old(grid[y, x]).PredatorCell?) ==> grid[y, x] == old(grid[y, x])
    {
      var s := WanderPrey(id, d);
      born := MaybeBreedPrey(id, s, d);
    }

    /** The breeding part of a prey's turn (reproduction.py): on a
        successful coin, `BreedPrey` over a reshuffle of the neighbour list
        `s`. The breeding prey stays where it is and no predator cell
        changes. */
    method MaybeBreedPrey(id: nat, s: seq<Pos>, d: PreyDraw) returns (born: bool)
      requires Valid() && id in preyList && PreyDrawOk(d)
      requires |s| == 8 && forall i :: 0 <= i < 8 ==> InGrid(s[i], n)
      modifies this, grid
      ensures Valid()
      ensures old(Consistent()) ==> Consistent()
      ensures predatorList == old(predatorList) && wolves == old(wolves)
      ensures born ==> rules.breeding && d.breed
      ensures preyList == old(preyList) + (if born then [old(nextId)] else [])
      ensures nextId == old(nextId) + (if born then 1 else 0)
      ensures preyAt[id] == old(preyAt[id])
      ensures forall y, x :: 0 <= y < n && 0 <= x < n ==>
        (grid[y, x].PredatorCell? || old(grid[y, x]).PredatorCell?) ==> grid[y, x] == old(grid[y, x])
    {
      born := false;
      if rules.breeding && d.breed {
        var s2 := Shuffled(s, d.breedOrder);
        born := BreedPrey(s2);
      }
    }

    /** `move_prey`: every prey of a copy of `prey_list` takes its turn, in
        list order, with its own draws; newborns are appended and do not move
        in this call. Without reproduction the prey count is unchanged, and
        when the full occupancy invariant held no predator cell is touched. */
    method MovePrey(draws: seq<PreyDraw>) returns (born: nat)
      requires Valid() && |draws| >= |preyList|
      requires forall i :: 0 <= i < |draws| ==> PreyDrawOk(draws[i])
      modifies this, grid
      ensures Valid()
      ensures old(Consistent()) ==> Consistent()
      ensures predatorList == old(predatorList) && wolves == old(wolves)
      ensures |preyList| == |old(preyList)| + born && preyList[..|old(preyList)|] == old(preyList)
      ensures forall k :: |old(preyList)| <= k < |preyList| ==> preyList[k] >= old(nextId)
      ensures born <= |old(preyList)|
      ensures !rules.breeding ==> born == 0
      ensures old(Consistent()) ==>
        forall y, x :: 0 <= y < n && 0 <= x < n ==>
          (grid[y, x].PredatorCell? || old(grid[y, x]).PredatorCell?) ==> grid[y, x] == old(grid[y, x])
    {
      var copy := preyList;
      born := 0;
      for t := 0 to |copy|
        invariant Valid()
        invariant old(Consistent()) ==> Consistent()
        invariant predatorList == old(predatorList) && wolves == old(wolves)
        invariant |preyList| == |copy| + born && preyList[..|copy|] == copy
        invariant forall k :: |copy| <= k < |preyList| ==> old(nextId) <= preyList[k] < nextId
        invariant old(nextId) <= nextId
        invariant born <= t
        invariant !rules.breeding ==> born == 0
        invariant old(Consistent()) ==>
          forall y, x :: 0 <= y < n && 0 <= x < n ==>
            (grid[y, x].PredatorCell? || old(grid[y, x]).PredatorCell?) ==> grid[y, x] == old(grid[y, x])
      {
        var id := copy[t];
        assert preyList[t] == id;
        ghost var before := preyList;
        var b := StepPrey(id, draws[t]);
        if b {
          born := born + 1;
        }
        assert preyList[..|copy|] == before[..|copy|];
      }
    }

    /** The fields of predator `id` after eating: energy up by the gain,
        and in main.py the "+Energy" marker set for one step. */
    function Fed(w: Wolf, target: Pos): Wolf {
      var w' := w.(pos := target, energy := w.energy + rules.gain);
      if rules.marksGain then w'.(showGain := true, gainTimer := 1) else w'
    }

    /** Predator `id` eats the prey at `target`: its old cell is cleared,
        the prey leaves `prey_list` and the grid, the predator takes its cell. */
    method Eat(id: nat, target: Pos) returns (victim: nat)
      requires Valid() && id in predatorList && InGrid(target, n)
      requires target != wolves[id].pos && At(target).PreyCell?
      modifies this, grid
      ensures Valid()
      ensures old(Consistent()) ==> Consistent()
      ensures victim == old(At(target)).id && victim in old(preyList)
      ensures preyList == RemoveFirst(old(preyList), victim)
      ensures predatorList == old(predatorList) && preyAt == old(preyAt) && nextId == old(nextId)
      ensures wolves == old(wolves)[id := Fed(old(wolves[id]), target)]
      ensures var home := old(wolves[id].pos);
        && At(home) == Empty && At(target) == PredatorCell(id)
        && forall y, x :: 0 <= y < n && 0 <= x < n && Pos(x, y) != home && Pos(x, y) != target ==> grid[y, x] == old(grid[y, x])
    {
      var home := wolves[id].pos;
      assert CellOk(target.y, target.x);
      grid[home.y, home.x] := Empty;
      victim := At(target).id;
      RemoveFirstMembers(preyList, victim);
      preyList := RemoveFirst(preyList, victim);
      grid[target.y, target.x] := PredatorCell(id);
      wolves := wolves[id := Fed(wolves[id], target)];
      forall y, x | 0 <= y < n && 0 <= x < n ensures CellOk(y, x) {
        if Pos(x, y) != home && Pos(x, y) != target {
          assert old(CellOk(y, x));
        }
      }
      if old(Consistent()) {
        forall k | k in preyList ensures At(preyAt[k]) == PreyCell(k) {
          assert k in old(preyList) && k != victim;
          assert old(grid[preyAt[k].y, preyAt[k].x]) == PreyCell(k);
        }
        forall k | k in predatorList && k != id ensures At(wolves[k].pos) == PredatorCell(k) {
          assert old(grid[wolves[k].pos.y, wolves[k].pos.x]) == PredatorCell(k);
        }
      }
    }

    /** The fields of a predator after moving to `target`. */
    function Walked(w: Wolf, target: Pos): Wolf {
      w.(pos := target, energy := w.energy - rules.moveCost)
    }

    /** The fields of a predator that could not move: the cost is paid in
        the `else` branch and again under `if not moved`. */
    function Stuck(w: Wolf): Wolf {
      w.(energy := w.energy - rules.moveCost - rules.moveCost)
    }

    /** Predator `id` moves into the empty cell `target`, paying the move cost. */
    method Walk(id: nat, target: Pos)
      requires Valid() && id in predatorList && InGrid(target, n)
      requires target != wolves[id].pos && At(target) == Empty
      modifies this, grid
      ensures Valid()
      ensures old(Consistent()) ==> Consistent()
      ensures preyList == old(preyList) && predatorList == old(predatorList)
      ensures preyAt == old(preyAt) && nextId == old(nextId)
      ensures wolves == old(wolves)[id := Walked(old(wolves[id]), target)]
      ensures var home := old(wolves[id].pos);
        && At(home) == Empty && At(target) == PredatorCell(id)
        && forall y, x :: 0 <= y < n && 0 <= x < n && Pos(x, y) != home && Pos(x, y) != target ==> grid[y, x] == old(grid[y, x])
    {
      var w := wolves[id];
      var home := w.pos;
      grid[home.y, home.x] := Empty;
      grid[target.y, target.x] := PredatorCell(id);
      wolves := wolves[id := Walked(w, target)];
      forall y, x | 0 <= y < n && 0 <= x < n ensures CellOk(y, x) {
        if Pos(x, y) != home && Pos(x, y) != target {
          assert old(CellOk(y, x));
        }
      }
    }

    /** Predator `id` has nowhere to go and stays, paying the cost twice. */
    method Hold(id: nat)
      requires Valid() && id in predatorList
      modifies this
      ensures Valid()
      ensures old(Consistent()) ==> Consistent()
      ensures preyList == old(preyList) && predatorList == old(predatorList)
      ensures preyAt == old(preyAt) && nextId == old(nextId)
      ensures wolves == old(wolves)[id := Stuck(old(wolves[id]))]
    {
      wolves := wolves[id := Stuck(wolves[id])];
      forall y, x | 0 <= y < n && 0 <= x < n ensures CellOk(y, x) {
        assert old(CellOk(y, x));
      }
    }

    /** The decision of a predator at `home`: eat a prey neighbour if there
        is one, else move to an empty neighbour if there is one, else stay;
        `pick` is the `random.choice` among the candidates, in scan order. */
    function ChoosePlan(home: Pos, pick: nat): (plan: Plan)
      reads grid
      requires grid.Length0 == grid.Length1 == n && n > 0 && InGrid(home, n)
      ensures var nbs := Neighbors(home.x, home.y, n);
        && (plan.EatAt? <==> exists p :: p in nbs && At(p).PreyCell?)
        && (plan.WalkTo? <==> (forall p :: p in nbs ==> !At(p).PreyCell?) && exists p :: p in nbs && At(p) == Empty)
        && (plan.EatAt? ==> plan.target in nbs && At(plan.target).PreyCell?)
        && (plan.WalkTo? ==> plan.target in nbs && At(plan.target) == Empty)
    {
      var nbs := Neighbors(home.x, home.y, n);
      var preyNbs, emptyNbs := Select(nbs, true), Select(nbs, false);
      if |preyNbs| > 0 then
        assert preyNbs[0] in preyNbs;
        EatAt(preyNbs[pick % |preyNbs|])
      else if |emptyNbs| > 0 then
        assert emptyNbs[0] in emptyNbs;
        WalkTo(emptyNbs[pick % |emptyNbs|])
      else Stay
    }

    /** The first part of a predator's turn, the three rules in order: eat,
        else move, else stay and pay the move cost twice (the `else` branch
        and then `if not moved`). */
    method Forage(id: nat, pick: nat) returns (act: Action)
      requires Valid() && id in predatorList
      modifies this, grid
      ensures Valid()
      ensures old(Consistent()) ==> Consistent()
      ensures predatorList == old(predatorList) && preyAt == old(preyAt) && nextId == old(nextId)
      ensures var home, now := old(wolves[id].pos), wolves[id].pos;
        match old(ChoosePlan(home, pick))
        case EatAt(target) =>
          && act == Ate(old(At(target)).id) && now == target
          && act.victim in old(preyList) && preyList == RemoveFirst(old(preyList), act.victim)
          && wolves == old(wolves)[id := Fed(old(wolves[id]), target)]
        case WalkTo(target) =>
          && act == Moved && now == target && preyList == old(preyList)
          && wolves == old(wolves)[id := Walked(old(wolves[id]), target)]
        case Stay =>
          && act == Stayed && preyList == old(preyList)
          && wolves == old(wolves)[id := Stuck(old(wolves[id]))]
      ensures var home, now := old(wolves[id].pos), wolves[id].pos;
        if act.Stayed? then forall y, x :: 0 <= y < n && 0 <= x < n ==> grid[y, x] == old(grid[y, x])
        else
          && At(home) == Empty && At(now) == PredatorCell(id)
          && forall y, x :: 0 <= y < n && 0 <= x < n && Pos(x, y) != home && Pos(x, y) != now ==> grid[y, x] == old(grid[y, x])
    {
      var home := wolves[id].pos;
      NeighborsAvoidCentre(home.x, home.y, n);
      var plan := DecidePlan(home, pick);
      match plan {
        case EatAt(target) =>
          var victim := Eat(id, target);
          act := Ate(victim);
        case WalkTo(target) =>
          Walk(id, target);
          act := Moved;
        case Stay =>
          Hold(id);
          act := Stayed;
      }
    }

    /** The neighbour scan and `random.choice` of a predator at `home`. */
    method DecidePlan(home: Pos, pick: nat) returns (plan: Plan)
      requires grid.Length0 == grid.Length1 == n && n > 0 && InGrid(home, n)
      ensures plan == ChoosePlan(home, pick)
    {
      var nbs := GetNeighbors(home.x, home.y, n);
      var preyNbs, emptyNbs := ScanNeighbors(nbs);
      if |preyNbs| > 0 {
        plan := EatAt(preyNbs[pick % |preyNbs|]);
      } else if |emptyNbs| > 0 {
        plan := WalkTo(emptyNbs[pick % |emptyNbs|]);
      } else {
        plan := Stay;
      }
    }

    /** Predator reproduction (reproduction.py): a newborn in the first empty
        cell of the reshuffled neighbour list `s`, appended to
        `predator_list`; parent and newborn each get half of the parent's
        energy, rounded down. Nothing happens when no neighbour is empty. */
    method BreedPredator(id: nat, s: seq<Pos>) returns (born: bool)
      requires Valid() && id in predatorList && wolves[id].energy > 1
      requires |s| == 8 && forall i :: 0 <= i < 8 ==> InGrid(s[i], n)
      modifies this, grid
      ensures Valid()
      ensures old(Consistent()) ==> Consistent()
      ensures preyList == old(preyList) && preyAt == old(preyAt)
      ensures born <==> old(FirstFree(s)) < 8
      ensures if born then
          var target, baby, half := s[old(FirstFree(s))], old(nextId), Half(old(wolves[id].energy));
          && old(At(target)) == Empty
          && nextId == baby + 1
          && predatorList == old(predatorList) + [baby]
          && wolves == old(wolves)[id := old(wolves[id]).(energy := half)][baby := Wolf(target, half, false, 0)]
          && At(target) == PredatorCell(baby)
          && forall y, x :: 0 <= y < n && 0 <= x < n && Pos(x, y) != target ==> grid[y, x] == old(grid[y, x])
        else
          && nextId == old(nextId) && predatorList == old(predatorList) && wolves == old(wolves)
          && forall y, x :: 0 <= y < n && 0 <= x < n ==> grid[y, x] == old(grid[y, x])
    {
      var k := FirstEmpty(s);
      if k < 8 {
        var target := s[k];
        var half := Half(wolves[id].energy);
        wolves := wolves[id := wolves[id].(energy := half)];
        assert Valid() by {
          forall y, x | 0 <= y < n && 0 <= x < n ensures CellOk(y, x) {
            assert old(CellOk(y, x));
          }
        }
        AddPredator(Wolf(target, half, false, 0));
        born := true;
      } else {
        born := false;
      }
    }

    /** `Predator(x, y)` created at `w.pos` with the fields of `w` and
        appended to `predator_list`. The cell may hold a prey, which is
        then overwritten but stays in `prey_list`. */
    method AddPredator(w: Wolf)
      requires Valid() && InGrid(w.pos, n) && !At(w.pos).PredatorCell?
      modifies this, grid
      ensures Valid()
      ensures old(Consistent()) && old(At(w.pos)) == Empty ==> Consistent()
      ensures preyList == old(preyList) && preyAt == old(preyAt)
      ensures nextId == old(nextId) + 1
      ensures predatorList == old(predatorList) + [old(nextId)]
      ensures wolves == old(wolves)[old(nextId) := w]
      ensures At(w.pos) == PredatorCell(old(nextId))
      ensures forall y, x :: 0 <= y < n && 0 <= x < n && Pos(x, y) != w.pos ==> grid[y, x] == old(grid[y, x])
    {
      var baby := nextId;
      assert baby !in predatorList;
      assert NoDup(predatorList + [baby]);
      nextId := nextId + 1;
      predatorList := predatorList + [baby];
      grid[w.pos.y, w.pos.x] := PredatorCell(baby);
      wolves := wolves[baby := w];
      forall y, x | 0 <= y < n && 0 <= x < n ensures CellOk(y, x) {
        if Pos(x, y) != w.pos {
          assert old(CellOk(y, x));
        }
      }
    }

    /** `if predator.energy <= 0`: the cell at the predator's coordinates is
        cleared and the predator leaves `predator_list`. */
    method Starve(id: nat) returns (died: bool)
      requires Valid() && id in predatorList
      modifies this, grid
      ensures Valid()
      ensures old(Consistent()) ==> Consistent()
      ensures preyList == old(preyList) && preyAt == old(preyAt)
      ensures wolves == old(wolves) && nextId == old(nextId)
      ensures died <==> old(wolves[id].energy) <= 0
      ensures if died then
          var home := old(wolves[id].pos);
          && predatorList == RemoveFirst(old(predatorList), id)
          && At(home) == Empty
          && forall y, x :: 0 <= y < n && 0 <= x < n && Pos(x, y) != home ==> grid[y, x] == old(grid[y, x])
        else
          && predatorList == old(predatorList)
          && forall y, x :: 0 <= y < n && 0 <= x < n ==> grid[y, x] == old(grid[y, x])
    {
      var w := wolves[id];
      if w.energy <= 0 {
        grid[w.pos.y, w.pos.x] := Empty;
        RemoveFirstMembers(predatorList, id);
        predatorList := RemoveFirst(predatorList, id);
        died := true;
        forall y, x | 0 <= y < n && 0 <= x < n ensures CellOk(y, x) {
          if Pos(x, y) != w.pos {
            assert old(CellOk(y, x));
          }
        }
      } else {
        died := false;
      }
    }

    /** The first two parts of a predator's turn: forage, then
        (reproduction.py) on a successful coin and energy above 1 breed
        around the cell the predator started from. */
    method ForageAndBreed(id: nat, d: PredatorDraw) returns (act: Action, born: bool)
      requires Valid() && id in predatorList && PredatorDrawOk(d)
      modifies this, grid
      ensures Valid()
      ensures old(Consistent()) ==> Consistent()
      ensures preyAt == old(preyAt)
      ensures act.Ate? ==> act.victim in old(preyList) && preyList == RemoveFirst(old(preyList), act.victim)
      ensures !act.Ate? ==> preyList == old(preyList)
      ensures born ==> rules.breeding && d.breed
      ensures nextId == old(nextId) + (if born then 1 else 0)
      ensures predatorList == old(predatorList) + (if born then [old(nextId)] else [])
      ensures id in wolves && (born ==> wolves[id].energy > 0)
      ensures born ==> old(nextId) in wolves && wolves[old(nextId)].energy > 0
      ensures forall j :: j in old(predatorList) && j != id ==> j in wolves && wolves[j] == old(wolves[j])
    {
      var home := wolves[id].pos;
      act := Forage(id, d.pick);
      born := MaybeBreed(id, home, d);
    }

    /** The breeding part of a predator's turn: on a successful coin and
        energy above 1, `BreedPredator` around `home`, the cell the predator
        started its turn from. */
    method MaybeBreed(id: nat, home: Pos, d: PredatorDraw) returns (born: bool)
      requires Valid() && id in predatorList && InGrid(home, n) && PredatorDrawOk(d)
      modifies this, grid
      ensures Valid()
      ensures old(Consistent()) ==> Consistent()
      ensures preyList == old(preyList) && preyAt == old(preyAt)
      ensures born ==> rules.breeding && d.breed
      ensures nextId == old(nextId) + (if born then 1 else 0)
      ensures predatorList == old(predatorList) + (if born then [old(nextId)] else [])
      ensures id in wolves && (born ==> wolves[id].energy > 0)
      ensures born ==> old(nextId) in wolves && wolves[old(nextId)].energy > 0
      ensures forall j :: j in old(predatorList) && j != id ==> j in wolves && wolves[j] == old(wolves[j])
    {
      born := false;
      if rules.breeding && d.breed && wolves[id].energy > 1 {
        var nbs := GetNeighbors(home.x, home.y, n);
        born := BreedPredator(id, Shuffled(nbs, d.breedOrder));
      }
    }

    /** One iteration of `move_predators` for predator `id`: forage and
        breed, then die if its energy is not positive. A survivor ends its
        turn with positive energy. */
    method ProcessPredator(id: nat, d: PredatorDraw) returns (act: Action, born: bool, died: bool)
      requires Valid() && id in predatorList && PredatorDrawOk(d)
      modifies this, grid
      ensures Valid()
      ensures old(Consistent()) ==> Consistent()
      ensures preyAt == old(preyAt)
      ensures act.Ate? ==> act.victim in old(preyList) && preyList == RemoveFirst(old(preyList), act.victim)
      ensures !act.Ate? ==> preyList == old(preyList)
      ensures born ==> rules.breeding && d.breed
      ensures nextId == old(nextId) + (if born then 1 else 0)
      ensures var grown := old(predatorList) + (if born then [old(nextId)] else []);
        predatorList == if died then RemoveFirst(grown, id) else grown
      ensures died <==> id !in predatorList
      ensures forall j :: j in old(predatorList) && j != id ==> j in predatorList
      ensures forall j :: j in predatorList ==> j in old(predatorList) || (born && j == old(nextId))
      ensures !died ==> wolves[id].energy > 0
      ensures born ==> old(nextId) in wolves && wolves[old(nextId)].energy > 0
      ensures forall j :: j in old(predatorList) && j != id ==> j in wolves && wolves[j] == old(wolves[j])
    {
      act, born := ForageAndBreed(id, d);
      ghost var grown := predatorList;
      died := Starve(id);
      if died {
        RemoveFirstMembers(grown, id);
      }
    }

    /** The turn of predator `id` inside `move_predators`, where `pending`
        holds the predators of the copy still to move: afterwards every
        listed predator outside `pending - {id}` has positive energy. */
    method TakeTurn(id: nat, d: PredatorDraw, ghost pending: set<nat>) returns (act: Action, born: bool, died: bool)
      requires Valid() && id in pending && PredatorDrawOk(d)
      requires forall j :: j in pending ==> j in predatorList
      requires forall j :: j in predatorList && j !in pending ==> wolves[j].energy > 0
      modifies this, grid
      ensures Valid()
      ensures old(Consistent()) ==> Consistent()
      ensures preyAt == old(preyAt)
      ensures act.Ate? ==> act.victim in old(preyList) && preyList == RemoveFirst(old(preyList), act.victim)
      ensures !act.Ate? ==> preyList == old(preyList)
      ensures born ==> rules.breeding
      ensures |predatorList| == |old(predatorList)| + (if born then 1 else 0) - (if died then 1 else 0)
      ensures forall j :: j in pending - {id} ==> j in predatorList
      ensures forall j :: j in predatorList && j !in pending - {id} ==> wolves[j].energy > 0
    {
      ghost var list0, wolves0, next0 := predatorList, wolves, nextId;
      act, born, died := ProcessPredator(id, d);
      forall j | j in predatorList && j !in pending - {id} ensures wolves[j].energy > 0 {
        if j != id && !(born && j == next0) {
          assert j in list0 && j !in pending;
          assert wolves[j] == wolves0[j];
        }
      }
      if died {
        RemoveFirstMembers(list0 + (if born then [next0] else []), id);
      }
    }

    /** `random.shuffle(predator_list)`: the list is reordered in place. */
    method Reorder(shuffled: seq<nat>)
      requires Valid() && multiset(shuffled) == multiset(predatorList)
      modifies this
      ensures Valid()
      ensures old(Consistent()) ==> Consistent()
      ensures predatorList == shuffled
      ensures preyList == old(preyList) && preyAt == old(preyAt) && wolves == old(wolves) && nextId == old(nextId)
    {
      ReorderedNoDup(predatorList, shuffled);
      predatorList := shuffled;
      forall y, x | 0 <= y < n && 0 <= x < n ensures CellOk(y, x) {
        assert old(CellOk(y, x));
      }
    }

    /** `move_predators`: shuffle `predator_list` in place (`shuffled` is the
        resulting order), then give every predator of a copy of it its turn.
        Afterwards every listed predator has positive energy; `prey_list`
        lost exactly the eaten prey; the predator count changed by births
        minus deaths, so without reproduction it never grows. */
    method MovePredators(shuffled: seq<nat>, draws: seq<PredatorDraw>) returns (eaten: seq<nat>, births: nat, deaths: nat)
      requires Valid() && multiset(shuffled) == multiset(predatorList)
      requires |draws| >= |shuffled| && forall i :: 0 <= i < |draws| ==> PredatorDrawOk(draws[i])
      modifies this, grid
      ensures Valid()
      ensures old(Consistent()) ==> Consistent()
      ensures forall id :: id in predatorList ==> wolves[id].energy > 0
      ensures multiset(preyList) + multiset(eaten) == multiset(old(preyList))
      ensures |preyList| == |old(preyList)| - |eaten|
      ensures |predatorList| == |old(predatorList)| + births - deaths
      ensures |eaten| <= |old(predatorList)| && births <= |old(predatorList)|
      ensures !rules.breeding ==> births == 0
      ensures preyAt == old(preyAt)
    {
      Reorder(shuffled);
      var copy := predatorList;
      assert |copy| == |old(predatorList)| by {
        assert |multiset(shuffled)| == |multiset(old(predatorList))|;
      }
      ghost var pending := set k | 0 <= k < |copy| :: copy[k];
      SetOfSeqCard(copy);
      eaten, births, deaths := [], 0, 0;
      for t := 0 to |copy|
        invariant Valid()
        invariant old(Consistent()) ==> Consistent()
        invariant NoDup(copy)
        invariant forall k :: t <= k < |copy| ==> copy[k] in pending
        invariant forall id :: id in pending ==> id in predatorList
        invariant |pending| <= |copy| - t
        invariant forall id :: id in predatorList && id !in pending ==> wolves[id].energy > 0
        invariant multiset(preyList) + multiset(eaten) == multiset(old(preyList))
        invariant |predatorList| == |copy| + births - deaths
        invariant |eaten| <= t && births <= t
        invariant !rules.breeding ==> births == 0
        invariant preyAt == old(preyAt)
      {
        var id := copy[t];
        ghost var prey0, eaten0 := preyList, eaten;
        var act, born, died := TakeTurn(id, draws[t], pending);
        var victims := if act.Ate? then [act.victim] else [];
        eaten := eaten + victims;
        EatenTally(preyList, prey0, old(preyList), eaten0, victims);
        births := births + (if born then 1 else 0);
        deaths := deaths + (if died then 1 else 0);
        assert |pending - {id}| == |pending| - 1;
        pending := pending - {id};
      }
      assert |multiset(preyList)| + |multiset(eaten)| == |multiset(old(preyList))|;
    }

    /** The eaten prey of one more turn join the tally. */
    static lemma EatenTally(now: seq<nat>, mid: seq<nat>, start: seq<nat>, eaten: seq<nat>, victims: seq<nat>)
      requires multiset(mid) + multiset(eaten) == multiset(start)
      requires victims == [] ==> now == mid
      requires victims != [] ==> |victims| == 1 && victims[0] in mid && now == RemoveFirst(mid, victims[0])
      ensures multiset(now) + multiset(eaten + victims) == multiset(start)
    {
      if victims != [] {
        assert multiset(victims) == multiset{victims[0]};
      }
      assert multiset(eaten + victims) == multiset(eaten) + multiset(victims);
    }

    /** A drawn cell is taken: for prey (`forPrey`) only an empty cell,
        for predators any cell without a predator. */
    predicate Takes(p: Pos, forPrey: bool)
      reads grid
      requires InGrid(p, grid.Length0) && grid.Length1 == grid.Length0
    {
      if forPrey then At(p) == Empty else !At(p).PredatorCell?
    }

    /** The `while True` draw loop of the placement: `(x, y)` pairs are
        drawn from index `t0` on until one is taken; `t` is the index after
        the accepted draw. `used` holds every cell that is not taken, fewer
        than all of them, so a fair stream reaches a taken cell. */
    method DrawCell(draw: nat -> Pos, t0: nat, forPrey: bool, ghost used: set<Pos>) returns (pos: Pos, t: nat)
      requires grid.Length0 == n && grid.Length1 == n && DrawsOk(draw, n)
      requires used <= Cells(n) && |used| < n * n
      requires forall p :: InGrid(p, n) && p !in used ==> Takes(p, forPrey)
      ensures InGrid(pos, n) && Takes(pos, forPrey)
      ensures t > t0 && pos == draw(t - 1)
      ensures forall k :: t0 <= k < t - 1 ==> !Takes(draw(k), forPrey)
    {
      FreeCellExists(used, n);
      ghost var free :| InGrid(free, n) && free !in used;
      assert Recurs(draw, free, t0);
      ghost var due :| due >= t0 && draw(due) == free;
      t := t0;
      pos := draw(t);
      while !Takes(pos, forPrey)
        invariant t0 <= t <= due && pos == draw(t)
        invariant forall k :: t0 <= k < t ==> !Takes(draw(k), forPrey)
        decreases due - t
      {
        t := t + 1;
        pos := draw(t);
      }
      t := t + 1;
    }

    /** Initial prey placement: for each prey, `randint` pairs are drawn
        from `draw`, starting at index `t0`, until an empty cell comes up.
        It ends after `count` prey because at most n * n cells are taken
        and every cell recurs in a fair stream. */
    method PlacePrey(count: nat, draw: nat -> Pos, t0: nat) returns (t: nat)
      requires Valid() && preyList == [] && predatorList == []
      requires forall y, x :: 0 <= y < n && 0 <= x < n ==> grid[y, x] == Empty
      requires count <= n * n && DrawsOk(draw, n)
      modifies this, grid
      ensures Consistent()
      ensures |preyList| == count && predatorList == [] && t >= t0
      ensures forall y, x :: 0 <= y < n && 0 <= x < n ==> !grid[y, x].PredatorCell?
      ensures wolves == old(wolves)
    {
      t := t0;
      ghost var used: set<Pos> := {};
      CellsCard(n);
      for i := 0 to count
        invariant Consistent()
        invariant |preyList| == i && predatorList == [] && t >= t0
        invariant wolves == old(wolves)
        invariant forall y, x :: 0 <= y < n && 0 <= x < n ==> !grid[y, x].PredatorCell?
        invariant used <= Cells(n) && |used| == i
        invariant forall p :: InGrid(p, n) ==> (At(p) != Empty <==> p in used)
      {
        var pos;
        pos, t := DrawCell(draw, t, true, used);
        AddPrey(pos);
        used := used + {pos};
      }
    }

    /** Initial predator placement: like the prey, but a drawn cell is
        accepted unless it holds a predator, so a predator may land on a
        prey. The overwritten prey stays in `prey_list` with its old
        coordinates, off the grid. */
    method PlacePredators(count: nat, draw: nat -> Pos, t0: nat) returns (t: nat)
      requires Consistent() && predatorList == []
      requires forall y, x :: 0 <= y < n && 0 <= x < n ==> !grid[y, x].PredatorCell?
      requires count <= n * n && DrawsOk(draw, n)
      modifies this, grid
      ensures Valid()
      ensures |predatorList| == count && t >= t0
      ensures preyList == old(preyList) && preyAt == old(preyAt)
      ensures forall id :: id in predatorList ==>
        && wolves[id] == Wolf(wolves[id].pos, rules.initialEnergy, false, 0)
        && At(wolves[id].pos) == PredatorCell(id)
      ensures forall id :: id in preyList ==> At(preyAt[id]) == PreyCell(id) || At(preyAt[id]).PredatorCell?
    {
      t := t0;
      ghost var used: set<Pos> := {};
      CellsCard(n);
      for i := 0 to count
        invariant Valid()
        invariant |predatorList| == i && t >= t0
        invariant preyList == old(preyList) && preyAt == old(preyAt)
        invariant forall id :: id in predatorList ==>
          && wolves[id] == Wolf(wolves[id].pos, rules.initialEnergy, false, 0)
          && At(wolves[id].pos) == PredatorCell(id)
        invariant forall id :: id in preyList ==> At(preyAt[id]) == PreyCell(id) || At(preyAt[id]).PredatorCell?
        invariant used <= Cells(n) && |used| == i
        invariant forall p :: InGrid(p, n) ==> (At(p).PredatorCell? <==> p in used)
      {
        t, used := PlaceNextPredator(draw, t, used);
      }
    }

    /** One iteration of the predator placement loop: draw until a cell
        without a predator comes up, then add a predator there with the
        initial energy. `used` is the set of predator cells. */
    method PlaceNextPredator(draw: nat -> Pos, t0: nat, ghost used: set<Pos>) returns (t: nat, ghost used': set<Pos>)
      requires Valid() && DrawsOk(draw, n)
      requires used <= Cells(n) && |used| < n * n
      requires forall p :: InGrid(p, n) ==> (At(p).PredatorCell? <==> p in used)
      requires forall id :: id in predatorList ==>
        && wolves[id] == Wolf(wolves[id].pos, rules.initialEnergy, false, 0)
        && At(wolves[id].pos) == PredatorCell(id)
      requires forall id :: id in preyList ==> At(preyAt[id]) == PreyCell(id) || At(preyAt[id]).PredatorCell?
      modifies this, grid
      ensures Valid() && t > t0
      ensures |predatorList| == old(|predatorList|) + 1
      ensures preyList == old(preyList) && preyAt == old(preyAt)
      ensures used' <= Cells(n) && |used'| == |used| + 1
      ensures forall p :: InGrid(p, n) ==> (At(p).PredatorCell? <==> p in used')
      ensures forall id :: id in predatorList ==>
        && wolves[id] == Wolf(wolves[id].pos, rules.initialEnergy, false, 0)
        && At(wolves[id].pos) == PredatorCell(id)
      ensures forall id :: id in preyList ==> At(preyAt[id]) == PreyCell(id) || At(preyAt[id]).PredatorCell?
    {
      var pos;
      pos, t := DrawCell(draw, t0, false, used);
      AddPredator(Wolf(pos, rules.initialEnergy, false, 0));
      used' := used + {pos};
      forall id | id in preyList
        ensures At(preyAt[id]) == PreyCell(id) || At(preyAt[id]).PredatorCell?
      {
        if preyAt[id] != pos {
          assert old(At(preyAt[id])) == At(preyAt[id]);
        }
      }
      forall p | InGrid(p, n) ensures At(p).PredatorCell? <==> p in used' {
        if p != pos {
          assert old(At(p)) == At(p);
        }
      }
    }
  }

  /** A sequence has at most as many distinct elements as entries. */
  lemma {:induction false} SetOfSeqCard<T>(s: seq<T>)
    ensures |set k | 0 <= k < |s| :: s[k]| <= |s|
  {
    if |s| > 0 {
      var front := s[..|s| - 1];
      SetOfSeqCard(front);
      assert (set k | 0 <= k < |s| :: s[k]) == (set k | 0 <= k < |front| :: front[k]) + {s[|s| - 1]};
    }
  }

  /** `energy // 2` for the positive energy of a breeding predator: at
      least 1, and the two halves lose at most one unit. */
  function Half(e: int): (h: int)
    requires e > 1
    ensures h >= 1 && 2 * h <= e && e - 2 * h <= 1
  {
    e / 2
  }

  /** A shuffle loses no entry: every neighbour is somewhere in the shuffled list. */
  lemma ShuffledCovers(nbs: seq<Pos>, order: seq<nat>)
    requires |nbs| == 8 && IsShuffle(order)
    ensures forall p :: p in nbs ==> p in Shuffled(nbs, order)
  {
    forall p | p in nbs ensures p in Shuffled(nbs, order) {
      var d :| 0 <= d < 8 && nbs[d] == p;
      assert d in order;
      var j :| 0 <= j < |order| && order[j] == d;
      assert Shuffled(nbs, order)[j] == p;
    }
  }
}
