// The CUDA kernel of gpu_phase_diagram.py (`run_simulation_kernel`), one
// thread's trial: cell codes and energies in two n x n arrays, placement on
// empty cells, and steps that copy the grids, move prey, move predators
// and then write back while removing starved predators. Energies are
// unbounded integers here; the source stores them as int8.
module Gpu {
  import opened Torus
  import opened Outcomes
  import opened Sweep

  const EmptyCode := 0
  const PreyCode := 1
  const PredatorCode := 2

  /** The kernel's GRID_SIZE; its `grid_size` argument is never read. */
  const GridSize := 20
  const MaxSteps := 1000
  const NumSimulations := 5
  const ThreadsPerBlock := 64

  /** The positions of all cells of `g` holding `v`. */
  ghost function Where(g: array2<int>, v: int): set<Pos>
    reads g
  {
    set y: int, x: int | 0 <= y < g.Length0 && 0 <= x < g.Length1 && g[y, x] == v :: Pos(x, y)
  }

  ghost predicate Square(g: array2<int>, n: nat) {
    g.Length0 == n && g.Length1 == n
  }

  /** Every cell holds one of the three codes. */
  ghost predicate Coded(g: array2<int>)
    reads g
  {
    forall y, x :: 0 <= y < g.Length0 && 0 <= x < g.Length1 ==> g[y, x] in {EmptyCode, PreyCode, PredatorCode}
  }

  /** Only predator cells carry energy. */
  ghost predicate EnergyClean(g: array2<int>, e: array2<int>)
    reads g, e
    requires e.Length0 == g.Length0 && e.Length1 == g.Length1
  {
    forall y, x :: 0 <= y < g.Length0 && 0 <= x < g.Length1 && g[y, x] != PredatorCode ==> e[y, x] == 0
  }

  /** No predator cell has run out of energy. */
  ghost predicate NoStarved(g: array2<int>, e: array2<int>)
    reads g, e
    requires e.Length0 == g.Length0 && e.Length1 == g.Length1
  {
    forall y, x :: 0 <= y < g.Length0 && 0 <= x < g.Length1 && g[y, x] == PredatorCode ==> e[y, x] > 0
  }

  /** `g[y][x] = v`: the cell leaves the set of its old code and joins the
      set of its new one. */
  method WriteCell(g: array2<int>, y: nat, x: nat, v: int)
    requires y < g.Length0 && x < g.Length1
    modifies g
    ensures g[y, x] == v
    ensures forall y', x' :: 0 <= y' < g.Length0 && 0 <= x' < g.Length1 && (y' != y || x' != x) ==> g[y', x'] == old(g[y', x'])
    ensures forall c :: Where(g, c) == old(Where(g, c)) - {Pos(x, y)} + (if c == v then {Pos(x, y)} else {})
  {
    g[y, x] := v;
  }

  /** A cell write with its effect on the number of cells of each code. */
  method SetCell(g: array2<int>, y: nat, x: nat, v: int)
    requires y < g.Length0 && x < g.Length1
    modifies g
    ensures g[y, x] == v
    ensures forall y', x' :: 0 <= y' < g.Length0 && 0 <= x' < g.Length1 && (y' != y || x' != x) ==> g[y', x'] == old(g[y', x'])
    ensures forall c :: Where(g, c) == old(Where(g, c)) - {Pos(x, y)} + (if c == v then {Pos(x, y)} else {})
    ensures forall c :: |Where(g, c)| == |old(Where(g, c))| + (if c == v then 1 else 0) - (if c == old(g[y, x]) then 1 else 0)
  {
    WriteCell(g, y, x, v);
    forall c ensures |Where(g, c)| == |old(Where(g, c))| + (if c == v then 1 else 0) - (if c == old(g[y, x]) then 1 else 0) {
      var before, after := old(Where(g, c)), Where(g, c);
      assert Pos(x, y) in before <==> c == old(g[y, x]);
      ReplaceCard(before, after, Pos(x, y), c == v);
    }
  }

  /** Cardinality of a set after one element is taken out and possibly put back. */
  lemma ReplaceCard(before: set<Pos>, after: set<Pos>, p: Pos, joins: bool)
    requires after == before - {p} + (if joins then {p} else {})
    ensures |after| == |before| + (if joins then 1 else 0) - (if p in before then 1 else 0)
  {
    if p in before {
      assert |before - {p}| == |before| - 1;
    }
  }

  /** All cells hold `v`: then the cells with code `v` are the whole board. */
  lemma WhereAll(g: array2<int>, v: int, n: nat)
    requires Square(g, n)
    requires forall y, x :: 0 <= y < n && 0 <= x < n ==> g[y, x] == v
    ensures Where(g, v) == Cells(n) && |Where(g, v)| == n * n
    ensures forall c :: c != v ==> Where(g, c) == {}
  {
    CellsCard(n);
    forall p | p in Cells(n) ensures p in Where(g, v) {
      assert g[p.y, p.x] == v;
    }
  }

  /** The initialisation loops: every cell EMPTY with energy 0. */
  method ClearGrids(grid: array2<int>, energy: array2<int>, n: nat)
    requires Square(grid, n) && Square(energy, n) && grid != energy
    modifies grid, energy
    ensures forall y, x :: 0 <= y < n && 0 <= x < n ==> grid[y, x] == EmptyCode && energy[y, x] == 0
  {
    for y := 0 to n
      invariant forall y', x' :: 0 <= y' < y && 0 <= x' < n ==> grid[y', x'] == EmptyCode && energy[y', x'] == 0
    {
      for x := 0 to n
        invariant forall y', x' :: 0 <= y' < y && 0 <= x' < n ==> grid[y', x'] == EmptyCode && energy[y', x'] == 0
        invariant forall x' :: 0 <= x' < x ==> grid[y, x'] == EmptyCode && energy[y, x'] == 0
      {
        grid[y, x] := EmptyCode;
        energy[y, x] := 0;
      }
    }
  }

  /** The `while True` loop of the placement: `(random_raw() % GRID_SIZE,
      random_raw() % GRID_SIZE)` pairs from index `t0` on until one falls on
      an EMPTY cell; `t` is the index after the accepted pair. */
  method DrawEmpty(grid: array2<int>, n: nat, draw: nat -> Pos, t0: nat) returns (pos: Pos, t: nat)
    requires Square(grid, n) && DrawsOk(draw, n) && Where(grid, EmptyCode) != {}
    ensures InGrid(pos, n) && grid[pos.y, pos.x] == EmptyCode
    ensures t > t0 && pos == draw(t - 1)
    ensures forall k :: t0 <= k < t - 1 ==> grid[draw(k).y, draw(k).x] != EmptyCode
  {
    ghost var free :| free in Where(grid, EmptyCode);
    assert InGrid(free, n) && Recurs(draw, free, t0);
    ghost var due :| due >= t0 && draw(due) == free;
    t := t0;
    pos := draw(t);
    while grid[pos.y, pos.x] != EmptyCode
      invariant t0 <= t <= due && pos == draw(t)
      invariant forall k :: t0 <= k < t ==> grid[draw(k).y, draw(k).x] != EmptyCode
      decreases due - t
    {
      t := t + 1;
      pos := draw(t);
    }
    t := t + 1;
  }

  /** `for _ in range(count)`: put `count` agents of kind `code` on EMPTY
      cells drawn from `draw`; a predator's cell gets energy 5. */
  method PlaceAgents(grid: array2<int>, energy: array2<int>, n: nat, code: int, count: nat, draw: nat -> Pos, t0: nat)
    returns (t: nat)
    requires Square(grid, n) && Square(energy, n) && grid != energy && DrawsOk(draw, n)
    requires code in {PreyCode, PredatorCode} && count <= |Where(grid, EmptyCode)|
    modifies grid, energy
    ensures |Where(grid, code)| == |old(Where(grid, code))| + count
    ensures |Where(grid, EmptyCode)| == |old(Where(grid, EmptyCode))| - count
    ensures forall c :: c != code && c != EmptyCode ==> Where(grid, c) == old(Where(grid, c))
    ensures forall y, x :: 0 <= y < n && 0 <= x < n ==>
      grid[y, x] == old(grid[y, x]) || (old(grid[y, x]) == EmptyCode && grid[y, x] == code)
    ensures forall y, x :: 0 <= y < n && 0 <= x < n ==>
      energy[y, x] == if code == PredatorCode && grid[y, x] != old(grid[y, x]) then 5 else old(energy[y, x])
    ensures t >= t0
  {
    t := t0;
    for i := 0 to count
      invariant |Where(grid, code)| == |old(Where(grid, code))| + i
      invariant |Where(grid, EmptyCode)| == |old(Where(grid, EmptyCode))| - i
      invariant forall c :: c != code && c != EmptyCode ==> Where(grid, c) == old(Where(grid, c))
      invariant forall y, x :: 0 <= y < n && 0 <= x < n ==>
        grid[y, x] == old(grid[y, x]) || (old(grid[y, x]) == EmptyCode && grid[y, x] == code)
      invariant forall y, x :: 0 <= y < n && 0 <= x < n ==>
        energy[y, x] == if code == PredatorCode && grid[y, x] != old(grid[y, x]) then 5 else old(energy[y, x])
      invariant t >= t0
    {
      var pos;
      pos, t := PlaceOne(grid, n, code, draw, t);
      if code == PredatorCode {
        energy[pos.y, pos.x] := 5;
      }
    }
  }

  /** One iteration of the placement loop, on the cell codes: the drawn
      EMPTY cell `pos` gets `code`. */
  method PlaceOne(grid: array2<int>, n: nat, code: int, draw: nat -> Pos, t0: nat)
    returns (pos: Pos, t: nat)
    requires Square(grid, n) && DrawsOk(draw, n)
    requires code in {PreyCode, PredatorCode} && Where(grid, EmptyCode) != {}
    modifies grid
    ensures InGrid(pos, n) && old(grid[pos.y, pos.x]) == EmptyCode && grid[pos.y, pos.x] == code
    ensures forall y, x :: 0 <= y < n && 0 <= x < n && Pos(x, y) != pos ==> grid[y, x] == old(grid[y, x])
    ensures |Where(grid, code)| == |old(Where(grid, code))| + 1
    ensures |Where(grid, EmptyCode)| == |old(Where(grid, EmptyCode))| - 1
    ensures forall c :: c != code && c != EmptyCode ==> Where(grid, c) == old(Where(grid, c))
    ensures t > t0
  {
    pos, t := DrawEmpty(grid, n, draw, t0);
    SetCell(grid, pos.y, pos.x, code);
    forall c | c != code && c != EmptyCode ensures Where(grid, c) == old(Where(grid, c)) {
      assert pos !in old(Where(grid, c));
    }
  }

  /** Cells with code `c` agree between two grids that agree on which cells hold `c`. */
  lemma WhereSame(a: array2<int>, b: array2<int>, c: int)
    requires a.Length0 == b.Length0 && a.Length1 == b.Length1
    requires forall y, x :: 0 <= y < a.Length0 && 0 <= x < a.Length1 ==> (a[y, x] == c <==> b[y, x] == c)
    ensures Where(a, c) == Where(b, c)
  {
    forall p | p in Where(a, c) ensures p in Where(b, c) {
      assert a[p.y, p.x] == c;
    }
    forall p | p in Where(b, c) ensures p in Where(a, c) {
      assert b[p.y, p.x] == c;
    }
  }

  /** Fewer cells with code `c` in `a` when each of them also has `c` in `b`. */
  lemma WhereFewer(a: array2<int>, b: array2<int>, c: int)
    requires a.Length0 == b.Length0 && a.Length1 == b.Length1
    requires forall y, x :: 0 <= y < a.Length0 && 0 <= x < a.Length1 && a[y, x] == c ==> b[y, x] == c
    ensures Where(a, c) <= Where(b, c) && |Where(a, c)| <= |Where(b, c)|
  {
    forall p | p in Where(a, c) ensures p in Where(b, c) {
      assert a[p.y, p.x] == c;
    }
    assert |Where(b, c)| == |Where(a, c)| + |Where(b, c) - Where(a, c)|;
  }

  /** The copy loop at the start of a step: `new_grid` and
      `new_energy_grid` become cell-by-cell copies. */
  method CopyGrids(grid: array2<int>, energy: array2<int>, newGrid: array2<int>, newEnergy: array2<int>, n: nat)
    requires Square(grid, n) && Square(energy, n) && Square(newGrid, n) && Square(newEnergy, n)
    requires newGrid != newEnergy && newGrid != grid && newGrid != energy && newEnergy != grid && newEnergy != energy
    modifies newGrid, newEnergy
    ensures forall y, x :: 0 <= y < n && 0 <= x < n ==> newGrid[y, x] == grid[y, x] && newEnergy[y, x] == energy[y, x]
  {
    for y := 0 to n
      invariant forall y', x' :: 0 <= y' < y && 0 <= x' < n ==> newGrid[y', x'] == grid[y', x'] && newEnergy[y', x'] == energy[y', x']
    {
      for x := 0 to n
        invariant forall y', x' :: 0 <= y' < y && 0 <= x' < n ==> newGrid[y', x'] == grid[y', x'] && newEnergy[y', x'] == energy[y', x']
        invariant forall x' :: 0 <= x' < x ==> newGrid[y, x'] == grid[y, x'] && newEnergy[y, x'] == energy[y, x']
      {
        newGrid[y, x] := grid[y, x];
        newEnergy[y, x] := energy[y, x];
      }
    }
  }

  /** One prey of the old grid at (y, x), still PREY in `new_grid`, tries
      the cell (nx, ny): it moves there only when that cell is EMPTY in
      `new_grid`, leaving its own cell EMPTY. */
  method MovePreyAt(newGrid: array2<int>, n: nat, y: nat, x: nat, nx: nat, ny: nat) returns (moved: bool)
    requires Square(newGrid, n) && y < n && x < n && ny < n && nx < n
    requires newGrid[y, x] == PreyCode
    modifies newGrid
    ensures moved <==> old(newGrid[ny, nx]) == EmptyCode
    ensures moved ==> newGrid[ny, nx] == PreyCode && newGrid[y, x] == EmptyCode
    ensures forall y', x' :: 0 <= y' < n && 0 <= x' < n && (!moved || ((y' != y || x' != x) && (y' != ny || x' != nx))) ==>
      newGrid[y', x'] == old(newGrid[y', x'])
    ensures |Where(newGrid, PreyCode)| == |old(Where(newGrid, PreyCode))|
  {
    moved := newGrid[ny, nx] == EmptyCode;
    if moved {
      SetCell(newGrid, ny, nx, PreyCode);
      SetCell(newGrid, y, x, EmptyCode);
    }
  }

  /** `int(rng.uniform(-1, 2))` for dx and dy: the offsets drawn for the
      agent at (y, x) in step `s`, each in {-1, 0, 1}. */
  ghost predicate DirsOk(dir: (nat, nat, nat) -> (int, int)) {
    forall s, y, x :: -1 <= dir(s, y, x).0 <= 1 && -1 <= dir(s, y, x).1 <= 1
  }

  /** Cell (y', x') is not yet visited by the row-major scan that is at (y, x). */
  predicate Pending(y': int, x': int, y: int, x: int) {
    y' > y || (y' == y && x' >= x)
  }

  /** The prey loop of a step: each PREY cell of the old grid, in row-major
      order, tries the wrapped cell at its drawn offset and moves there when
      it is EMPTY in `new_grid`. The number of prey is unchanged and only
      EMPTY and PREY cells change. */
  method PreyPhase(grid: array2<int>, newGrid: array2<int>, n: nat, s: nat, dir: (nat, nat, nat) -> (int, int))
    requires Square(grid, n) && Square(newGrid, n) && grid != newGrid && n > 0 && DirsOk(dir)
    requires forall y, x :: 0 <= y < n && 0 <= x < n ==> newGrid[y, x] == grid[y, x]
    modifies newGrid
    ensures |Where(newGrid, PreyCode)| == |Where(grid, PreyCode)|
    ensures forall c :: c != PreyCode && c != EmptyCode ==> Where(newGrid, c) == Where(grid, c)
    ensures forall y, x :: 0 <= y < n && 0 <= x < n ==>
      newGrid[y, x] == grid[y, x] || (newGrid[y, x] in {EmptyCode, PreyCode} && grid[y, x] in {EmptyCode, PreyCode})
  {
    WhereSame(newGrid, grid, PreyCode);
    for y := 0 to n
      invariant forall y', x' :: 0 <= y' < n && 0 <= x' < n && Pending(y', x', y, 0) && grid[y', x'] == PreyCode ==>
        newGrid[y', x'] == PreyCode
      invariant |Where(newGrid, PreyCode)| == |Where(grid, PreyCode)|
      invariant forall y', x' :: 0 <= y' < n && 0 <= x' < n ==>
        newGrid[y', x'] == grid[y', x'] || (newGrid[y', x'] in {EmptyCode, PreyCode} && grid[y', x'] in {EmptyCode, PreyCode})
    {
      for x := 0 to n
        invariant forall y', x' :: 0 <= y' < n && 0 <= x' < n && Pending(y', x', y, x) && grid[y', x'] == PreyCode ==>
          newGrid[y', x'] == PreyCode
        invariant |Where(newGrid, PreyCode)| == |Where(grid, PreyCode)|
          invariant forall y', x' :: 0 <= y' < n && 0 <= x' < n ==>
          newGrid[y', x'] == grid[y', x'] || (newGrid[y', x'] in {EmptyCode, PreyCode} && grid[y', x'] in {EmptyCode, PreyCode})
      {
        if grid[y, x] == PreyCode {
          var (dx, dy) := dir(s, y, x);
          var moved := MovePreyAt(newGrid, n, y, x, Wrap(x + dx, n), Wrap(y + dy, n));
        }
      }
    }
    forall c | c != PreyCode && c != EmptyCode ensures Where(newGrid, c) == Where(grid, c) {
      WhereSame(newGrid, grid, c);
    }
  }

  /** The code half of a predator move from (y, x) to the distinct cell
      (ny, nx): PREDATOR at the target, EMPTY at the source. */
  method MoveCode(newGrid: array2<int>, n: nat, y: nat, x: nat, nx: nat, ny: nat)
    requires Square(newGrid, n) && y < n && x < n && ny < n && nx < n && (ny, nx) != (y, x)
    requires newGrid[y, x] == PredatorCode && newGrid[ny, nx] != PredatorCode
    modifies newGrid
    ensures newGrid[ny, nx] == PredatorCode && newGrid[y, x] == EmptyCode
    ensures forall y', x' :: 0 <= y' < n && 0 <= x' < n && (y' != y || x' != x) && (y' != ny || x' != nx) ==>
      newGrid[y', x'] == old(newGrid[y', x'])
    ensures |Where(newGrid, PredatorCode)| == |old(Where(newGrid, PredatorCode))|
    ensures |Where(newGrid, PreyCode)| == |old(Where(newGrid, PreyCode))| - (if old(newGrid[ny, nx]) == PreyCode then 1 else 0)
  {
    SetCell(newGrid, ny, nx, PredatorCode);
    SetCell(newGrid, y, x, EmptyCode);
  }

  /** A predator leaves (y, x) for the distinct cell (ny, nx), carrying
      energy `v`; the source becomes EMPTY with energy 0. */
  method Relocate(newGrid: array2<int>, newEnergy: array2<int>, n: nat, y: nat, x: nat, nx: nat, ny: nat, v: int)
    requires Square(newGrid, n) && Square(newEnergy, n) && newGrid != newEnergy
    requires y < n && x < n && ny < n && nx < n
    requires newGrid[y, x] == PredatorCode && newGrid[ny, nx] != PredatorCode
    modifies newGrid, newEnergy
    ensures newGrid[ny, nx] == PredatorCode && newGrid[y, x] == EmptyCode
    ensures newEnergy[ny, nx] == v && newEnergy[y, x] == 0
    ensures forall y', x' :: 0 <= y' < n && 0 <= x' < n && (y' != y || x' != x) && (y' != ny || x' != nx) ==>
      newGrid[y', x'] == old(newGrid[y', x'])
    ensures forall y', x' :: 0 <= y' < n && 0 <= x' < n && (y' != y || x' != x) && (y' != ny || x' != nx) ==>
      newEnergy[y', x'] == old(newEnergy[y', x'])
    ensures |Where(newGrid, PredatorCode)| == |old(Where(newGrid, PredatorCode))|
    ensures |Where(newGrid, PreyCode)| == |old(Where(newGrid, PreyCode))| - (if old(newGrid[ny, nx]) == PreyCode then 1 else 0)
  {
    MoveCode(newGrid, n, y, x, nx, ny);
    newEnergy[ny, nx] := v;
    newEnergy[y, x] := 0;
  }

  /** One predator of the predator loop, at (y, x) with energy `e` read from
      the old energy grid: onto PREY it eats (energy + 5), onto EMPTY it
      moves (energy - 1), and otherwise it stays and pays 1. A move leaves
      the source EMPTY with energy 0. */
  method MovePredatorAt(newGrid: array2<int>, newEnergy: array2<int>, n: nat, y: nat, x: nat, nx: nat, ny: nat, e: int)
    returns (ate: bool)
    requires Square(newGrid, n) && Square(newEnergy, n) && newGrid != newEnergy
    requires y < n && x < n && ny < n && nx < n
    requires newGrid[y, x] == PredatorCode
    modifies newGrid, newEnergy
    ensures ate <==> old(newGrid[ny, nx]) == PreyCode
    ensures old(newGrid[ny, nx]) in {PreyCode, EmptyCode} ==>
      && newGrid[ny, nx] == PredatorCode && newGrid[y, x] == EmptyCode && newEnergy[y, x] == 0
      && newEnergy[ny, nx] == (if ate then e + 5 else e - 1)
    ensures old(newGrid[ny, nx]) !in {PreyCode, EmptyCode} ==>
      newGrid[y, x] == PredatorCode && newEnergy[y, x] == e - 1
    ensures forall y', x' :: 0 <= y' < n && 0 <= x' < n && (y' != y || x' != x) && (y' != ny || x' != nx) ==>
      newGrid[y', x'] == old(newGrid[y', x'])
    ensures forall y', x' :: 0 <= y' < n && 0 <= x' < n && (y' != y || x' != x) && (y' != ny || x' != nx) ==>
      newEnergy[y', x'] == old(newEnergy[y', x'])
    ensures old(newGrid[ny, nx]) !in {PreyCode, EmptyCode} ==>
      newGrid[ny, nx] == old(newGrid[ny, nx]) && ((ny, nx) != (y, x) ==> newEnergy[ny, nx] == old(newEnergy[ny, nx]))
    ensures |Where(newGrid, PredatorCode)| == |old(Where(newGrid, PredatorCode))|
    ensures |Where(newGrid, PreyCode)| == |old(Where(newGrid, PreyCode))| - (if ate then 1 else 0)
  {
    var target := newGrid[ny, nx];
    ate := target == PreyCode;
    if target == PreyCode || target == EmptyCode {
      Relocate(newGrid, newEnergy, n, y, x, nx, ny, if ate then e + 5 else e - 1);
    } else {
      newEnergy[y, x] := e - 1;
    }
  }

  /** Row `y` of the predator loop: each PREDATOR cell of the old grid in
      that row moves or stays by `MovePredatorAt` with the energy of the old
      energy grid. The row's eaten prey are at most its predator cells,
      which join `visited`. */
  method PredatorRow(grid: array2<int>, energy: array2<int>, newGrid: array2<int>, newEnergy: array2<int>,
                     n: nat, s: nat, dir: (nat, nat, nat) -> (int, int), y: nat,
                     ghost predators: set<Pos>, ghost visited0: set<Pos>)
    returns (eaten: nat, ghost visited: set<Pos>)
    requires Square(grid, n) && Square(energy, n) && Square(newGrid, n) && Square(newEnergy, n)
    requires y < n && DirsOk(dir)
    requires newGrid != newEnergy && newGrid != grid && newGrid != energy && newEnergy != grid && newEnergy != energy
    requires forall y', x' :: 0 <= y' < n && 0 <= x' < n && Pending(y', x', y, 0) && grid[y', x'] == PredatorCode ==>
      newGrid[y', x'] == PredatorCode && newEnergy[y', x'] == energy[y', x']
    requires predators == Where(grid, PredatorCode)
    requires visited0 <= predators && forall p :: p in visited0 ==> p.y < y
    requires Coded(newGrid) && EnergyClean(newGrid, newEnergy)
    modifies newGrid, newEnergy
    ensures forall y', x' :: 0 <= y' < n && 0 <= x' < n && Pending(y', x', y + 1, 0) && grid[y', x'] == PredatorCode ==>
      newGrid[y', x'] == PredatorCode && newEnergy[y', x'] == energy[y', x']
    ensures |Where(newGrid, PredatorCode)| == |old(Where(newGrid, PredatorCode))|
    ensures |Where(newGrid, PreyCode)| == |old(Where(newGrid, PreyCode))| - eaten
    ensures forall y', x' :: 0 <= y' < n && 0 <= x' < n && newGrid[y', x'] == PreyCode ==> old(newGrid[y', x']) == PreyCode
    ensures Coded(newGrid) && EnergyClean(newGrid, newEnergy)
    ensures visited <= predators && |visited0| + eaten <= |visited| && forall p :: p in visited ==> p.y < y + 1
  {
    eaten, visited := 0, visited0;
    for x := 0 to n
      invariant forall y', x' :: 0 <= y' < n && 0 <= x' < n && Pending(y', x', y, x) && grid[y', x'] == PredatorCode ==>
        newGrid[y', x'] == PredatorCode && newEnergy[y', x'] == energy[y', x']
      invariant |Where(newGrid, PredatorCode)| == |old(Where(newGrid, PredatorCode))|
      invariant |Where(newGrid, PreyCode)| == |old(Where(newGrid, PreyCode))| - eaten
      invariant forall y', x' :: 0 <= y' < n && 0 <= x' < n && newGrid[y', x'] == PreyCode ==> old(newGrid[y', x']) == PreyCode
      invariant Coded(newGrid) && EnergyClean(newGrid, newEnergy)
      invariant visited <= predators && |visited0| + eaten <= |visited|
      invariant forall p :: p in visited ==> !Pending(p.y, p.x, y, x)
    {
      if grid[y, x] == PredatorCode {
        var e := energy[y, x];
        var (dx, dy) := dir(s, y, x);
        var ate := MovePredatorAt(newGrid, newEnergy, n, y, x, Wrap(x + dx, n), Wrap(y + dy, n), e);
        if ate {
          eaten := eaten + 1;
        }
        assert Pos(x, y) in predators;
        visited := visited + {Pos(x, y)};
      }
    }
  }

  /** The predator loop of a step: each PREDATOR cell of the old grid, in
      row-major order, moves or stays by `MovePredatorAt` with the energy
      of the old energy grid. Predators are neither created nor lost here,
      the prey count falls by the number eaten, which is at most the number
      of predators, no cell becomes PREY, and only predator cells carry
      energy. */
  method PredatorPhase(grid: array2<int>, energy: array2<int>, newGrid: array2<int>, newEnergy: array2<int>,
                       n: nat, s: nat, dir: (nat, nat, nat) -> (int, int))
    returns (eaten: nat)
    requires Square(grid, n) && Square(energy, n) && Square(newGrid, n) && Square(newEnergy, n)
    requires n > 0 && DirsOk(dir)
    requires newGrid != newEnergy && newGrid != grid && newGrid != energy && newEnergy != grid && newEnergy != energy
    requires forall y, x :: 0 <= y < n && 0 <= x < n ==>
      (grid[y, x] == PredatorCode <==> newGrid[y, x] == PredatorCode)
    requires forall y, x :: 0 <= y < n && 0 <= x < n && grid[y, x] == PredatorCode ==> newEnergy[y, x] == energy[y, x]
    requires Coded(newGrid) && EnergyClean(newGrid, newEnergy)
    modifies newGrid, newEnergy
    ensures |Where(newGrid, PredatorCode)| == |old(Where(newGrid, PredatorCode))|
    ensures |Where(newGrid, PreyCode)| == |old(Where(newGrid, PreyCode))| - eaten
    ensures forall y, x :: 0 <= y < n && 0 <= x < n && newGrid[y, x] == PreyCode ==> old(newGrid[y, x]) == PreyCode
    ensures Coded(newGrid) && EnergyClean(newGrid, newEnergy)
    ensures eaten <= |Where(grid, PredatorCode)|
  {
    eaten := 0;
    ghost var predators := Where(grid, PredatorCode);
    ghost var visited: set<Pos> := {};
    for y := 0 to n
      invariant forall y', x' :: 0 <= y' < n && 0 <= x' < n && Pending(y', x', y, 0) && grid[y', x'] == PredatorCode ==>
        newGrid[y', x'] == PredatorCode && newEnergy[y', x'] == energy[y', x']
      invariant |Where(newGrid, PredatorCode)| == |old(Where(newGrid, PredatorCode))|
      invariant |Where(newGrid, PreyCode)| == |old(Where(newGrid, PreyCode))| - eaten
      invariant forall y', x' :: 0 <= y' < n && 0 <= x' < n && newGrid[y', x'] == PreyCode ==> old(newGrid[y', x']) == PreyCode
      invariant Coded(newGrid) && EnergyClean(newGrid, newEnergy)
      invariant predators == Where(grid, PredatorCode)
      invariant visited <= predators && eaten <= |visited| && forall p :: p in visited ==> p.y < y
    {
      var eatenRow;
      eatenRow, visited := PredatorRow(grid, energy, newGrid, newEnergy, n, s, dir, y, predators, visited);
      eaten := eaten + eatenRow;
    }
    assert predators == visited + (predators - visited);
  }

  /** The write-back loop of a step: every cell of `new_grid` and
      `new_energy_grid` is copied back, except that a PREDATOR with energy
      at most 0 is removed (EMPTY, energy 0). Afterwards no predator is
      starved, the prey cells are exactly those of `new_grid`, and the
      predators are a subset of those of `new_grid`. */
  method Update(grid: array2<int>, energy: array2<int>, newGrid: array2<int>, newEnergy: array2<int>, n: nat)
    requires Square(grid, n) && Square(energy, n) && Square(newGrid, n) && Square(newEnergy, n)
    requires newGrid != newEnergy && newGrid != grid && newGrid != energy && newEnergy != grid && newEnergy != energy
    requires grid != energy
    modifies grid, energy
    ensures forall y, x :: 0 <= y < n && 0 <= x < n ==>
      if newGrid[y, x] == PredatorCode && newEnergy[y, x] <= 0 then grid[y, x] == EmptyCode && energy[y, x] == 0
      else grid[y, x] == newGrid[y, x] && energy[y, x] == newEnergy[y, x]
    ensures NoStarved(grid, energy)
    ensures EnergyClean(newGrid, newEnergy) ==> EnergyClean(grid, energy)
    ensures Coded(newGrid) ==> Coded(grid)
    ensures Where(grid, PreyCode) == Where(newGrid, PreyCode)
    ensures Where(grid, PredatorCode) <= Where(newGrid, PredatorCode)
    ensures |Where(grid, PredatorCode)| <= |Where(newGrid, PredatorCode)|
  {
    for y := 0 to n
      invariant forall y', x' :: 0 <= y' < y && 0 <= x' < n ==>
        if newGrid[y', x'] == PredatorCode && newEnergy[y', x'] <= 0 then grid[y', x'] == EmptyCode && energy[y', x'] == 0
        else grid[y', x'] == newGrid[y', x'] && energy[y', x'] == newEnergy[y', x']
    {
      for x := 0 to n
        invariant forall y', x' :: 0 <= y' < y && 0 <= x' < n ==>
          if newGrid[y', x'] == PredatorCode && newEnergy[y', x'] <= 0 then grid[y', x'] == EmptyCode && energy[y', x'] == 0
          else grid[y', x'] == newGrid[y', x'] && energy[y', x'] == newEnergy[y', x']
        invariant forall x' :: 0 <= x' < x ==>
          if newGrid[y, x'] == PredatorCode && newEnergy[y, x'] <= 0 then grid[y, x'] == EmptyCode && energy[y, x'] == 0
          else grid[y, x'] == newGrid[y, x'] && energy[y, x'] == newEnergy[y, x']
      {
        grid[y, x] := newGrid[y, x];
        energy[y, x] := newEnergy[y, x];
        if grid[y, x] == PredatorCode && energy[y, x] <= 0 {
          grid[y, x] := EmptyCode;
          energy[y, x] := 0;
        }
      }
    }
    WhereSame(grid, newGrid, PreyCode);
    WhereFewer(grid, newGrid, PredatorCode);
  }

  /** The extinction check: scan all cells for a PREY and a PREDATOR. Each
      flag is set exactly when some cell holds that code. */
  method Census(grid: array2<int>, n: nat) returns (preyRemaining: bool, predatorsRemaining: bool)
    requires Square(grid, n)
    ensures preyRemaining <==> Where(grid, PreyCode) != {}
    ensures predatorsRemaining <==> Where(grid, PredatorCode) != {}
  {
    preyRemaining, predatorsRemaining := false, false;
    for y := 0 to n
      invariant preyRemaining <==> exists y', x' :: 0 <= y' < y && 0 <= x' < n && grid[y', x'] == PreyCode
      invariant predatorsRemaining <==> exists y', x' :: 0 <= y' < y && 0 <= x' < n && grid[y', x'] == PredatorCode
    {
      for x := 0 to n
        invariant preyRemaining <==>
          (exists y', x' :: 0 <= y' < y && 0 <= x' < n && grid[y', x'] == PreyCode) ||
          (exists x' :: 0 <= x' < x && grid[y, x'] == PreyCode)
        invariant predatorsRemaining <==>
          (exists y', x' :: 0 <= y' < y && 0 <= x' < n && grid[y', x'] == PredatorCode) ||
          (exists x' :: 0 <= x' < x && grid[y, x'] == PredatorCode)
      {
        if grid[y, x] == PreyCode {
          preyRemaining := true;
        } else if grid[y, x] == PredatorCode {
          predatorsRemaining := true;
        }
      }
    }
    if preyRemaining {
      ghost var y', x' :| 0 <= y' < n && 0 <= x' < n && grid[y', x'] == PreyCode;
      assert Pos(x', y') in Where(grid, PreyCode);
    }
    if predatorsRemaining {
      ghost var y', x' :| 0 <= y' < n && 0 <= x' < n && grid[y', x'] == PredatorCode;
      assert Pos(x', y') in Where(grid, PredatorCode);
    }
  }

  /** The random draws of one thread: the placement pairs, and the offsets
      of the prey and of the predator at (y, x) in step s. */
  datatype GpuDice = GpuDice(place: nat -> Pos, preyDir: (nat, nat, nat) -> (int, int), predatorDir: (nat, nat, nat) -> (int, int))

  ghost predicate GpuDiceOk(dice: GpuDice, n: nat) {
    DrawsOk(dice.place, n) && DirsOk(dice.preyDir) && DirsOk(dice.predatorDir)
  }

  /** One iteration of the kernel's step loop on fresh `new_grid` and
      `new_energy_grid` arrays: copy, prey moves, predator moves, write-back.
      The prey lost are exactly those eaten, at most one per predator, no
      predator is gained, and afterwards every predator has energy left. */
  method Step(grid: array2<int>, energy: array2<int>, n: nat, s: nat, dice: GpuDice) returns (eaten: nat)
    requires Square(grid, n) && Square(energy, n) && grid != energy && n > 0
    requires DirsOk(dice.preyDir) && DirsOk(dice.predatorDir)
    requires Coded(grid) && EnergyClean(grid, energy)
    modifies grid, energy
    ensures Coded(grid) && EnergyClean(grid, energy) && NoStarved(grid, energy)
    ensures |Where(grid, PreyCode)| == |old(Where(grid, PreyCode))| - eaten
    ensures eaten <= |old(Where(grid, PredatorCode))|
    ensures |Where(grid, PredatorCode)| <= |old(Where(grid, PredatorCode))|
  {
    var newGrid := new int[n, n];
    var newEnergy := new int[n, n];
    CopyGrids(grid, energy, newGrid, newEnergy, n);
    PreyPhase(grid, newGrid, n, s, dice.preyDir);
    assert Coded(newGrid) by {
      forall y, x | 0 <= y < n && 0 <= x < n ensures newGrid[y, x] in {EmptyCode, PreyCode, PredatorCode} {
        assert grid[y, x] in {EmptyCode, PreyCode, PredatorCode};
      }
    }
    eaten := PredatorPhase(grid, energy, newGrid, newEnergy, n, s, dice.predatorDir);
    Update(grid, energy, newGrid, newEnergy, n);
  }

  /** How the cell counts can change in one kernel step: each predator eats
      at most one prey, and nothing is ever added. */
  predicate GpuStepBound(before: (nat, nat), after: (nat, nat)) {
    && before.0 <= after.0 + before.1
    && after.0 <= before.0 && after.1 <= before.1
  }

  /** How one kernel trial can end, as the trace `tr` of prey and predator
      cell counts after placement and after each step: it starts at the
      placed counts, at least one step runs, every step changes the counts
      as `GpuStepBound` allows, every step after the first began with both
      kinds present, at most `maxSteps` steps ran and fewer only when a kind
      died out, and the outcome classifies the last counts. */
  predicate GpuEnd(numPrey: nat, numPredators: nat, maxSteps: nat, outcome: int, tr: seq<(nat, nat)>) {
    && 2 <= |tr| <= maxSteps + 1
    && tr[0] == (numPrey, numPredators)
    && (forall k :: 0 <= k < |tr| - 1 ==> GpuStepBound(tr[k], tr[k + 1]))
    && (forall k :: 1 <= k < |tr| - 1 ==> Alive(tr[k]))
    && (|tr| - 1 < maxSteps ==> !Alive(Last(tr)))
    && outcome == Classify(Last(tr).0 > 0, Last(tr).1 > 0)
  }

  /** `outcome` is a result the kernel body can produce for these counts. */
  ghost predicate GpuRan(numPrey: nat, numPredators: nat, maxSteps: nat, outcome: int) {
    exists tr: seq<(nat, nat)> :: GpuEnd(numPrey, numPredators, maxSteps, outcome, tr)
  }

  /** After `k` kernel steps at least `numPrey - k * numPredators` prey and
      at most the placed counts are left. */
  lemma {:induction false} GpuPreyOutlast(numPrey: nat, numPredators: nat, maxSteps: nat, outcome: int, tr: seq<(nat, nat)>, k: nat)
    requires GpuEnd(numPrey, numPredators, maxSteps, outcome, tr) && k < |tr|
    ensures tr[k].0 <= numPrey && tr[k].1 <= numPredators
    ensures numPrey <= tr[k].0 + k * numPredators
  {
    if k > 0 {
      GpuPreyOutlast(numPrey, numPredators, maxSteps, outcome, tr, k - 1);
      assert GpuStepBound(tr[k - 1], tr[k]);
    }
  }

  /** Hence prey extinction in the kernel takes at least
      `numPrey / numPredators` steps, and any kernel result for counts that
      no `maxSteps` steps can eat through is not prey extinction. */
  lemma GpuPreyExtinctionTakesTime(numPrey: nat, numPredators: nat, maxSteps: nat, outcome: int)
    requires GpuRan(numPrey, numPredators, maxSteps, outcome)
    ensures outcome == PreyExtinct ==> numPrey <= maxSteps * numPredators
  {
    var tr :| GpuEnd(numPrey, numPredators, maxSteps, outcome, tr);
    GpuPreyOutlast(numPrey, numPredators, maxSteps, outcome, tr, |tr| - 1);
    MulMono(|tr| - 1, maxSteps, numPredators);
  }

  /** A kernel point whose trials start without prey shows prey extinction,
      one with prey but no predators shows predator extinction, whatever
      the draws. */
  lemma GpuEmptySidePoint(numPrey: nat, numPredators: nat, maxSteps: nat, outcomes: seq<int>)
    requires |outcomes| > 0
    requires forall k :: 0 <= k < |outcomes| ==> GpuRan(numPrey, numPredators, maxSteps, outcomes[k])
    ensures numPrey == 0 ==> MostCommonOf(outcomes) == PreyExtinct
    ensures numPrey > 0 && numPredators == 0 ==> MostCommonOf(outcomes) == PredatorsExtinct
  {
    MostCommonOfIsMostCommon(outcomes);
    var k :| 0 <= k < |outcomes| && outcomes[k] == MostCommonOf(outcomes);
    var tr :| GpuEnd(numPrey, numPredators, maxSteps, outcomes[k], tr);
    GpuPreyOutlast(numPrey, numPredators, maxSteps, outcomes[k], tr, |tr| - 1);
  }

  /** The numbers of PREY and of PREDATOR cells. */
  ghost function Counts(g: array2<int>): (nat, nat)
    reads g
  {
    (|Where(g, PreyCode)|, |Where(g, PredatorCode)|)
  }

  /** The kernel's set-up: fresh grids, cleared, then the prey and then
      the predators placed on EMPTY cells. */
  method Populate(n: nat, numPrey: nat, numPredators: nat, place: nat -> Pos) returns (grid: array2<int>, energy: array2<int>)
    requires n > 0 && numPrey + numPredators <= n * n && DrawsOk(place, n)
    ensures fresh(grid) && fresh(energy) && Square(grid, n) && Square(energy, n)
    ensures grid != energy && Coded(grid) && EnergyClean(grid, energy)
    ensures Counts(grid) == (numPrey, numPredators)
  {
    grid := new int[n, n];
    energy := new int[n, n];
    ClearGrids(grid, energy, n);
    WhereAll(grid, EmptyCode, n);
    var t := PlaceAgents(grid, energy, n, PreyCode, numPrey, place, 0);
    t := PlaceAgents(grid, energy, n, PredatorCode, numPredators, place, t);
  }

  /** One pass of the kernel's step loop: a `Step`, then the census that
      decides whether to stop. */
  method StepAndCheck(grid: array2<int>, energy: array2<int>, n: nat, s: nat, dice: GpuDice)
    returns (preyRemaining: bool, predatorsRemaining: bool)
    requires Square(grid, n) && Square(energy, n) && grid != energy && n > 0
    requires DirsOk(dice.preyDir) && DirsOk(dice.predatorDir)
    requires Coded(grid) && EnergyClean(grid, energy)
    modifies grid, energy
    ensures Coded(grid) && EnergyClean(grid, energy) && NoStarved(grid, energy)
    ensures GpuStepBound(old(Counts(grid)), Counts(grid))
    ensures preyRemaining <==> Counts(grid).0 > 0
    ensures predatorsRemaining <==> Counts(grid).1 > 0
  {
    var eaten := Step(grid, energy, n, s, dice);
    preyRemaining, predatorsRemaining := Census(grid, n);
  }

  /** The kernel body for one thread with counts `numPrey` and
      `numPredators`: clear the grids, place the prey then the predators on
      EMPTY cells, then step up to `maxSteps` times, stopping after the
      first step that leaves either kind extinct. The outcome is 0, 1 or 2
      as in the CPU files, from the flags of the last check, and it
      classifies the cells of the final `grid`. */
  method Simulate(n: nat, numPrey: nat, numPredators: nat, maxSteps: nat, dice: GpuDice)
    returns (outcome: int, steps: nat, ghost preyCells: nat, ghost predatorCells: nat,
             grid: array2<int>, energy: array2<int>, ghost tr: seq<(nat, nat)>)
    requires n > 0 && maxSteps >= 1 && numPrey + numPredators <= n * n && GpuDiceOk(dice, n)
    ensures fresh(grid) && fresh(energy) && Square(grid, n) && Square(energy, n)
    ensures Coded(grid) && EnergyClean(grid, energy) && NoStarved(grid, energy)
    ensures preyCells == |Where(grid, PreyCode)| && predatorCells == |Where(grid, PredatorCode)|
    ensures |tr| == steps + 1 && Last(tr) == (preyCells, predatorCells)
    ensures GpuEnd(numPrey, numPredators, maxSteps, outcome, tr)
  {
    grid, energy := Populate(n, numPrey, numPredators, dice.place);
    var preyRemaining, predatorsRemaining := true, true;
    steps := 0;
    tr := [(numPrey, numPredators)];
    while steps < maxSteps
      invariant fresh(grid) && fresh(energy)
      invariant Square(grid, n) && Square(energy, n) && Coded(grid) && EnergyClean(grid, energy)
      invariant steps <= maxSteps
      invariant |tr| == steps + 1 && tr[0] == (numPrey, numPredators) && Last(tr) == Counts(grid)
      invariant forall k :: 0 <= k < |tr| - 1 ==> GpuStepBound(tr[k], tr[k + 1])
      invariant forall k :: 1 <= k < |tr| ==> Alive(tr[k])
      invariant steps >= 1 ==> NoStarved(grid, energy)
      invariant steps >= 1 ==> (preyRemaining <==> Counts(grid).0 > 0) && (predatorsRemaining <==> Counts(grid).1 > 0)
    {
      steps := steps + 1;
      preyRemaining, predatorsRemaining := StepAndCheck(grid, energy, n, steps, dice);
      tr := tr + [Counts(grid)];
      if !preyRemaining || !predatorsRemaining {
        break;
      }
    }
    preyCells, predatorCells := |Where(grid, PreyCode)|, |Where(grid, PredatorCode)|;
    if !preyRemaining {
      outcome := PreyExtinct;
    } else if !predatorsRemaining {
      outcome := PredatorsExtinct;
    } else {
      outcome := Coexistence;
    }
  }

  /** `range(k)` for a device count `k`: no iterations when `k` is negative. */
  function Iterations(k: int): nat {
    if k < 0 then 0 else k
  }

  /** `run_simulation_kernel` for thread `idx`: a thread past the end of
      `prey_counts` returns at once; any other thread runs its trial with
      the draws seeded by `idx` and writes only `results[idx]`. */
  method Kernel(idx: nat, preyCounts: seq<int>, predatorCounts: seq<int>, gridSize: int, maxSteps: nat,
                results: array<int>, dice: nat -> GpuDice)
    requires |predatorCounts| >= |preyCounts| && results.Length >= |preyCounts|
    requires maxSteps >= 1 && GpuDiceOk(dice(idx), GridSize)
    requires idx < |preyCounts| ==>
      Iterations(preyCounts[idx]) + Iterations(predatorCounts[idx]) <= GridSize * GridSize
    modifies results
    ensures forall k :: 0 <= k < results.Length && k != idx ==> results[k] == old(results[k])
    ensures idx >= |preyCounts| ==> results[..] == old(results[..])
    ensures idx < |preyCounts| ==> GpuRan(Iterations(preyCounts[idx]), Iterations(predatorCounts[idx]), maxSteps, results[idx])
    ensures idx < |preyCounts| ==> results[idx] in {PreyExtinct, PredatorsExtinct, Coexistence}
  {
    if idx >= |preyCounts| {
      return;
    }
    var numPrey, numPredators := Iterations(preyCounts[idx]), Iterations(predatorCounts[idx]);
    var outcome, steps, preyCells, predatorCells, grid, energy, tr := Simulate(GridSize, numPrey, numPredators, maxSteps, dice(idx));
    results[idx] := outcome;
  }

  /** `run_simulations_on_gpu`: a zeroed result array and enough blocks of
      THREADS_PER_BLOCK threads to cover every trial. The threads are run
      one after the other; each writes a different slot. */
  method Launch(preyCounts: seq<nat>, predatorCounts: seq<nat>, maxSteps: nat, dice: nat -> GpuDice)
    returns (results: seq<int>, blocks: nat)
    requires |predatorCounts| == |preyCounts| && maxSteps >= 1
    requires forall k :: GpuDiceOk(dice(k), GridSize)
    requires forall k :: 0 <= k < |preyCounts| ==> preyCounts[k] + predatorCounts[k] <= GridSize * GridSize
    ensures |results| == |preyCounts|
    ensures |preyCounts| <= blocks * ThreadsPerBlock < |preyCounts| + ThreadsPerBlock
    ensures forall k :: 0 <= k < |results| ==> GpuRan(preyCounts[k], predatorCounts[k], maxSteps, results[k])
    ensures forall k :: 0 <= k < |results| ==> results[k] in {PreyExtinct, PredatorsExtinct, Coexistence}
  {
    var size := |preyCounts|;
    var a := new int[size](_ => 0);
    blocks := (size + (ThreadsPerBlock - 1)) / ThreadsPerBlock;
    for idx := 0 to blocks * ThreadsPerBlock
      invariant forall k :: 0 <= k < idx && k < size ==> GpuRan(preyCounts[k], predatorCounts[k], maxSteps, a[k])
      invariant forall k :: 0 <= k < idx && k < size ==> a[k] in {PreyExtinct, PredatorsExtinct, Coexistence}
    {
      Kernel(idx, preyCounts, predatorCounts, GridSize, maxSteps, a, dice);
    }
    results := a[..];
  }

  /** The GPU driver's `main`: ratio outer, density inner, NUM_SIMULATIONS
      trials per point with the clamped counts, one kernel launch, and the
      majority outcome of each point in `z`. The aggregation is the
      evidently intended one (see `GpuAggregateAsWritten`). */
  method GpuDiagram(ratios: seq<Frac>, densities: seq<Frac>, dice: nat -> GpuDice, z: array2<ZEntry>)
    returns (results: seq<int>, positions: seq<(nat, nat)>)
    requires forall i :: 0 <= i < |ratios| ==> ValidFrac(ratios[i])
    requires forall j :: 0 <= j < |densities| ==> ValidFrac(densities[j])
    requires forall j :: 0 <= j < |densities| ==> TotalAgents(densities[j], GridSize * GridSize) <= GridSize * GridSize
    requires forall k :: GpuDiceOk(dice(k), GridSize)
    requires z.Length0 == |densities| && z.Length1 == |ratios|
    modifies z
    ensures |results| == |positions|
    ensures forall k :: 0 <= k < |results| ==>
      var (j, i) := positions[k];
      && j < |densities| && i < |ratios|
      && var counts := PointArgs(ratios[i], densities[j], GridSize * GridSize, false);
      GpuRan(counts.0, counts.1, MaxSteps, results[k])
    ensures forall j, i :: 0 <= j < |densities| && 0 <= i < |ratios| ==>
      && |Group(results, positions, (j, i))| == NumSimulations
      && z[j, i] == Value(MostCommonOf(Group(results, positions, (j, i))))
  {
    var cells := GridSize * GridSize;
    var args;
    args, positions := BuildTrials(ratios, densities, cells, NumSimulations, false, false, z);
    var preyCounts := seq(|args|, k requires 0 <= k < |args| => args[k].0);
    var predatorCounts := seq(|args|, k requires 0 <= k < |args| => args[k].1);
    forall k | 0 <= k < |args| ensures preyCounts[k] + predatorCounts[k] <= cells {
      var j, i := positions[k].0, positions[k].1;
      assert args[k] == PointArgs(ratios[i], densities[j], cells, false);
    }
    var blocks;
    results, blocks := Launch(preyCounts, predatorCounts, MaxSteps, dice);
    forall j, i | 0 <= j < |densities| && 0 <= i < |ratios|
      ensures (j, i) in positions
      ensures |Group(results, positions, (j, i))| == NumSimulations
    {
      assert (j, i) in multiset(positions);
      GroupSize(results, positions, (j, i));
    }
    Aggregate(results, positions, z);
  }
}
