// The ratio/density sweeps of the batch drivers: each grid point
// (ratio_values[i], density_values[j]) becomes a total agent count N, a
// prey/predator split clamped so that both kinds are present, and
// NUM_SIMULATIONS identical trial arguments tagged with the position (j, i).
// The float values of the sweep are modelled as exact non-negative
// fractions, and `int(...)` of a non-negative value as floor division.
module Sweep {
  import opened Outcomes

  /** A non-negative sweep value `num / den`. */
  datatype Frac = Frac(num: nat, den: nat)

  predicate ValidFrac(f: Frac) {
    f.den > 0
  }

  /** `N = int(density * total_grid_cells)`, then raised to 2 when smaller. */
  function TotalAgents(density: Frac, cells: nat): (n: nat)
    requires ValidFrac(density)
    ensures n >= 2
    ensures density.num * cells / density.den >= 2 ==> n == density.num * cells / density.den
    ensures density.num * cells / density.den < 2 ==> n == 2
  {
    var n := density.num * cells / density.den;
    if n < 2 then 2 else n
  }

  /** `int((ratio / (ratio + 1)) * N)`: the floor of the prey share, never above N. */
  function RawPrey(ratio: Frac, n: nat): (raw: nat)
    requires ValidFrac(ratio)
    ensures raw <= n
    ensures raw * (ratio.num + ratio.den) <= ratio.num * n < (raw + 1) * (ratio.num + ratio.den)
  {
    RawShareBound(ratio.num, ratio.den, n)
  }

  /** `a * n / (a + b)`: at most n, and the floor of the exact share. */
  function RawShareBound(a: nat, b: nat, n: nat): (q: nat)
    requires b > 0
    ensures q <= n
    ensures q * (a + b) <= a * n < (q + 1) * (a + b)
  {
    var d := a + b;
    var q := a * n / d;
    DivFloor(a * n, d);
    MulMono(a, d, n);
    MulCancel(q, n, d);
    q
  }

  /** The floor of a quotient: its multiple of the divisor is within one divisor of the dividend. */
  lemma DivFloor(m: nat, d: nat)
    requires d > 0
    ensures (m / d) * d <= m < (m / d + 1) * d
  {
    assert (m / d) * d + m % d == m;
    assert (m / d + 1) * d == (m / d) * d + d;
  }

  /** Multiplying an inequality by a natural factor. */
  lemma MulMono(a: nat, d: nat, n: nat)
    requires a <= d
    ensures a * n <= n * d
  {
    assert n * d - a * n == (d - a) * n;
  }

  /** Dividing an inequality by a positive factor. */
  lemma MulCancel(q: nat, n: nat, d: nat)
    requires d > 0 && q * d <= n * d
    ensures q <= n
  {
    assert (q - n) * d == q * d - n * d;
  }

  /** The two "ensure at least one prey and one predator" corrections. */
  function Clamp(n: nat, raw: nat): (counts: (nat, nat))
    requires n >= 2 && raw <= n
    ensures counts.0 >= 1 && counts.1 >= 1
    ensures counts.0 + counts.1 == n
    ensures counts.0 == if raw == 0 then 1 else if raw == n then n - 1 else raw
  {
    var (prey, predators) := if raw == 0 then (1, n - 1) else (raw, n - raw);
    if predators == 0 then (n - 1, 1) else (prey, predators)
  }

  /** The `(num_prey, num_predators)` of one sweep point. With `zeroBranch`
      (phase_diagram_ratio.py) a zero ratio bypasses the formula and gives
      no prey before the clamp. */
  function PointArgs(ratio: Frac, density: Frac, cells: nat, zeroBranch: bool): (counts: (nat, nat))
    requires ValidFrac(ratio) && ValidFrac(density)
    ensures counts.0 >= 1 && counts.1 >= 1
    ensures counts.0 + counts.1 == TotalAgents(density, cells)
  {
    var n := TotalAgents(density, cells);
    var raw := if zeroBranch && ratio.num == 0 then 0 else RawPrey(ratio, n);
    Clamp(n, raw)
  }

  /** The `ratio == 0` branch only avoids a division the formula would do
      harmlessly: it gives the same counts as the plain formula, namely one
      prey and N - 1 predators. */
  lemma ZeroRatioBranchAgrees(ratio: Frac, density: Frac, cells: nat)
    requires ValidFrac(ratio) && ValidFrac(density)
    ensures PointArgs(ratio, density, cells, true) == PointArgs(ratio, density, cells, false)
    ensures ratio.num == 0 ==> PointArgs(ratio, density, cells, true) == (1, TotalAgents(density, cells) - 1)
  {
    if ratio.num == 0 {
      var n := TotalAgents(density, cells);
      assert RawPrey(ratio, n) == 0;
    }
  }

  /** A sweep point is skipped (its cell set to NaN) when `skipZero` holds and
      its density is zero; the GPU driver has no such check. */
  predicate Skipped(density: Frac, skipZero: bool) {
    skipZero && density.num == 0
  }

  /** How many trials are tagged with position `p`. */
  ghost function Occurrences(positions: seq<(nat, nat)>, p: (nat, nat)): nat {
    multiset(positions)[p]
  }

  /** Point (j', i') is visited before point (j, i): ratio index outer, density inner. */
  predicate Before(j': nat, i': nat, j: nat, i: nat) {
    i' < i || (i' == i && j' < j)
  }

  /** `for _ in range(NUM_SIMULATIONS)`: append `numSims` copies of the
      point's arguments and of its position. */
  method AppendTrials(args: seq<(nat, nat)>, positions: seq<(nat, nat)>, point: (nat, nat), p: (nat, nat), numSims: nat)
    returns (args': seq<(nat, nat)>, positions': seq<(nat, nat)>)
    ensures args' == args + seq(numSims, _ => point)
    ensures positions' == positions + seq(numSims, _ => p)
    ensures Occurrences(positions', p) == Occurrences(positions, p) + numSims
    ensures forall q :: q != p ==> Occurrences(positions', q) == Occurrences(positions, q)
  {
    args', positions' := args, positions;
    for t := 0 to numSims
      invariant args' == args + seq(t, _ => point)
      invariant positions' == positions + seq(t, _ => p)
      invariant Occurrences(positions', p) == Occurrences(positions, p) + t
      invariant forall q :: q != p ==> Occurrences(positions', q) == Occurrences(positions, q)
    {
      assert multiset(positions' + [p]) == multiset(positions') + multiset{p};
      assert seq(t + 1, _ => point) == seq(t, _ => point) + [point];
      assert seq(t + 1, _ => p) == seq(t, _ => p) + [p];
      args', positions' := args' + [point], positions' + [p];
    }
  }

  /** The trials appended so far all belong to points visited before (j, i)
      and carry those points' arguments. */
  ghost predicate TrialsOk(args: seq<(nat, nat)>, positions: seq<(nat, nat)>, ratios: seq<Frac>, densities: seq<Frac>,
                           cells: nat, zeroBranch: bool, skipZero: bool, j: nat, i: nat)
    requires forall i :: 0 <= i < |ratios| ==> ValidFrac(ratios[i])
    requires forall j :: 0 <= j < |densities| ==> ValidFrac(densities[j])
  {
    && |args| == |positions|
    && forall k :: 0 <= k < |positions| ==>
      var (j', i') := positions[k];
      && j' < |densities| && i' < |ratios| && Before(j', i', j, i)
      && !Skipped(densities[j'], skipZero)
      && args[k] == PointArgs(ratios[i'], densities[j'], cells, zeroBranch)
  }

  /** One iteration of the density loop: a skipped point writes NaN into
      `z[j, i]`, any other point appends its trials. */
  method VisitPoint(ratios: seq<Frac>, densities: seq<Frac>, cells: nat, numSims: nat,
                    zeroBranch: bool, skipZero: bool, z: array2<ZEntry>, j: nat, i: nat,
                    args: seq<(nat, nat)>, positions: seq<(nat, nat)>)
    returns (args': seq<(nat, nat)>, positions': seq<(nat, nat)>)
    requires forall i :: 0 <= i < |ratios| ==> ValidFrac(ratios[i])
    requires forall j :: 0 <= j < |densities| ==> ValidFrac(densities[j])
    requires z.Length0 == |densities| && z.Length1 == |ratios| && j < |densities| && i < |ratios|
    requires TrialsOk(args, positions, ratios, densities, cells, zeroBranch, skipZero, j, i)
    modifies z
    ensures TrialsOk(args', positions', ratios, densities, cells, zeroBranch, skipZero, j + 1, i)
    ensures positions' == positions + PointPositions(densities[j], skipZero, numSims, j, i)
    ensures forall j', i' :: 0 <= j' < |densities| && 0 <= i' < |ratios| ==>
      z[j', i'] == if j' == j && i' == i && Skipped(densities[j'], skipZero) then NaN else old(z[j', i'])
  {
    if Skipped(densities[j], skipZero) {
      z[j, i] := NaN;
      args', positions' := args, positions;
    } else {
      var point := PointArgs(ratios[i], densities[j], cells, zeroBranch);
      args', positions' := AppendTrials(args, positions, point, (j, i), numSims);
      forall k | |positions| <= k < |positions'| ensures positions'[k] == (j, i) && args'[k] == point {
      }
    }
  }

  /** The positions a point appends: `numSims` copies, or none when skipped. */
  function PointPositions(density: Frac, skipZero: bool, numSims: nat, j: nat, i: nat): seq<(nat, nat)> {
    if Skipped(density, skipZero) then [] else seq(numSims, _ => (j, i))
  }

  /** The positions the density loop of column i appends for its first j densities. */
  function ColumnPositions(densities: seq<Frac>, skipZero: bool, numSims: nat, j: nat, i: nat): (r: seq<(nat, nat)>)
    requires j <= |densities|
  {
    if j == 0 then []
    else ColumnPositions(densities, skipZero, numSims, j - 1, i) + PointPositions(densities[j - 1], skipZero, numSims, j - 1, i)
  }

  /** `numSims` copies of p hold q `numSims` times if q is p, else never. */
  lemma {:induction false} RepeatCount(numSims: nat, p: (nat, nat), q: (nat, nat))
    ensures Occurrences(seq(numSims, _ => p), q) == if q == p then numSims else 0
  {
    if numSims > 0 {
      RepeatCount(numSims - 1, p, q);
      assert seq(numSims, _ => p) == seq(numSims - 1, _ => p) + [p];
    }
  }

  /** Column i's density loop appends every position (j', i) whose density
      is not skipped, `numSims` times each, for j' < j, and nothing else. */
  lemma {:induction false} ColumnCount(densities: seq<Frac>, skipZero: bool, numSims: nat, j: nat, i: nat, q: (nat, nat))
    requires j <= |densities|
    ensures Occurrences(ColumnPositions(densities, skipZero, numSims, j, i), q) ==
      if q.1 == i && q.0 < j && !Skipped(densities[q.0], skipZero) then numSims else 0
  {
    if j > 0 {
      ColumnCount(densities, skipZero, numSims, j - 1, i, q);
      var prefix := ColumnPositions(densities, skipZero, numSims, j - 1, i);
      var point := PointPositions(densities[j - 1], skipZero, numSims, j - 1, i);
      assert multiset(prefix + point) == multiset(prefix) + multiset(point);
      if Skipped(densities[j - 1], skipZero) {
        assert point == [];
        assert Occurrences(point, q) == 0;
      } else {
        assert point == seq(numSims, _ => (j - 1, i));
        RepeatCount(numSims, (j - 1, i), q);
        assert Occurrences(point, q) == if q.0 == j - 1 && q.1 == i then numSims else 0;
      }
      assert Occurrences(prefix + point, q) == Occurrences(prefix, q) + Occurrences(point, q);
      assert ColumnPositions(densities, skipZero, numSims, j, i) == prefix + point;
      assert Occurrences(prefix + point, q) == if q.1 == i && q.0 < j && !Skipped(densities[q.0], skipZero) then numSims else 0;
    } else {
      assert Occurrences([], q) == 0;
    }
  }

  /** The counts after the whole column: points of columns up to i. */
  lemma ColumnDone(positions: seq<(nat, nat)>, after: seq<(nat, nat)>, densities: seq<Frac>, width: nat,
                   skipZero: bool, numSims: nat, i: nat)
    requires i < width
    requires after == positions + ColumnPositions(densities, skipZero, numSims, |densities|, i)
    requires forall j', i' :: 0 <= j' < |densities| && 0 <= i' < width ==>
      Occurrences(positions, (j', i')) == if i' < i && !Skipped(densities[j'], skipZero) then numSims else 0
    ensures forall j', i' :: 0 <= j' < |densities| && 0 <= i' < width ==>
      Occurrences(after, (j', i')) == if i' <= i && !Skipped(densities[j'], skipZero) then numSims else 0
  {
    forall j', i' | 0 <= j' < |densities| && 0 <= i' < width
      ensures Occurrences(after, (j', i')) == if i' <= i && !Skipped(densities[j'], skipZero) then numSims else 0
    {
      var column := ColumnPositions(densities, skipZero, numSims, |densities|, i);
      assert multiset(positions + column) == multiset(positions) + multiset(column);
      ColumnCount(densities, skipZero, numSims, |densities|, i, (j', i'));
    }
  }

  /** The density loop for ratio index `i`: every density in turn; a
      skipped point writes NaN into `z[j, i]`, any other point appends its
      trials. */
  method VisitColumn(ratios: seq<Frac>, densities: seq<Frac>, cells: nat, numSims: nat,
                     zeroBranch: bool, skipZero: bool, z: array2<ZEntry>, i: nat,
                     args: seq<(nat, nat)>, positions: seq<(nat, nat)>)
    returns (args': seq<(nat, nat)>, positions': seq<(nat, nat)>)
    requires forall i :: 0 <= i < |ratios| ==> ValidFrac(ratios[i])
    requires forall j :: 0 <= j < |densities| ==> ValidFrac(densities[j])
    requires z.Length0 == |densities| && z.Length1 == |ratios| && i < |ratios|
    requires TrialsOk(args, positions, ratios, densities, cells, zeroBranch, skipZero, 0, i)
    modifies z
    ensures TrialsOk(args', positions', ratios, densities, cells, zeroBranch, skipZero, |densities|, i)
    ensures positions' == positions + ColumnPositions(densities, skipZero, numSims, |densities|, i)
    ensures forall j', i' :: 0 <= j' < |densities| && 0 <= i' < |ratios| ==>
      z[j', i'] == if i' == i && Skipped(densities[j'], skipZero) then NaN else old(z[j', i'])
  {
    args', positions' := args, positions;
    for j := 0 to |densities|
      invariant TrialsOk(args', positions', ratios, densities, cells, zeroBranch, skipZero, j, i)
      invariant positions' == positions + ColumnPositions(densities, skipZero, numSims, j, i)
      invariant forall j', i' :: 0 <= j' < |densities| && 0 <= i' < |ratios| ==>
        z[j', i'] == if i' == i && j' < j && Skipped(densities[j'], skipZero) then NaN else old(z[j', i'])
    {
      args', positions' := VisitPoint(ratios, densities, cells, numSims, zeroBranch, skipZero, z, j, i, args', positions');
      assert ColumnPositions(densities, skipZero, numSims, j + 1, i) ==
        ColumnPositions(densities, skipZero, numSims, j, i) + PointPositions(densities[j], skipZero, numSims, j, i);
    }
  }

  /** Having visited every density of column i is having visited every
      point before column i + 1. */
  lemma NextColumn(args: seq<(nat, nat)>, positions: seq<(nat, nat)>, ratios: seq<Frac>, densities: seq<Frac>,
                   cells: nat, zeroBranch: bool, skipZero: bool, i: nat)
    requires forall i :: 0 <= i < |ratios| ==> ValidFrac(ratios[i])
    requires forall j :: 0 <= j < |densities| ==> ValidFrac(densities[j])
    requires TrialsOk(args, positions, ratios, densities, cells, zeroBranch, skipZero, |densities|, i)
    ensures TrialsOk(args, positions, ratios, densities, cells, zeroBranch, skipZero, 0, i + 1)
  {
  }

  /** The argument-building loops: ratio outer (i), density inner (j), and
      `numSims` appended tuples per point that is not skipped; a skipped
      point gets NaN in the phase matrix instead. */
  method BuildTrials(ratios: seq<Frac>, densities: seq<Frac>, cells: nat, numSims: nat,
                     zeroBranch: bool, skipZero: bool, z: array2<ZEntry>)
    returns (args: seq<(nat, nat)>, positions: seq<(nat, nat)>)
    requires forall i :: 0 <= i < |ratios| ==> ValidFrac(ratios[i])
    requires forall j :: 0 <= j < |densities| ==> ValidFrac(densities[j])
    requires z.Length0 == |densities| && z.Length1 == |ratios|
    modifies z
    ensures |args| == |positions|
    ensures forall k :: 0 <= k < |positions| ==>
      var (j, i) := positions[k];
      && j < |densities| && i < |ratios|
      && !Skipped(densities[j], skipZero)
      && args[k] == PointArgs(ratios[i], densities[j], cells, zeroBranch)
    ensures forall j, i :: 0 <= j < |densities| && 0 <= i < |ratios| ==>
      Occurrences(positions, (j, i)) == if Skipped(densities[j], skipZero) then 0 else numSims
    ensures forall j, i :: 0 <= j < |densities| && 0 <= i < |ratios| ==>
      z[j, i] == if Skipped(densities[j], skipZero) then NaN else old(z[j, i])
  {
    args, positions := [], [];
    for i := 0 to |ratios|
      invariant TrialsOk(args, positions, ratios, densities, cells, zeroBranch, skipZero, 0, i)
      invariant forall j', i' :: 0 <= j' < |densities| && 0 <= i' < |ratios| ==>
        Occurrences(positions, (j', i')) == if i' < i && !Skipped(densities[j'], skipZero) then numSims else 0
      invariant forall j', i' :: 0 <= j' < |densities| && 0 <= i' < |ratios| ==>
        z[j', i'] == if i' < i && Skipped(densities[j'], skipZero) then NaN else old(z[j', i'])
    {
      ghost var before := positions;
      args, positions := VisitColumn(ratios, densities, cells, numSims, zeroBranch, skipZero, z, i, args, positions);
      ColumnDone(before, positions, densities, |ratios|, skipZero, numSims, i);
      NextColumn(args, positions, ratios, densities, cells, zeroBranch, skipZero, i);
    }
  }
}
