// The toroidal n x n board shared by every variant of the simulation:
// coordinates, the wrapped Moore neighbourhood (`get_neighbors`), and the
// set of all cells, whose size bounds how many agents can be placed.
module Torus {
  import opened Lists

  /** A board coordinate; the source stores agents as grid[y][x]. */
  datatype Pos = Pos(x: int, y: int)

  predicate InGrid(p: Pos, n: nat) {
    0 <= p.x < n && 0 <= p.y < n
  }

  /** Python's `v % n` for a positive modulus (floor division, never negative). */
  function Wrap(v: int, n: nat): (r: int)
    requires n > 0
    ensures 0 <= r < n
    ensures v - r == (v / n) * n
    ensures 0 <= v < n ==> r == v
  {
    v % n
  }

  /** Wrapping a coordinate that is at most one step off the board. */
  lemma WrapNear(v: int, n: nat)
    requires n > 0 && -1 <= v <= n
    ensures Wrap(v, n) == if v < 0 then v + n else if v >= n then v - n else v
  {
    if v < 0 {
      assert v + n == v % n by { assert v == (-1) * n + (v + n); }
    } else if v >= n {
      assert v - n == v % n by { assert v == 1 * n + (v - n); }
    }
  }

  /** The eight offsets in the order the source visits them: dx outer,
      dy inner, each over -1, 0, 1, with (0, 0) skipped. */
  const Offsets: seq<(int, int)> :=
    [(-1, -1), (-1, 0), (-1, 1), (0, -1), (0, 1), (1, -1), (1, 0), (1, 1)]

  /** Reference definition of the neighbourhood, one entry per offset. */
  function Neighbors(x: int, y: int, n: nat): (r: seq<Pos>)
    requires n > 0
    ensures |r| == 8
    ensures forall k :: 0 <= k < 8 ==> InGrid(r[k], n)
  {
    seq(8, k requires 0 <= k < 8 => Pos(Wrap(x + Offsets[k].0, n), Wrap(y + Offsets[k].1, n)))
  }

  /** Number of neighbours emitted before offset (dx, dy) is reached. */
  function Emitted(dx: int, dy: int): int {
    3 * (dx + 1) + (dy + 1) - (if dx > 0 || (dx == 0 && dy > 0) then 1 else 0)
  }

  /** `get_neighbors`: two nested loops over dx and dy appending wrapped coordinates. */
  method GetNeighbors(x: int, y: int, n: nat) returns (r: seq<Pos>)
    requires n > 0
    ensures r == Neighbors(x, y, n)
  {
    ghost var full := Neighbors(x, y, n);
    r := [];
    for dx := -1 to 2
      invariant |r| == Emitted(dx, -1)
      invariant r == full[..|r|]
    {
      for dy := -1 to 2
        invariant |r| == Emitted(dx, dy)
        invariant r == full[..|r|]
      {
        if dx == 0 && dy == 0 {
          continue;
        }
        assert Offsets[|r|] == (dx, dy);
        r := r + [Pos(Wrap(x + dx, n), Wrap(y + dy, n))];
      }
    }
  }

  /** No neighbour is the cell itself once the board is at least 2 wide. */
  lemma NeighborsAvoidCentre(x: int, y: int, n: nat)
    requires n >= 2 && InGrid(Pos(x, y), n)
    ensures Pos(x, y) !in Neighbors(x, y, n)
  {
    var r := Neighbors(x, y, n);
    forall k | 0 <= k < 8 ensures r[k] != Pos(x, y) {
      WrapNear(x + Offsets[k].0, n);
      WrapNear(y + Offsets[k].1, n);
    }
  }

  /** On a board at least 3 wide the eight neighbours are pairwise distinct. */
  lemma NeighborsDistinct(x: int, y: int, n: nat)
    requires n >= 3 && InGrid(Pos(x, y), n)
    ensures NoDup(Neighbors(x, y, n))
  {
    var r := Neighbors(x, y, n);
    forall i, j | 0 <= i < j < 8 ensures r[i] != r[j] {
      WrapNear(x + Offsets[i].0, n);
      WrapNear(y + Offsets[i].1, n);
      WrapNear(x + Offsets[j].0, n);
      WrapNear(y + Offsets[j].1, n);
    }
  }

  /** Every cell of the board. */
  ghost function Cells(n: nat): set<Pos> {
    set y: int, x: int | 0 <= y < n && 0 <= x < n :: Pos(x, y)
  }

  ghost function RowPrefix(w: nat, y: int): set<Pos> {
    set x: int | 0 <= x < w :: Pos(x, y)
  }

  ghost function Band(n: nat, h: nat): set<Pos> {
    set y: int, x: int | 0 <= y < h && 0 <= x < n :: Pos(x, y)
  }

  lemma {:induction false} RowPrefixCard(w: nat, y: int)
    ensures |RowPrefix(w, y)| == w
  {
    if w > 0 {
      RowPrefixCard(w - 1, y);
      assert RowPrefix(w, y) == RowPrefix(w - 1, y) + {Pos(w - 1, y)};
    }
  }

  lemma {:induction false} BandCard(n: nat, h: nat)
    ensures |Band(n, h)| == n * h
  {
    if h > 0 {
      BandCard(n, h - 1);
      RowPrefixCard(n, h - 1);
      BandSplit(n, h);
      assert n * h == n * (h - 1) + n;
    }
  }

  /** The first h rows are the first h - 1 rows and row h - 1. */
  lemma BandSplit(n: nat, h: nat)
    requires h > 0
    ensures Band(n, h) == Band(n, h - 1) + RowPrefix(n, h - 1)
    ensures |Band(n, h)| == |Band(n, h - 1)| + |RowPrefix(n, h - 1)|
  {
    var lower, top := Band(n, h - 1), RowPrefix(n, h - 1);
    forall p | p in Band(n, h) ensures p in lower + top {
      if p.y < h - 1 { assert p in lower; } else { assert p in top; }
    }
    assert lower !! top;
  }

  /** The board has n * n cells, and they are exactly the in-range positions. */
  lemma CellsCard(n: nat)
    ensures |Cells(n)| == n * n
    ensures forall p :: p in Cells(n) <==> InGrid(p, n)
  {
    assert Cells(n) == Band(n, n);
    BandCard(n, n);
    forall p | InGrid(p, n) ensures p in Cells(n) {
      assert p == Pos(p.x, p.y);
    }
  }

  /** Pigeonhole: fewer than n * n marked cells leave some cell unmarked. */
  lemma FreeCellExists(used: set<Pos>, n: nat)
    requires used <= Cells(n) && |used| < n * n
    ensures exists p :: InGrid(p, n) && p !in used
  {
    CellsCard(n);
    var rest := Cells(n) - used;
    assert |rest| == |Cells(n)| - |used| > 0;
    var p :| p in rest;
    assert InGrid(p, n);
  }

  /** A stream of drawn cells: all on the board, each cell recurring. */
  ghost predicate DrawsOk(draw: nat -> Pos, n: nat) {
    && (forall t :: InGrid(draw(t), n))
    && (forall p, t :: InGrid(p, n) ==> Recurs(draw, p, t))
  }

  /** Cell `p` is drawn again at or after index `t`. */
  ghost predicate Recurs(draw: nat -> Pos, p: Pos, t: nat) {
    exists t' :: t' >= t && draw(t') == p
  }
}
