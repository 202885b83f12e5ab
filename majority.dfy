// Trial outcomes and their reduction to one value per sweep point:
// the 0/1/2 classification every variant returns, `Counter(outcomes)
// .most_common(1)[0][0]` (the most frequent outcome, ties going to the
// value seen first), and the loop that groups `results` by `positions`
// and writes the majority into the phase matrix `Z[j, i]`.
module Outcomes {
  import opened Lists

  /** Outcome codes: 0 all prey died, 1 all predators died, 2 coexistence. */
  const PreyExtinct := 0
  const PredatorsExtinct := 1
  const Coexistence := 2

  /** The classification at the end of a trial; prey extinction is checked first. */
  function Classify(preyLeft: bool, predatorsLeft: bool): (r: int)
    ensures r in {PreyExtinct, PredatorsExtinct, Coexistence}
    ensures r == PreyExtinct <==> !preyLeft
    ensures r == PredatorsExtinct <==> preyLeft && !predatorsLeft
    ensures r == Coexistence <==> preyLeft && predatorsLeft
  {
    if !preyLeft then PreyExtinct
    else if !predatorsLeft then PredatorsExtinct
    else Coexistence
  }

  /** Both kinds are present in a `(prey, predators)` count pair: the
      condition on which a trial keeps stepping. */
  predicate Alive(c: (nat, nat)) {
    c.0 > 0 && c.1 > 0
  }

  /** The last count pair of a trial's trace. */
  function Last(tr: seq<(nat, nat)>): (nat, nat)
    requires |tr| > 0
  {
    tr[|tr| - 1]
  }

  /** How often `v` occurs in `s` (what `Counter(s)[v]` holds). */
  function Count(s: seq<int>, v: int): nat {
    multiset(s)[v]
  }

  /** Position of the first occurrence of `v`. */
  function FirstIndex(s: seq<int>, v: int): (r: nat)
    requires v in s
    ensures r < |s| && s[r] == v && forall i :: 0 <= i < r ==> s[i] != v
  {
    FirstIndexFrom(s, v, 0)
  }

  /** The first occurrence of `v` at or after position `i`. */
  function FirstIndexFrom(s: seq<int>, v: int, i: nat): (r: nat)
    requires i <= |s| && v in s[i..]
    ensures i <= r < |s| && s[r] == v && forall j :: i <= j < r ==> s[j] != v
    decreases |s| - i
  {
    if s[i] == v then i
    else
      assert v in s[i + 1..] by {
        var j :| i <= j < |s| && s[j] == v;
        assert s[i + 1..][j - i - 1] == v;
      }
      FirstIndexFrom(s, v, i + 1)
  }

  /** `v` is what `Counter(s).most_common(1)[0][0]` returns: it occurs in `s`,
      no value occurs more often, and no other value with the same count
      occurs before v's first occurrence. */
  ghost predicate IsMostCommon(s: seq<int>, v: int) {
    && v in s
    && (forall w :: Count(s, w) <= Count(s, v))
    && (forall k :: 0 <= k < |s| && Count(s, s[k]) == Count(s, v) ==> FirstIndex(s, v) <= k)
  }

  /** `Counter(s)`: every value of `s` mapped to the number of times it occurs. */
  method Tally(s: seq<int>) returns (counts: map<int, nat>)
    ensures forall v :: v in counts <==> v in s
    ensures forall v :: v in counts ==> counts[v] == Count(s, v)
    ensures forall k :: 0 <= k < |s| ==> s[k] in counts
  {
    counts := map[];
    for i := 0 to |s|
      invariant forall v :: v in counts <==> v in s[..i]
      invariant forall v :: v in counts ==> counts[v] == Count(s[..i], v)
    {
      var x := s[i];
      assert s[..i + 1] == s[..i] + [x];
      if x in counts {
        counts := counts[x := counts[x] + 1];
      } else {
        counts := counts[x := 1];
      }
    }
    assert s[..|s|] == s;
  }

  /** The scan `most_common(1)` performs: the counter's keys are visited in
      insertion order (the first occurrence of each value in `s`) and a key
      replaces the current best only with a strictly larger count. */
  function ScanBest(s: seq<int>, k: nat, v: int): int
    decreases |s| - k
  {
    if k >= |s| then v
    else
      var x := s[k];
      ScanBest(s, k + 1, if FirstIndex(s, x) == k && Count(s, x) > Count(s, v) then x else v)
  }

  /** `Counter(s).most_common(1)[0][0]`, as a function of the outcomes. */
  function MostCommonOf(s: seq<int>): int
    requires |s| > 0
  {
    ScanBest(s, 1, s[0])
  }

  /** What holds of the current best after the first `k` positions are scanned. */
  ghost predicate ScanInv(s: seq<int>, k: nat, v: int) {
    && k <= |s|
    && v in s && FirstIndex(s, v) < k
    && (forall k' :: 0 <= k' < k ==> Count(s, s[k']) <= Count(s, v))
    && (forall k' :: 0 <= k' < k && Count(s, s[k']) == Count(s, v) ==> FirstIndex(s, v) <= k')
  }

  /** The scan from position k ends in a best value for the whole sequence. */
  lemma {:induction false} ScanReaches(s: seq<int>, k: nat, v: int) returns (w: int)
    requires ScanInv(s, k, v)
    ensures ScanInv(s, |s|, w) && ScanBest(s, k, v) == w
    decreases |s| - k
  {
    if k < |s| {
      if FirstIndex(s, s[k]) == k && Count(s, s[k]) > Count(s, v) {
        assert ScanBest(s, k, v) == ScanBest(s, k + 1, s[k]);
        ScanTakes(s, k, v);
        w := ScanReaches(s, k + 1, s[k]);
      } else {
        assert ScanBest(s, k, v) == ScanBest(s, k + 1, v);
        ScanKeeps(s, k, v);
        w := ScanReaches(s, k + 1, v);
      }
    } else {
      w := v;
    }
  }


  /** A first occurrence with a strictly larger count becomes the best. */
  lemma ScanTakes(s: seq<int>, k: nat, v: int)
    requires ScanInv(s, k, v) && k < |s|
    requires FirstIndex(s, s[k]) == k && Count(s, s[k]) > Count(s, v)
    ensures ScanInv(s, k + 1, s[k])
  {
    forall k' | 0 <= k' < k + 1
      ensures Count(s, s[k']) <= Count(s, s[k])
      ensures Count(s, s[k']) == Count(s, s[k]) ==> k <= k'
    {
      if k' < k {
        assert Count(s, s[k']) <= Count(s, v);
      }
    }
  }

  /** Otherwise the best value stays. */
  lemma ScanKeeps(s: seq<int>, k: nat, v: int)
    requires ScanInv(s, k, v) && k < |s|
    requires !(FirstIndex(s, s[k]) == k && Count(s, s[k]) > Count(s, v))
    ensures ScanInv(s, k + 1, v)
  {
    var f := FirstIndex(s, s[k]);
    assert Count(s, s[k]) <= Count(s, v) by {
      if f < k {
        assert s[f] == s[k];
        assert Count(s, s[f]) <= Count(s, v);
      }
    }
  }

  /** After the whole scan the best value is the most common one. */
  lemma ScanDone(s: seq<int>, v: int)
    requires ScanInv(s, |s|, v)
    ensures IsMostCommon(s, v)
  {
    forall w ensures Count(s, w) <= Count(s, v) {
      if w in s {
        var f := FirstIndex(s, w);
        assert s[f] == w;
      }
    }
  }

  /** The reduction is the most common outcome, ties going to the value seen first. */
  lemma MostCommonOfIsMostCommon(s: seq<int>)
    requires |s| > 0
    ensures IsMostCommon(s, MostCommonOf(s))
  {
    assert ScanInv(s, 1, s[0]);
    var w := ScanReaches(s, 1, s[0]);
    ScanDone(s, w);
  }

  /** `Counter(s).most_common(1)[0][0]`, computed from the tally. */
  method MostCommon(s: seq<int>) returns (v: int)
    requires |s| > 0
    ensures v == MostCommonOf(s)
    ensures IsMostCommon(s, v)
  {
    var counts := Tally(s);
    v := s[0];
    for k := 1 to |s|
      invariant v in s
      invariant ScanBest(s, k, v) == MostCommonOf(s)
    {
      if s[k] !in s[..k] {
        FirstIndexAt(s, k);
        if counts[s[k]] > counts[v] {
          v := s[k];
        }
      } else {
        FirstIndexInPrefix(s, s[k], k);
      }
    }
    MostCommonOfIsMostCommon(s);
  }

  /** A value absent from the prefix before `k` first occurs at `k`. */
  lemma FirstIndexAt(s: seq<int>, k: nat)
    requires k < |s| && s[k] !in s[..k]
    ensures FirstIndex(s, s[k]) == k
  {
  }

  /** A value occurring in a prefix first occurs inside that prefix. */
  lemma FirstIndexInPrefix(s: seq<int>, v: int, m: nat)
    requires m <= |s| && v in s[..m]
    ensures v in s && FirstIndex(s, v) < m
  {
    var a :| 0 <= a < m && s[..m][a] == v;
    assert s[a] == v;
  }

  /** The tie-break makes the majority well defined: there is only one. */
  lemma MostCommonUnique(s: seq<int>, v: int, w: int)
    requires IsMostCommon(s, v) && IsMostCommon(s, w)
    ensures v == w
  {
    var kv, kw := FirstIndex(s, v), FirstIndex(s, w);
    assert Count(s, s[kw]) == Count(s, v);
    assert Count(s, s[kv]) == Count(s, w);
  }

  /** With a strict majority the order of the outcomes does not matter:
      any reordering has the same most common value. */
  lemma StrictMajorityIsOrderFree(s: seq<int>, t: seq<int>, v: int)
    requires multiset(t) == multiset(s)
    requires v in s && forall w :: w != v ==> Count(s, w) < Count(s, v)
    ensures IsMostCommon(t, v)
  {
    assert v in multiset(s);
    assert v in t by { assert v in multiset(t); }
    forall w ensures Count(t, w) <= Count(t, v) {
      assert Count(t, w) == Count(s, w) && Count(t, v) == Count(s, v);
    }
    forall k | 0 <= k < |t| && Count(t, t[k]) == Count(t, v) ensures FirstIndex(t, v) <= k {
      assert Count(t, t[k]) == Count(s, t[k]) && Count(t, v) == Count(s, v);
      assert t[k] == v;
    }
  }

  /** A cell of the phase matrix: a majority outcome or NaN (`np.nan`). */
  datatype ZEntry = Value(v: int) | NaN

  /** `outcomes_dict[p]`: the outcomes of the trials run at point `p`, in result order. */
  ghost function Group(results: seq<int>, positions: seq<(nat, nat)>, p: (nat, nat)): (g: seq<int>)
    requires |results| == |positions|
    ensures |g| == 0 <==> p !in positions
  {
    if |positions| == 0 then []
    else
      var last := |positions| - 1;
      var g := Group(results[..last], positions[..last], p);
      assert positions == positions[..last] + [positions[last]];
      if positions[last] == p then g + [results[last]] else g
  }

  /** Extending the trial list by one result extends at most one group. */
  lemma GroupStep(results: seq<int>, positions: seq<(nat, nat)>, k: nat, p: (nat, nat))
    requires |results| == |positions| && k < |positions|
    ensures Group(results[..k + 1], positions[..k + 1], p)
         == Group(results[..k], positions[..k], p) + (if positions[k] == p then [results[k]] else [])
  {
    assert results[..k + 1][..k] == results[..k] && positions[..k + 1][..k] == positions[..k];
  }

  /** The first aggregation loop: `outcomes_dict[position].append(outcome)`;
      `order` lists the dictionary's keys in insertion order. */
  method GroupByPosition(results: seq<int>, positions: seq<(nat, nat)>)
    returns (groups: map<(nat, nat), seq<int>>, order: seq<(nat, nat)>)
    requires |results| == |positions|
    ensures NoDup(order)
    ensures forall p :: p in groups <==> p in order
    ensures forall p :: p in order <==> p in positions
    ensures forall p :: p in groups ==> groups[p] == Group(results, positions, p)
  {
    groups, order := map[], [];
    for k := 0 to |results|
      invariant NoDup(order)
      invariant forall p :: p in groups <==> p in order
      invariant forall p :: p in order <==> p in positions[..k]
      invariant forall p :: p in groups ==> groups[p] == Group(results[..k], positions[..k], p)
    {
      var p := positions[k];
      assert positions[..k + 1] == positions[..k] + [p];
      if p in groups {
        groups := groups[p := groups[p] + [results[k]]];
      } else {
        order := order + [p];
        groups := groups[p := [results[k]]];
      }
      forall q | q in groups ensures groups[q] == Group(results[..k + 1], positions[..k + 1], q) {
        GroupStep(results, positions, k, q);
      }
    }
    assert results[..|results|] == results && positions[..|positions|] == positions;
  }

  /** A position's group holds one result per occurrence of the position. */
  lemma {:induction false} GroupSize(results: seq<int>, positions: seq<(nat, nat)>, p: (nat, nat))
    requires |results| == |positions|
    ensures |Group(results, positions, p)| == multiset(positions)[p]
  {
    if |positions| > 0 {
      var k := |positions| - 1;
      GroupSize(results[..k], positions[..k], p);
      assert positions == positions[..k] + [positions[k]];
      assert multiset(positions) == multiset(positions[..k]) + multiset{positions[k]};
    }
  }

  /** The aggregation: group `results` by `positions`, then write each
      group's most common outcome into `z[j, i]`; other cells are untouched. */
  method Aggregate(results: seq<int>, positions: seq<(nat, nat)>, z: array2<ZEntry>)
    requires |results| == |positions|
    requires forall k :: 0 <= k < |positions| ==> positions[k].0 < z.Length0 && positions[k].1 < z.Length1
    modifies z
    ensures forall j, i :: 0 <= j < z.Length0 && 0 <= i < z.Length1 ==>
      if (j, i) in positions
      then z[j, i] == Value(MostCommonOf(Group(results, positions, (j, i))))
      else z[j, i] == old(z[j, i])
  {
    var groups, order := GroupByPosition(results, positions);
    ghost var done: set<(nat, nat)> := {};
    for m := 0 to |order|
      invariant forall t :: 0 <= t < m ==> order[t] in done
      invariant done <= groups.Keys
      invariant forall j, i :: 0 <= j < z.Length0 && 0 <= i < z.Length1 && (j, i) in done ==>
        z[j, i] == Value(MostCommonOf(groups[(j, i)]))
      invariant forall j, i :: 0 <= j < z.Length0 && 0 <= i < z.Length1 && (j, i) !in done ==>
        z[j, i] == old(z[j, i])
    {
      var p := order[m];
      assert p in positions;
      ghost var k :| 0 <= k < |positions| && positions[k] == p;
      var best := MostCommon(groups[p]);
      z[p.0, p.1] := Value(best);
      done := done + {p};
    }
    forall j, i | 0 <= j < z.Length0 && 0 <= i < z.Length1 && (j, i) in positions
      ensures (j, i) in done && groups[(j, i)] == Group(results, positions, (j, i))
    {
      var t :| 0 <= t < |order| && order[t] == (j, i);
    }
  }

  /** What the GPU driver's aggregation reaches: it completes, or the first
      `Counter(outcomes)` raises NameError because `Counter` is never
      imported there (only numpy, numba, cuda, math and tqdm are). */
  datatype Reduction = Completed | NameError

  /** The GPU driver's aggregation as written: the grouping loop succeeds,
      and the reduction loop fails on its first group. */
  function GpuAggregateAsWritten(results: seq<int>, positions: seq<(nat, nat)>): (r: Reduction)
    requires |results| == |positions|
    ensures r == NameError <==> exists p :: Group(results, positions, p) != []
  {
    if |positions| == 0 then Completed
    else
      assert Group(results, positions, positions[0]) != [];
      NameError
  }

  /** One trial at one point already shows the failure, whereas the
      intended reduction (MostCommonOf, written by Aggregate) yields its outcome. */
  lemma GpuAggregationCounterexample()
    ensures GpuAggregateAsWritten([Coexistence], [(0, 0)]) == NameError
    ensures MostCommonOf(Group([Coexistence], [(0, 0)], (0, 0))) == Coexistence
  {
    assert Group([Coexistence], [(0, 0)], (0, 0)) == [Coexistence];
  }
}
