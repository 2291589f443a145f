/**
 Collision tallying for one Monte Carlo case. The sampled locations are counted
 into a map from cell to occupancy (a Counter), those occupancies are counted
 again into a map from occupancy to number of cells (the roll-up), and the
 number of singly occupied cells is read off the roll-up with a default of 0.
 A civilisation alone in its cell is "isolated" (undetected).
 */
module Collisions {
  import opened Sampler

  /** The distinct cells that occur in the sample. */
  function Elems(civs: seq<Loc>): set<Loc>
  {
    set t | t in civs
  }

  /** The cells occupied by exactly one civilisation of the sample. */
  function Isolated(civs: seq<Loc>): set<Loc>
  {
    set t | t in civs && multiset(civs)[t] == 1
  }

  /** The cells occupied by two or more civilisations of the sample. */
  function Overlapping(civs: seq<Loc>): set<Loc>
  {
    set t | t in civs && multiset(civs)[t] >= 2
  }

  /** No two civilisations of the sample share a cell. */
  predicate Distinct(civs: seq<Loc>)
  {
    forall i, j :: 0 <= i < j < |civs| ==> civs[i] != civs[j]
  }

  /** A Counter: its keys are exactly the cells of the sample, each mapped to its occupancy. */
  ghost predicate CountsOf(counts: map<Loc, nat>, civs: seq<Loc>)
  {
    && (forall t :: t in counts <==> t in civs)
    && (forall t :: t in counts ==> counts[t] == multiset(civs)[t])
  }

  /** Sum of the values of a map (the order in which keys are taken does not matter, see TotalRemove). */
  ghost function Total(m: map<Loc, nat>): nat
    decreases |m|
  {
    if m == map[] then 0
    else
      var k :| k in m;
      m[k] + Total(m - {k})
  }

  /** Removing any one key takes exactly its value off the total. */
  lemma {:induction false} TotalRemove(m: map<Loc, nat>, k: Loc)
    requires k in m
    ensures Total(m) == m[k] + Total(m - {k})
    decreases |m|
  {
    var j :| j in m && Total(m) == m[j] + Total(m - {j});
    if j != k {
      assert |m - {j}| < |m|;
      TotalRemove(m - {j}, k);
      assert (m - {j}) - {k} == (m - {k}) - {j};
      assert |m - {k}| < |m|;
      TotalRemove(m - {k}, j);
    }
  }

  /** Counting one more occurrence of t adds one to the total. */
  lemma TotalIncrement(m: map<Loc, nat>, t: Loc)
    ensures t in m ==> Total(m[t := m[t] + 1]) == Total(m) + 1
    ensures t !in m ==> Total(m[t := 1]) == Total(m) + 1
  {
    if t in m {
      var m' := m[t := m[t] + 1];
      TotalRemove(m', t);
      TotalRemove(m, t);
      assert m' - {t} == m - {t};
    } else {
      var m' := m[t := 1];
      TotalRemove(m', t);
      assert m' - {t} == m;
    }
  }

  /**
   Counter(civs): one pass over the sample, adding one to the cell's count (or
   starting it at 1). The result maps each cell of the sample to its occupancy,
   and the occupancies add up to the sample size.
   */
  method BuildCounter(civs: seq<Loc>) returns (counts: map<Loc, nat>)
    ensures forall t :: t in counts <==> t in civs
    ensures forall t :: t in counts ==> counts[t] == multiset(civs)[t] && counts[t] >= 1
    ensures Total(counts) == |civs|
  {
    counts := map[];
    var i := 0;
    while i < |civs|
      invariant i <= |civs|
      invariant CountsOf(counts, civs[..i])
      invariant Total(counts) == i
    {
      var t := civs[i];
      assert civs[..i + 1] == civs[..i] + [t];
      TotalIncrement(counts, t);
      if t in counts {
        counts := counts[t := counts[t] + 1];
      } else {
        counts := counts[t := 1];
      }
      i := i + 1;
    }
    assert civs[..i] == civs;
  }

  /** The keys of counts, among those in done, whose count is v. */
  function KeysWith(counts: map<Loc, nat>, done: set<Loc>, v: nat): set<Loc>
  {
    set k | k in counts && k in done && counts[k] == v
  }

  /**
   Counter(counts.values()): for each occupancy v that occurs, the number of
   cells with occupancy v; occupancies that occur nowhere are absent.
   */
  method RollUp(counts: map<Loc, nat>) returns (rollup: map<nat, nat>)
    ensures forall v :: v in rollup ==> rollup[v] == |KeysWith(counts, counts.Keys, v)| && rollup[v] >= 1
    ensures forall v :: v !in rollup ==> KeysWith(counts, counts.Keys, v) == {}
  {
    rollup := map[];
    var remaining := counts.Keys;
    while remaining != {}
      invariant remaining <= counts.Keys
      invariant forall v :: v in rollup ==> rollup[v] == |KeysWith(counts, counts.Keys - remaining, v)| && rollup[v] >= 1
      invariant forall v :: v !in rollup ==> KeysWith(counts, counts.Keys - remaining, v) == {}
      decreases remaining
    {
      var k :| k in remaining;
      ghost var done := counts.Keys - remaining;
      ghost var done' := done + {k};
      var c := counts[k];
      assert KeysWith(counts, done', c) == KeysWith(counts, done, c) + {k};
      assert k !in KeysWith(counts, done, c);
      assert forall v :: v != c ==> KeysWith(counts, done', v) == KeysWith(counts, done, v);
      if c in rollup {
        rollup := rollup[c := rollup[c] + 1];
      } else {
        rollup := rollup[c := 1];
      }
      remaining := remaining - {k};
      assert counts.Keys - remaining == done';
    }
    assert counts.Keys - remaining == counts.Keys;
  }

  /**
   Isolated count of one sample: Counter, roll-up, and the roll-up's entry for
   occupancy 1 (0 when no cell is singly occupied). It is the number of cells
   holding exactly one civilisation, and at most the sample size.
   */
  method CountIsolated(civs: seq<Loc>) returns (isolated: nat)
    ensures isolated == |Isolated(civs)|
    ensures isolated <= |civs|
  {
    var counts := BuildCounter(civs);
    var rollup := RollUp(counts);
    isolated := if 1 in rollup then rollup[1] else 0;
    assert KeysWith(counts, counts.Keys, 1) == Isolated(civs);
    IsolatedBound(civs);
  }

  /** A sample of n civilisations occupies at most n distinct cells. */
  lemma {:induction false} ElemsBound(civs: seq<Loc>)
    ensures |Elems(civs)| <= |civs|
    ensures Distinct(civs) <==> |Elems(civs)| == |civs|
  {
    if civs != [] {
      var rest := civs[1..];
      ElemsBound(rest);
      assert Elems(civs) == {civs[0]} + Elems(rest);
      if civs[0] in rest {
        assert Elems(civs) == Elems(rest);
        var j :| 0 <= j < |rest| && rest[j] == civs[0];
        assert civs[0] == civs[j + 1];
      } else {
        if Distinct(rest) {
          forall i, j | 0 <= i < j < |civs| ensures civs[i] != civs[j] {
            if i == 0 {
              assert civs[j] == rest[j - 1];
            } else {
              assert civs[i] == rest[i - 1] && civs[j] == rest[j - 1];
            }
          }
        } else {
          var i, j :| 0 <= i < j < |rest| && rest[i] == rest[j];
          assert civs[i + 1] == civs[j + 1];
        }
      }
    }
  }

  /** A subset is no larger than its superset. */
  lemma SubsetSize(a: set<Loc>, b: set<Loc>)
    requires a <= b
    ensures |a| <= |b|
  {
    assert b == a + (b - a);
    assert a * (b - a) == {};
  }

  /** The isolated count never exceeds the sample size. */
  lemma IsolatedBound(civs: seq<Loc>)
    ensures |Isolated(civs)| <= |civs|
  {
    SubsetSize(Isolated(civs), Elems(civs));
    ElemsBound(civs);
  }

  /** In a sample without shared cells every cell has occupancy 1. */
  lemma {:induction false} DistinctOccupancy(civs: seq<Loc>, t: Loc)
    requires Distinct(civs) && t in civs
    ensures multiset(civs)[t] == 1
  {
    var rest := civs[1..];
    assert civs == [civs[0]] + rest;
    assert Distinct(rest) by {
      forall i, j | 0 <= i < j < |rest| ensures rest[i] != rest[j] {
        assert rest[i] == civs[i + 1] && rest[j] == civs[j + 1];
      }
    }
    if civs[0] == t {
      assert t !in rest;
    } else {
      DistinctOccupancy(rest, t);
    }
  }

  /**
   Every civilisation is isolated exactly when no two share a cell: the
   isolated count equals the sample size if and only if the sample is distinct.
   */
  lemma IsolatedAllIffDistinct(civs: seq<Loc>)
    ensures |Isolated(civs)| == |civs| <==> Distinct(civs)
  {
    ElemsBound(civs);
    SubsetSize(Isolated(civs), Elems(civs));
    if |Isolated(civs)| == |civs| {
      if Isolated(civs) != Elems(civs) {
        assert Isolated(civs) < Elems(civs);
        assert exists t :: t in Elems(civs) && t !in Isolated(civs);
        var t :| t in Elems(civs) && t !in Isolated(civs);
        SubsetSize(Isolated(civs), Elems(civs) - {t});
      }
    }
    if Distinct(civs) {
      forall t | t in civs ensures multiset(civs)[t] == 1 {
        DistinctOccupancy(civs, t);
      }
      assert Isolated(civs) == Elems(civs);
    }
  }

  /** When all n civilisations sit in the same cell t, t has occupancy n. */
  lemma {:induction false} SameCellOccupancy(civs: seq<Loc>, t: Loc)
    requires forall i :: 0 <= i < |civs| ==> civs[i] == t
    ensures multiset(civs)[t] == |civs|
  {
    if civs != [] {
      assert civs == [t] + civs[1..];
      SameCellOccupancy(civs[1..], t);
    }
  }

  /** Two or more civilisations all in one cell: none is isolated. */
  lemma AllSameNoneIsolated(civs: seq<Loc>)
    requires |civs| >= 2
    requires forall i :: 0 <= i < |civs| ==> civs[i] == civs[0]
    ensures |Isolated(civs)| == 0
  {
    SameCellOccupancy(civs, civs[0]);
    forall t | t in civs ensures t == civs[0] {
    }
    assert Isolated(civs) == {};
  }

  /** Every cell of the sample is either isolated or overlapping, never both. */
  lemma IsolatedOverlappingPartition(civs: seq<Loc>)
    ensures Isolated(civs) !! Overlapping(civs)
    ensures Isolated(civs) + Overlapping(civs) == Elems(civs)
    ensures |Isolated(civs)| + |Overlapping(civs)| == |Elems(civs)|
  {
  }
}
