/**
 The Monte Carlo overlap engine. Its inputs are the integer results of the
 grid sizing: the volume-adjusted civilisation count (already rounded), the
 box extents, and the extent the box takes if it has to be shrunk. It
 shrinks the model once if the count is too large, runs the cases, and turns
 the isolated counts into two detection probabilities.
 */
module MonteCarloEngine {
  import opened Sampler
  import opened Collisions

  /** Above this many civilisations the model is shrunk. */
  const MaxCivs: nat := 10_000_000

  /** Box extents: x and y range over [0, side], z over [0, ht]. */
  datatype Grid = Grid(side: nat, ht: nat)

  /** What the cases run on: the number of civilisations per case and the box. */
  datatype Model = Model(civs: nat, grid: Grid)

  /** ceil(n / 4), the count after the model is shrunk to a quarter. */
  function CeilQuarter(n: nat): (q: nat)
    ensures 4 * q >= n
    ensures 4 * q < n + 4
  {
    (n + 3) / 4
  }

  /**
   The size reduction. Only a count above MaxCivs triggers it, and it is
   applied a single time: the count becomes ceil(n / 4) and the box becomes
   cubic with the given side; otherwise count and box are left as they are.
   */
  function Reduce(n: nat, grid: Grid, reducedSide: nat): (m: Model)
    ensures n > MaxCivs ==> 4 * m.civs >= n && 4 * m.civs < n + 4
    ensures n > MaxCivs ==> m.grid.side == reducedSide && m.grid.ht == reducedSide
    ensures n <= MaxCivs ==> m.civs == n && m.grid == grid
    ensures m.civs <= n
    ensures n > 0 ==> m.civs > 0
  {
    if n > MaxCivs then Model(CeilQuarter(n), Grid(reducedSide, reducedSide)) else Model(n, grid)
  }

  /** The reduction is not repeated: a count above 4 * MaxCivs stays above MaxCivs. */
  lemma ReductionAppliedOnce(n: nat, grid: Grid, reducedSide: nat)
    requires n > 4 * MaxCivs
    ensures Reduce(n, grid, reducedSide).civs > MaxCivs
  {
  }

  /**
   Probability of detection from an undetected (isolated) count out of n
   civilisations: 1 - undetected / n. It is 1 exactly when nobody is isolated
   and 0 exactly when everybody is.
   */
  function DetectionProbability(undetected: nat, n: nat): (p: real)
    requires n > 0
    ensures undetected <= n ==> 0.0 <= p <= 1.0
    ensures p == 1.0 <==> undetected == 0
    ensures p == 0.0 <==> undetected == n
  {
    1.0 - undetected as real / n as real
  }

  /** Running total of the isolated counts, case by case. */
  function SumIsolated(cases: seq<seq<Loc>>): nat
  {
    if cases == [] then 0
    else SumIsolated(cases[..|cases| - 1]) + |Isolated(cases[|cases| - 1])|
  }

  /** With n civilisations per case, the total over k cases is at most k * n. */
  lemma {:induction false} SumIsolatedBound(cases: seq<seq<Loc>>, n: nat)
    requires forall i :: 0 <= i < |cases| ==> |cases[i]| == n
    ensures SumIsolated(cases) <= |cases| * n
  {
    if cases != [] {
      var k := |cases|;
      SumIsolatedBound(cases[..k - 1], n);
      IsolatedBound(cases[k - 1]);
      assert (k - 1) * n + n == k * n;
    }
  }

  /** The last case's isolated count is part of the total. */
  lemma LastWithinTotal(cases: seq<seq<Loc>>)
    requires cases != []
    ensures |Isolated(cases[|cases| - 1])| <= SumIsolated(cases)
  {
  }

  /**
   What a case's probability says about its sample: detection is impossible
   (probability 0) exactly when no two civilisations share a cell, and certain
   (probability 1) when two or more all share one cell.
   */
  lemma CaseProbabilityExtremes(civs: seq<Loc>)
    requires |civs| > 0
    ensures DetectionProbability(|Isolated(civs)|, |civs|) == 0.0 <==> Distinct(civs)
    ensures |civs| >= 2 && (forall i :: 0 <= i < |civs| ==> civs[i] == civs[0]) ==>
      DetectionProbability(|Isolated(civs)|, |civs|) == 1.0
  {
    IsolatedAllIffDistinct(civs);
    if |civs| >= 2 && (forall i :: 0 <= i < |civs| ==> civs[i] == civs[0]) {
      AllSameNoneIsolated(civs);
    }
  }

  /**
   One case: draw n locations in the box, count them, and read off how many
   cells hold exactly one civilisation.
   */
  method RunCase(n: nat, side: nat, ht: nat) returns (isolated: nat, ghost civs: seq<Loc>)
    ensures |civs| == n && AllInBox(civs, side, ht)
    ensures isolated == |Isolated(civs)|
    ensures isolated <= n
  {
    var sample := DrawLocations(n, side, ht);
    isolated := CountIsolated(sample);
    civs := sample;
  }

  /**
   The case loop: every case runs on the same count and box; the running total
   is the sum of all cases' isolated counts and the last case's count is kept
   on its own.
   */
  method RunCases(numCases: nat, numCivs: nat, side: nat, ht: nat)
    returns (numUndetected: nat, totUndetected: nat, ghost cases: seq<seq<Loc>>)
    requires numCases >= 1
    ensures |cases| == numCases
    ensures forall i :: 0 <= i < numCases ==> |cases[i]| == numCivs && AllInBox(cases[i], side, ht)
    ensures numUndetected == |Isolated(cases[numCases - 1])|
    ensures totUndetected == SumIsolated(cases)
    ensures numUndetected <= numCivs
    ensures totUndetected <= numCases * numCivs
  {
    totUndetected := 0;
    // numCases >= 1, so this placeholder is overwritten before it is read
    numUndetected := 0;
    cases := [];
    var caseNo := 0;
    while caseNo < numCases
      invariant caseNo <= numCases
      invariant |cases| == caseNo
      invariant forall i :: 0 <= i < caseNo ==> |cases[i]| == numCivs && AllInBox(cases[i], side, ht)
      invariant totUndetected == SumIsolated(cases)
      invariant caseNo > 0 ==> numUndetected == |Isolated(cases[caseNo - 1])|
      invariant numUndetected <= numCivs
    {
      var isolated, civs := RunCase(numCivs, side, ht);
      numUndetected := isolated;
      assert (cases + [civs])[..caseNo] == cases;
      cases := cases + [civs];
      totUndetected := totUndetected + isolated;
      caseNo := caseNo + 1;
    }
    SumIsolatedBound(cases, numCivs);
  }

  /**
   The whole simulation. The cases all run on the (possibly reduced) model;
   the single-case probability comes from the last case only, the overall
   one from the total over all cases. Both lie in [0, 1].
   */
  method MonteCarlo(n: nat, grid: Grid, reducedSide: nat, numCases: nat)
    returns (singleProb: real, totalProb: real, ghost cases: seq<seq<Loc>>)
    requires n > 0
    requires numCases >= 1
    ensures var m := Reduce(n, grid, reducedSide);
      && |cases| == numCases
      && (forall i :: 0 <= i < numCases ==> |cases[i]| == m.civs && AllInBox(cases[i], m.grid.side, m.grid.ht))
      && numCases * m.civs > 0
      && singleProb == DetectionProbability(|Isolated(cases[numCases - 1])|, m.civs)
      && totalProb == DetectionProbability(SumIsolated(cases), numCases * m.civs)
    ensures 0.0 <= singleProb <= 1.0
    ensures 0.0 <= totalProb <= 1.0
  {
    var numCivs, side, ht := n, grid.side, grid.ht;
    if numCivs > MaxCivs {
      side := reducedSide;
      ht := side;
      numCivs := CeilQuarter(numCivs);
    }
    assert Model(numCivs, Grid(side, ht)) == Reduce(n, grid, reducedSide);

    var numUndetected, totUndetected;
    numUndetected, totUndetected, cases := RunCases(numCases, numCivs, side, ht);

    singleProb := DetectionProbability(numUndetected, numCivs);
    totalProb := DetectionProbability(totUndetected, numCases * numCivs);
  }
}
