/**
 Placement of civilisations in the Monte Carlo box. The box is the integer grid
 [0, side] x [0, side] x [0, height] (both ends included). Which point a draw
 picks is left open: the model only promises that it lies in the box.
 */
module Sampler {

  /** One grid cell, given by its integer coordinates. */
  datatype Loc = Loc(x: int, y: int, z: int)

  /** The cell lies in the box, bounds included on both ends. */
  predicate InBox(l: Loc, side: nat, ht: nat)
  {
    0 <= l.x <= side && 0 <= l.y <= side && 0 <= l.z <= ht
  }

  /** Every cell of the sequence lies in the box. */
  predicate AllInBox(civs: seq<Loc>, side: nat, ht: nat)
  {
    forall i :: 0 <= i < |civs| ==> InBox(civs[i], side, ht)
  }

  /** Draws one integer uniformly in [0, hi]; here: any integer in that range. */
  method RandInt(hi: nat) returns (v: int)
    ensures 0 <= v <= hi
  {
    v :| 0 <= v <= hi;
  }

  /** A location for one civilisation: x and y in [0, side], z in [0, ht]. */
  method CivLocation(side: nat, ht: nat) returns (l: Loc)
    ensures InBox(l, side, ht)
  {
    var x := RandInt(side);
    var y := RandInt(side);
    var z := RandInt(ht);
    l := Loc(x, y, z);
  }

  /** One case's sample: exactly n locations, appended one by one, all in the box. */
  method DrawLocations(n: nat, side: nat, ht: nat) returns (civs: seq<Loc>)
    ensures |civs| == n
    ensures AllInBox(civs, side, ht)
  {
    civs := [];
    var i := 0;
    while i < n
      invariant i <= n
      invariant |civs| == i
      invariant AllInBox(civs, side, ht)
    {
      var l := CivLocation(side, ht);
      civs := civs + [l];
      i := i + 1;
    }
  }
}
