# Galaxy radio-bubble overlap: Monte Carlo engine

This project models the Monte Carlo engine of the galaxy simulator in
`galaxy_simulator.py`. The simulator spreads civilisations over a rectangular
box of integer cells. One cell has the volume of one radio bubble, so
civilisations that share a cell can detect each other. Civilisations alone in
their cell are "isolated", which means undetected.

The engine has these parts:

- It shrinks the model once when the volume-adjusted civilisation count is
  above 10,000,000.
- Each case draws one location per civilisation with `civ_locations`.
- Each case tallies the drawn locations with a `Counter`, rolls the
  occupancies up again with a second `Counter`, and reads off how many cells
  hold exactly one civilisation.
- It adds up those isolated counts over all cases and keeps the last case's
  count on its own.
- It returns the single-case probability of detection, computed from the last
  case only, and the overall probability over all cases.
- A separate setting caps the radio-bubble diameter at 500 light-years.

Modules:

- `Bubble` (`bubble.dfy`) caps the bubble diameter.
- `Sampler` (`sampler.dfy`) defines cell locations, the box, the sampler and
  the per-case draw loop.
- `Collisions` (`collisions.dfy`) builds the Counter and its roll-up, defines
  the isolated count, and proves its properties.
- `MonteCarloEngine` (`monte_carlo.dfy`) holds the size reduction, the case
  loop and the two probabilities.

The engine first sizes the grid in floating point from module constants
(galaxy_simulator.py:105-116). The model takes the integer results of that
sizing as parameters:

- the rounded volume-adjusted count `n`;
- the box extents `mcs_side` and `mcs_ht`;
- the side the box gets when it is shrunk.

`NUM_CASES` is a module constant in the source. Here it is the parameter
`numCases`.

`MonteCarlo` requires `n > 0` and `numCases >= 1`. In the source, `n == 0`
ends in a division by zero at line 141. `NUM_CASES == 0` leaves
`num_undetected` unbound at line 141. The source handles neither case, so the
model rules both out.

The single-case probability uses only the last case's isolated count. It is not
an average over the cases. The model keeps this as written.

## Model

| member | source | states |
|---|---|---|
| Bubble.ClampDiameter | galaxy_simulator.py:24-25 | the effective diameter is at most 500 and never above the configured one; it equals the configured one exactly when that is at most 500, and is 500 otherwise |
| Sampler.RandInt | galaxy_simulator.py:87-89 | a draw of `randint(0, hi)` lies in [0, hi], both ends included |
| Sampler.CivLocation | galaxy_simulator.py:85-90 | the returned triple lies in the box: 0 <= x, y <= mcs_side and 0 <= z <= mcs_ht |
| Sampler.DrawLocations | galaxy_simulator.py:132-134 | a case's list holds exactly num_civs locations, every one inside the box |
| Collisions.TotalRemove | galaxy_simulator.py:135 | the sum of the Counter's values does not depend on the order its keys are visited: taking one key out takes exactly its count off the sum |
| Collisions.TotalIncrement | galaxy_simulator.py:135 | counting one more occurrence of a location (new key at 1 or existing key plus 1) adds one to the sum of counts |
| Collisions.BuildCounter | galaxy_simulator.py:135 | `Counter(mcs_civs)` has exactly the drawn locations as keys, each mapped to its number of occurrences (at least 1), and its counts sum to the number of locations drawn |
| Collisions.RollUp | galaxy_simulator.py:136 | `Counter(overlap_count.values())` maps each occupancy that occurs to the number of cells with that occupancy (at least 1); an occupancy that no cell has is absent |
| Collisions.CountIsolated | galaxy_simulator.py:135-137 | the roll-up's entry for 1, with a default of 0, is the number of cells holding exactly one civilisation, and it is at most the number of civilisations |
| Collisions.ElemsBound | galaxy_simulator.py:135 | the Counter has at most as many keys as locations drawn, and exactly as many if and only if no two locations coincide |
| Collisions.IsolatedBound | galaxy_simulator.py:135-137 | the isolated count lies between 0 and num_civs |
| Collisions.DistinctOccupancy | galaxy_simulator.py:135 | when no two locations coincide, every Counter entry is 1 |
| Collisions.IsolatedAllIffDistinct | galaxy_simulator.py:135-137 | the isolated count equals num_civs if and only if all drawn locations are pairwise distinct |
| Collisions.SameCellOccupancy | galaxy_simulator.py:135 | when all n locations are the same cell, that cell's count is n |
| Collisions.AllSameNoneIsolated | galaxy_simulator.py:135-137 | two or more civilisations all in one cell give an isolated count of 0 |
| Collisions.IsolatedOverlappingPartition | galaxy_simulator.py:135-137 | every drawn cell is either isolated (count 1) or overlapping (count 2 or more), never both, so the two counts add up to the number of distinct cells |
| MonteCarloEngine.CeilQuarter | galaxy_simulator.py:124 | `math.ceil(num_civs / 4)`: the least q with 4q >= num_civs |
| MonteCarloEngine.Reduce | galaxy_simulator.py:119-125 | the reduction fires only when num_civs > 10,000,000; then num_civs becomes ceil(num_civs / 4) and mcs_ht equals the new mcs_side; otherwise count and box are unchanged; the count never grows and stays positive |
| MonteCarloEngine.ReductionAppliedOnce | galaxy_simulator.py:120-125 | the reduction is applied once only: a count above 40,000,000 is still above the ceiling afterwards and is used as it is |
| MonteCarloEngine.DetectionProbability | galaxy_simulator.py:141-142 | `1 - undetected / n` lies in [0, 1] when undetected <= n; it is 1 exactly when nobody is isolated and 0 exactly when everybody is |
| MonteCarloEngine.SumIsolatedBound | galaxy_simulator.py:129-139 | over k cases of n civilisations each, the accumulated `tot_undetected` is at most k * n |
| MonteCarloEngine.LastWithinTotal | galaxy_simulator.py:137-139 | the last case's isolated count is included in the accumulated total |
| MonteCarloEngine.CaseProbabilityExtremes | galaxy_simulator.py:135-141 | a case's detection probability is 0 exactly when no two civilisations share a cell, and 1 when two or more all share one cell |
| MonteCarloEngine.RunCase | galaxy_simulator.py:131-138 | one case draws num_civs locations inside the box and returns the number of cells holding exactly one of them, which is at most num_civs |
| MonteCarloEngine.RunCases | galaxy_simulator.py:129-139 | after the loop there are NUM_CASES cases of num_civs in-box locations each; `tot_undetected` is the sum of every case's isolated count (at most NUM_CASES * num_civs) and `num_undetected` is the last case's count |
| MonteCarloEngine.MonteCarlo | galaxy_simulator.py:102-143 | every case runs on the once-reduced model: it draws that many locations inside that box. `single_prob` is computed from the last case's isolated count. `total_prob` is computed from the sum of all cases' isolated counts over NUM_CASES * num_civs. Both lie in [0, 1] |

## Left out

- The floating-point grid sizing is not modelled. The model takes its rounded
  integer results as inputs. This covers `em_vol`, `disc_vol_scaled`,
  `disc_radius_scaled`, the cell side, `mcs_side`, `mcs_ht`, `vol_diff`, the
  rounded adjusted count and the cube-root side after reduction
  (galaxy_simulator.py:34-36, 107-116, 121-122).
- `disc_vol` is reassigned in the reduction branch (line 125). It is not
  modelled because nothing reads it afterwards.
- MonteCarloEngine.CeilQuarter: the exact integer ceiling is modelled. The
  source computes `num_civs / 4` in floating point, which can round for
  counts above 2^53.
- MonteCarloEngine.DetectionProbability: the probabilities are exact reals.
  The source computes them in floating point.
- Sampler.RandInt: the model promises only the range of `randint`. Which
  value it picks, and how values are distributed, is not modelled.
- Sampler.CivLocation requires both extents to be non-negative. For a negative
  extent `randint` raises an error, which the model does not represent.
- The `print` diagnostics are I/O and are not modelled.
- The tkinter rendering is not modelled. This covers canvas setup, `spirals`,
  `star_haze` and the display code in `main`.
- `civ__for_display` is not modelled. It is cosmetic rejection sampling over
  floats and does not affect the probabilities.
- `empire_practice.py` is not part of this model. It is drawing and
  animation only.
