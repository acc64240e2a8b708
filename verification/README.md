# Hex grid and player-loop utilities, in Dafny

This project models two parts of a Unity utility library.

- **The integer hex grid** (`Hex`, Extensions/Hex.cs, with `CellToHex` from
  Extensions/HexExtensions.cs). A hex is an axial pair `(q, r)` with the derived
  cube coordinate `s = -q - r`. The model covers:
  - hex arithmetic and the 60-degree rotations;
  - `Length` and `Distance`, including the `int.MinValue` guard;
  - the direction and diagonal tables and the neighbour queries;
  - the disk enumeration `HexRange` and `Neighbors`;
  - the layer-by-layer flood fill `ReachableHexes`;
  - the ring search `GetClosestValidNeighbor`;
  - `ExtendLine`;
  - the "odd-row" conversion between hexes and the engine's offset grid cells (`ToCell`, `CellToHex`).
- **Player-loop editing** (Tools/PlayerLoopUtils.cs). A `PlayerLoopSystem` is a tree whose nodes
  have a type, an update delegate and a possibly null list of sub-systems. The model covers:
  - `InsertSystem`/`HandleSubSystem`: insert into the first node of a type, in pre-order;
  - `RemoveSystem`/`HandleSubSystemForRemoval`: delete matching sub-systems at every level;
  - `PrintPlayerLoop`/`PrintSubSystem`: the indented outline.

Modules follow the source's structure:

| file | module | what it holds |
|---|---|---|
| int32.dfy | `Int32` | C#'s `int` range, unchecked wrap-around, `& 1`, truncating `/` |
| hex.dfy | `HexCore` | `Hex`, arithmetic, `Length`/`Distance`, rotation |
| directions.dfy | `HexDirections` | direction/diagonal tables, neighbours, `GetDirection` |
| cells.dfy | `HexCells` | `ToCell` and `CellToHex`, with wrap-around written out |
| ranges.dfy | `HexRanges` | `HexRange`, `Neighbors`, ordering and cardinality |
| enumerable.dfy | `Enumerable` | LINQ `Except` |
| floodfill.dfy | `FloodFill` | the flood fill over an arbitrary adjacency, with a reference definition |
| reachable.dfy | `Reachability` | `ReachableHexes` on the hex grid |
| closest.dfy | `ClosestValid` | `GetClosestValidNeighbor` |
| lines.dfy | `HexLines` | both `ExtendLine` overloads |
| playerloop.dfy | `PlayerLoop` | the system tree, paths, grafting |
| insertion.dfy | `LoopInsertion` | `InsertSystem` |
| removal.dfy | `LoopRemoval` | `RemoveSystem` |
| printing.dfy | `LoopPrint` | `PrintPlayerLoop` |
| wrappers.dfy | `Wrappers` | `Option` |

Arithmetic is over mathematical integers. Two places use C#'s 32-bit behaviour exactly:
- the `Length` guard;
- `ToCell`/`CellToHex`, where wrap-around is written out so both round trips hold for every `int` hex and cell, the `int.MinValue` rows (whose negation wraps) included.

Points worth knowing:
- `RemoveSystem` keeps the source's loop quirk: after a deletion the index still advances. So, of two adjacent matching systems, the second survives the pass at that level (`LoopRemoval.PassHalvesRun`).
- `GetClosestValidNeighbor` ranks candidates by hex `Distance` (Extensions/Hex.cs:264).
- `Invalid` is itself a hex, `(int.MinValue, int.MinValue)`. If it is a free hex within `maxRange` of the centre, `GetClosestValidNeighbor` may return it as the hex found, and the caller cannot tell that from "nothing found".
- The random tie-break, `Randomize` (Extensions/IEnumerableExtensions.cs:13), is a parameter `shuffle`. It may be any function that permutes every list.
- `InsertSystem` has three outcomes:
  - `Done(tree)`: returned `true`.
  - `Missing`: returned `false`. No assignment happens on that path, so the caller's tree is unchanged.
  - `OutOfRange`: the exception `List.Insert` throws for an index outside `0..Count`.
- `PrintPlayerLoop` yields `None` when the top-level list is null, because the source's `foreach` throws there. Otherwise it yields the sequence of printed lines.
- Line `k + 1` of the printout is the `k`-th system of the ghost listing `PlayerLoop.PreOrder`, which enumerates every path of the tree once, parents before children and siblings in order.

## Model

| member | source | states |
|---|---|---|
| HexCore.IsValid | Extensions/Hex.cs:68 | a hex is valid when it is not the `Invalid` sentinel; `GetClosestValidNeighbor` states what a valid result means |
| HexCore.Add | Extensions/Hex.cs:88 | the sum's `s` is the sum of the two `s` coordinates |
| HexCore.Subtract | Extensions/Hex.cs:89 | adding `b` back to `a - b` gives `a`; `s` subtracts too |
| HexCore.AddSubtractRoundTrip | Extensions/Hex.cs:88-89 | `a.Add(b).Subtract(b) == a` and `a.Subtract(b).Add(b) == a` |
| HexCore.AddCommutes | Extensions/Hex.cs:88 | addition is commutative |
| HexCore.AddAssociates | Extensions/Hex.cs:88 | addition is associative |
| HexCore.Scale | Extensions/Hex.cs:90 | `Scale(k)`, which is also what `operator *(Hex, int)` at line 83 computes; characterised by `ScaleNorm` and `ScaleStep` |
| HexCore.ScaleNorm | Extensions/Hex.cs:90 | the cube coordinate `s` scales by `k` too, and the length is multiplied by `abs k` |
| HexCore.ScaleStep | Extensions/Hex.cs:90 | scaling by `k + 1` is scaling by `k` plus one more copy of the vector |
| HexCore.Norm | Extensions/Hex.cs:106-113 | twice the hex length is exactly `abs q + abs r + abs s`, so the source's halving is exact; the length is 0 only at the origin |
| HexCore.GridDistance | Extensions/Hex.cs:115 | the distance is 0 exactly when the hexes are equal |
| HexCore.GridDistanceSymmetric | Extensions/Hex.cs:115 | distance is symmetric |
| HexCore.NormTriangle | Extensions/Hex.cs:106-113 | the length of a sum is at most the sum of lengths |
| HexCore.DistanceTriangle | Extensions/Hex.cs:115 | distance obeys the triangle inequality |
| HexCore.Length | Extensions/Hex.cs:106-113 | `int.MaxValue` when `q`, `r` or the `int`-computed `s` is `int.MinValue`; otherwise the hex length; never negative; 0 exactly at the origin |
| HexCore.Distance | Extensions/Hex.cs:115 | the hex distance, or `int.MaxValue` when the difference hits the guard |
| HexCore.DistanceToSelf | Extensions/Hex.cs:115 | `Distance(a, a) == 0` for every `int` hex |
| HexCore.DistanceSymmetric | Extensions/Hex.cs:115 | `Distance(a, b) == Distance(b, a)` wherever both are computable, the guard branch included |
| HexCore.Rotate | Extensions/Hex.cs:96 | a 60-degree turn shifts the three cube coordinates cyclically and negates them, `s` included: clockwise `(q, r, s)` becomes `(-r, -s, -q)`, counter-clockwise `(-s, -q, -r)`; its further properties are the `Rotate…` lemmas below |
| HexCore.RotateKeepsLength | Extensions/Hex.cs:96 | a 60-degree turn keeps the length and maps only the origin to the origin |
| HexCore.RotateInverse | Extensions/Hex.cs:96 | the clockwise and counter-clockwise turns undo each other |
| HexCore.HalfTurnNegates | Extensions/Hex.cs:96 | three turns negate the hex |
| HexCore.SixTurnsAreIdentity | Extensions/Hex.cs:96 | six turns in either sense are the identity |
| HexCore.RotateTimesSplits | Extensions/Hex.cs:96 | `m + n` turns are `m` turns followed by `n` turns |
| HexCore.RotateIsLinear | Extensions/Hex.cs:96 | a turn of a sum is the sum of the turns |
| HexCore.RotateAroundCenter | Extensions/Hex.cs:98-103 | the distance to `center` is kept, and `center` is the only hex mapped to `center` |
| HexCore.RotateAroundCenterInverse | Extensions/Hex.cs:98-103 | turning about `center` one way and back returns the hex |
| Int32.LowBitIsEuclideanParity | Extensions/Hex.cs:122 | `r & 1` on an `int` is the Euclidean remainder `r mod 2`, also for negative `r` |
| Int32.TruncHalf | Extensions/Hex.cs:122 | C#'s `/ 2` rounds toward zero: the remainder lies in `0..1` for a non-negative dividend and in `-1..0` for a negative one |
| Int32.HalveWithoutParity | Extensions/Hex.cs:122 | `r - (r & 1)` is even, so C#'s truncating `/ 2` is exact and equals the floor of `r / 2` |
| HexDirections.Direction | Extensions/Hex.cs:145-155 | each of the six steps has length 1; `Zero` and undefined enum values give `zero` |
| HexDirections.StepsEnumerateDirections | Extensions/Hex.cs:29-38 | the six step directions are exactly the enum values other than `Zero` |
| HexDirections.StepVectorsDistinct | Extensions/Hex.cs:145-155 | the six step vectors are pairwise distinct |
| HexDirections.StepVectorsAreUnitHexes | Extensions/Hex.cs:145-155 | a hex has length 1 exactly when it is one of the six step vectors |
| HexDirections.RotationPermutesSteps | Extensions/Hex.cs:145-155 | turning a step vector gives another step vector of the table |
| HexDirections.Diagonal | Extensions/Hex.cs:184-193 | each of the six diagonals has length 2; undefined values give `zero` |
| HexDirections.DiagonalVectorsDistinct | Extensions/Hex.cs:184-193 | the six diagonal vectors are pairwise distinct |
| HexDirections.DiagonalOffLines | Extensions/Hex.cs:184-193 | no diagonal is twice a step |
| HexDirections.DiagonalIsTwoSteps | Extensions/Hex.cs:184-193 | every diagonal is the sum of two different steps |
| HexDirections.GetNeighbor | Extensions/Hex.cs:196 | a step neighbour is at distance 1; `Zero` or an undefined direction gives the hex itself |
| HexDirections.GetDiagonalNeighbor | Extensions/Hex.cs:199 | a diagonal neighbour is at distance 2; an undefined diagonal gives the hex itself |
| HexDirections.GetDirection | Extensions/Hex.cs:157-162 | `Zero` exactly when the two hexes coincide; the rounding branch for distinct hexes is not modelled |
| HexCells.RowShiftHalves | Extensions/Hex.cs:122 | the row shift `(r - (r & 1)) / 2` is the floor of `r / 2` for every `int` row |
| HexCells.ToCell | Extensions/Hex.cs:122 | the cell fits `int` and has `z == 0` (its coordinates: `ToCellCoordinates`, `CellRoundTrip`) |
| HexCells.ToCellCoordinates | Extensions/Hex.cs:122 | away from overflow the cell is `(q + floor(r / 2), -r, 0)` |
| HexCells.CellToHex | Extensions/HexExtensions.cs:11 | the hex fits `int` (its coordinates: `CellToHexCoordinates`, `HexRoundTrip`) |
| HexCells.CellToHexCoordinates | Extensions/HexExtensions.cs:11 | away from overflow the hex is `(x - floor(-y / 2), -y)`; the cell's `z` is ignored |
| HexCells.CellRoundTrip | Extensions/HexExtensions.cs:11 | `CellToHex(ToCell(h)) == h` for every `int` hex, wrap-around included |
| HexCells.HexRoundTrip | Extensions/HexExtensions.cs:11 | `ToCell(CellToHex(c)) == (c.x, c.y, 0)` for every `int` cell |
| HexCells.NextColumnIsRightNeighbour | Extensions/HexExtensions.cs:11 | the next cell to the right is the `right` neighbour of the hex |
| HexCells.NextRowIsNeighbour | Extensions/HexExtensions.cs:11 | vertically adjacent cells map to adjacent hexes, whatever the row's parity |
| HexRanges.RowOffsets | Extensions/Hex.cs:210-216 | the inner loop yields exactly the row's hexes between the column bounds, the centre skipped when excluded, in column order, with that many elements |
| HexRanges.RowBoundsAreDisk | Extensions/Hex.cs:207-208 | the loop's column bounds for a row are exactly the disk's hexes in that row |
| HexRanges.RowsFrom | Extensions/Hex.cs:205-217 | the outer loop from a row on yields exactly the disk hexes of those rows, ordered, with the closed-form count |
| HexRanges.HexRange | Extensions/Hex.cs:201-220 | exactly the hexes within `range` (the centre dropped when excluded), no duplicates, ordered by row then column, `3n² + 3n + 1` of them (one fewer when excluding), empty for a negative range |
| HexRanges.Neighbors | Extensions/Hex.cs:197 | exactly the six hexes at distance 1, no duplicates |
| HexRanges.NeighborsOrder | Extensions/Hex.cs:197 | the neighbours are the offsets `(0,-1), (1,-1), (-1,0), (1,0), (-1,1), (0,1)` in that order |
| HexRanges.NeighborDistance | Extensions/Hex.cs:197 | stepping to a neighbour changes the distance to any hex by at most one |
| HexRanges.TowardsIsCloser | Extensions/Hex.cs:197 | every hex other than `c` has a neighbour one step closer to `c` |
| Enumerable.Except | Extensions/Hex.cs:258 | LINQ `Except`: the elements of the first list not in the second, without repeats, as a subsequence of the first |
| Enumerable.ExceptIsFirstOccurrences | Extensions/Hex.cs:258 | `Except` is exactly the reference `FirstOccurrences`: element `k` of the first list is kept iff it is not in the second list and not earlier in the first, in the first list's order |
| Enumerable.ExceptMatchesReference | Extensions/Hex.cs:258 | the hash-set loop `ExceptSet` agrees with the reference `FirstOccurrences` on every input |
| Enumerable.ExceptSetSnoc | Extensions/Hex.cs:258 | appending an element to the input appends it to the output exactly when it is neither seen nor already present |
| FloodFill.OpenNeighbors | Extensions/Hex.cs:237 | the result holds exactly the hexes of the neighbour list that are in neither the obstructed nor the visited list, each once |
| FloodFill.OpenNeighborsOrder | Extensions/Hex.cs:237 | the open neighbours come in neighbour order, each hex at its first occurrence (the reference `FirstOccurrences`) |
| FloodFill.FrontierSuffices | Extensions/Hex.cs:235 | expanding only the last fringe reaches everything one step further |
| FloodFill.ExpandFringeAppends | Extensions/Hex.cs:235-245 | one fringe only appends to `visited`; it appends the same hexes to the next fringe; each appended hex is unobstructed and new; no duplicates arise |
| FloodFill.ExpandFringeReaches | Extensions/Hex.cs:235-245 | after one fringe `visited` holds what it held plus the unobstructed neighbours of the fringe |
| FloodFill.LayerStep | Extensions/Hex.cs:233-245 | expanding the fringe of layer `i - 1` gives exactly layer `i`: all within `i` steps, fringe = first reached at `i` |
| FloodFill.LayersReach | Extensions/Hex.cs:231-246 | after `k` layers the loop state is the reference layer `k`, with no duplicates |
| FloodFill.FloodFollowsLayers | Extensions/Hex.cs:231-246 | the outer loop from layer `i` on ends in the state after `range` layers |
| FloodFill.FloodAppends | Extensions/Hex.cs:231-246 | the remaining layers only append distinct unobstructed hexes |
| FloodFill.FloodFromCovers | Extensions/Hex.cs:223-248 | the result holds exactly the hexes reachable within `range` steps |
| FloodFill.ExpandFringe | Extensions/Hex.cs:235-245 | the `foreach` over one fringe; what it computes is stated by `ExpandFringeAppends` (only appends new, unobstructed, distinct hexes, the same ones to both lists) and `ExpandFringeReaches` (`visited` gains exactly the open neighbours of the fringe) |
| FloodFill.Flood | Extensions/Hex.cs:231-245 | the outer `for` over layers `i..range`; stated by `FloodAppends` (later layers only append distinct unobstructed hexes) and `FloodFollowsLayers` (it ends in the reference state after `range` layers) |
| FloodFill.FloodFrom | Extensions/Hex.cs:223-248 | the start first, no duplicates, no obstructed hex after the first, exactly the reachable set, just the start when `range <= 0` |
| Reachability.ReachableHexes | Extensions/Hex.cs:223-248 | the same on the hex grid, and every hex is within `range` of the start |
| Reachability.WithinUnobstructedIsDisk | Extensions/Hex.cs:223-248 | without obstructions the hexes reachable in `k` steps are exactly the disk of radius `k` |
| Reachability.ReachableUnobstructedIsRange | Extensions/Hex.cs:223-248 | without obstructions `ReachableHexes(range)` equals `HexRange(range)` as a set and in size |
| HexLines.Walk | Extensions/Hex.cs:285-289 | the loop that appends `distance` steps of the direction vector: `max(distance, 0) + 1` hexes starting at the start hex; the `k`-th hex is stated by `WalkIsScaled` |
| HexLines.WalkIsScaled | Extensions/Hex.cs:285-289 | after `k` iterations the last hex is the start plus `k` times the vector |
| HexLines.ExtendLine | Extensions/Hex.cs:279-292 | `max(distance, 0) + 1` hexes, from the start to the start moved `distance` steps |
| HexLines.ExtendLineIsScaled | Extensions/Hex.cs:279-292 | the `k`-th hex is the start plus `k` times the direction vector |
| HexLines.ExtendLineSteps | Extensions/Hex.cs:285-289 | each hex is the `GetNeighbor` of the one before it |
| HexLines.ExtendLineDistance | Extensions/Hex.cs:279-292 | along a step direction the `k`-th hex is `k` steps away; otherwise the path stands still |
| HexLines.ExtendLineTo | Extensions/Hex.cs:278 | the path has `Distance(to) + 1` hexes (`int.MaxValue + 1` in the guard case) and is `ExtendLine` of that length |
| HexLines.ExtendLineToEnd | Extensions/Hex.cs:278 | along a step direction the path ends as far from the start as `to` is |
| ClosestValid.ShuffleKeeps | Extensions/IEnumerableExtensions.cs:11-14 | the shuffled list has the same length and the same members |
| ClosestValid.FirstNearest | Extensions/Hex.cs:264 | `OrderBy(...).FirstOrDefault()`: an element of least key, and the first such |
| ClosestValid.FreeWithin | Extensions/Hex.cs:258 | the result holds exactly the unobstructed hexes within radius `i` of the centre, each once |
| ClosestValid.FreeWithinOrder | Extensions/Hex.cs:258 | the free hexes come in `HexRange` order, each at its first occurrence (the reference `FirstOccurrences`) |
| ClosestValid.PickedIsFree | Extensions/Hex.cs:258-264 | a hex drawn from the shuffled free hexes within `i` is free and, with everything within `i - 1` obstructed, exactly at radius `i` |
| ClosestValid.SearchRing | Extensions/Hex.cs:258-264 | one pass of the loop: it picks a free hex exactly at radius `i`, or reports that everything within `i` is obstructed |
| ClosestValid.GetClosestValidNeighbor | Extensions/Hex.cs:250-268 | `Invalid` for an unobstructed hex or when everything within `maxRange` is obstructed; otherwise an unobstructed hex at the least radius `1..maxRange` that has one; an `IsValid` result always means a hex was found, and a found hex is `IsValid` unless the sentinel itself is a free hex within `maxRange` |
| PlayerLoop.GraftElsewhere | Tools/PlayerLoopUtils.cs:59-64 | writing a child back through `ref` leaves every node outside its subtree in place |
| LoopInsertion.WithChild | Tools/PlayerLoopUtils.cs:43-49 | the new system lands at `index`, earlier ones stay, later ones shift right; a null list counts as empty |
| LoopInsertion.InsertSystem | Tools/PlayerLoopUtils.cs:38-51 | `InsertSystem<T>` on a node: its three outcomes are characterised by `InsertTarget` (where the system lands, and when it throws) and `MissingIffAbsent` (when it returns false) |
| LoopInsertion.InsertFrom | Tools/PlayerLoopUtils.cs:54-67 | `HandleSubSystem`'s loop from sub-system `i`; characterised by `InsertFromTarget` and `MissingFromIffAbsent` |
| LoopInsertion.MissingIffAbsent | Tools/PlayerLoopUtils.cs:54-66 | `InsertSystem` returns false exactly when no node of the type is reachable through non-null lists |
| LoopInsertion.MissingFromIffAbsent | Tools/PlayerLoopUtils.cs:59-66 | the `HandleSubSystem` loop fails exactly when none of the remaining sub-systems holds the type |
| LoopInsertion.InsertTarget | Tools/PlayerLoopUtils.cs:38-67 | success or the exception happens at the first node of the type in pre-order; on success only that node changes, gaining the system at `index`; an index outside `0..Count` throws |
| LoopInsertion.InsertFromTarget | Tools/PlayerLoopUtils.cs:54-67 | the loop stops at the first sub-system that succeeds; every earlier one lacks the type |
| LoopRemoval.RemovePass | Tools/PlayerLoopUtils.cs:17-24 | the `for` loop over one level, index quirk included; characterised by the `Pass…` lemmas below, and `RemoveLevel` shows the mutable loop computes it |
| LoopRemoval.PassDropsOnlyMatches | Tools/PlayerLoopUtils.cs:17-24 | the level pass drops only systems matching both type and delegate, and keeps the order |
| LoopRemoval.PassRemovesIsolatedMatches | Tools/PlayerLoopUtils.cs:17-24 | with no two matches adjacent, every match is removed |
| LoopRemoval.PassWithoutMatches | Tools/PlayerLoopUtils.cs:17-24 | with no match the pass changes nothing |
| LoopRemoval.PassHalvesRun | Tools/PlayerLoopUtils.cs:17-24 | the index quirk: of `k` adjacent matches, `k / 2` survive |
| LoopRemoval.RemoveLevel | Tools/PlayerLoopUtils.cs:15-24 | the loop as written, on a mutable list, computes the level pass; the array is replaced exactly when something was removed |
| LoopRemoval.RemoveSystem | Tools/PlayerLoopUtils.cs:10-36 | a null list is left alone; otherwise the node keeps its type and delegate and has as many sub-systems as the level pass leaves; which ones is stated by `RemoveKeepsUnmatched` |
| LoopRemoval.RemoveKeepsUnmatched | Tools/PlayerLoopUtils.cs:10-36 | the sub-systems that do not match all survive, in order, each itself cleaned; what survives is drawn in order from the cleaned input list |
| LoopRemoval.UnmatchedCommutes | Tools/PlayerLoopUtils.cs:19-20 | cleaning a system below keeps its type and delegate, so dropping the matches commutes with cleaning each system |
| LoopRemoval.RemovedNodeOrigin | Tools/PlayerLoopUtils.cs:10-36 | every system of the result sits at a path of the same depth in the input, with the same type and delegate, and is that input system with the removal applied below it |
| LoopRemoval.RemoveClearsIsolated | Tools/PlayerLoopUtils.cs:17-35 | when no level holds two adjacent matches, no match is left anywhere in the result |
| LoopRemoval.RemoveAbsentIsNoop | Tools/PlayerLoopUtils.cs:10-36 | removing a system that occurs nowhere leaves the tree unchanged |
| LoopPrint.PrintPlayerLoop | Tools/PlayerLoopUtils.cs:69-79 | the two header lines come first; a null top-level list throws |
| LoopPrint.PrintSubSystem | Tools/PlayerLoopUtils.cs:81-89 | the system's line, then its sub-systems one level deeper; its lines are stated by `LinePerSystem` and `LineOf` |
| LoopPrint.PrintFrom | Tools/PlayerLoopUtils.cs:87-88 | the `foreach` over sub-systems from index `i`; stated by `LinePerSystemFrom` and `LineOfFrom` |
| LoopPrint.LinePerSystem | Tools/PlayerLoopUtils.cs:81-89 | one line per system of the subtree |
| LoopPrint.PrintLineCount | Tools/PlayerLoopUtils.cs:69-79 | the printout has the header plus one line per system below the root |
| PlayerLoop.PreOrderSorted | Tools/PlayerLoopUtils.cs:81-89 | the pre-order listing of paths is strictly ordered: a parent before its sub-systems, an earlier sibling's subtree before a later sibling |
| PlayerLoop.PreOrderComplete | Tools/PlayerLoopUtils.cs:81-89 | every path that names a system appears in the pre-order listing |
| LoopPrint.PreOrderCount | Tools/PlayerLoopUtils.cs:81-89 | the pre-order listing has one path per system |
| LoopPrint.LineOf | Tools/PlayerLoopUtils.cs:81-89 | line `k` of a subtree's printout is the type name of the `k`-th system in pre-order, indented four spaces per level of its depth |
| LoopPrint.LineOfFrom | Tools/PlayerLoopUtils.cs:87-88 | the same for the `foreach` over sub-systems from index `i` on |
| LoopPrint.PrintedLine | Tools/PlayerLoopUtils.cs:69-89 | line `k + 1` of the whole printout is the `k`-th system in pre-order, the top-level systems unindented |

## Left out

- Floating-point code is not modelled, because it is float numerics with `Math.Round` semantics and engine `Grid` calls:
  - `FloatHex` and `Round`;
  - `Lerp` and `HexLine`;
  - `ToWorldPos`, `ToPixel` and `ToGUI`;
  - `PixelToHex`, `GUIToHex` and `WorldToHex`.
- HexDirections.GetDirection: for distinct hexes the source normalises the difference in floating point and rounds it to a direction. The model yields `None` there and only pins down the `Zero` branch.
- HexCore.Add, HexCore.Subtract and HexCore.Scale, and the `s` coordinate, are over mathematical integers. C#'s unchecked 32-bit wrap-around is not modelled. The contracts hold for the mathematical values, which agree with the source wherever no coordinate overflows.
- HexCore.Length: modelled only where C# computes `abs q + abs r + abs s` without overflow (or the guard fires). Beyond that the C# sum wraps.
- HexCore.Distance: modelled only where the subtraction does not overflow, for the same reason.
- Reachability.ReachableHexes, HexRanges.HexRange and ClosestValid.GetClosestValidNeighbor use mathematical integers for hexes, radii and loop counters, so their contracts (the `3n²+3n+1` count of `HexRange` among them) hold only away from the `int` limits. Three things differ there. Hexes near the limits wrap when offset. For a `range` of `2^30` or more the row bounds `-r - range` and `-r + range` (Extensions/Hex.cs:207-208) overflow, and C# enumerates a truncated disk. A radius of `int.MaxValue` makes the counters `r++`, `i++` (lines 205, 231, 256) wrap, so those loops never end.
- ClosestValid.GetClosestValidNeighbor ranks candidates by the mathematical distance `GridDistance`. This agrees with the source's `Distance` for hexes whose difference does not overflow.
- ClosestValid.GetClosestValidNeighbor: `Randomize` orders by fresh `Guid`s. The shuffle is a caller-supplied permutation, so the contract says which hexes may come back but not the probability of each.
- Hash codes are not modelled. `Except` is modelled with the structural equality `Equals`, which assumes the hash code is consistent with it. The source's hash is the `ValueType` default, which can depend on the display `name`.
- `name`, `ToString`, the serialization callbacks and the `Vector2Int`/`Vector3Int` constructors are not modelled. Nor are the `MinValue`/`MaxValue` constants and `operator *` with a `Vector2Int`. None of them takes part in the modelled queries.
- Array aliasing in the player loop is not modelled; the tree is an immutable value. Only the level that changes gets a fresh array: `InsertSystem` replaces the target's own array (Tools/PlayerLoopUtils.cs:49) and the removal loop replaces a level's array only after a deletion there (line 23). Every enclosing level is updated in place through `ref loop.subSystemList[i]` (lines 35 and 61), so a nested insertion, or a nested removal, writes into arrays that any other copy of an ancestor struct shares, and that copy sees the change too. The model describes the new tree seen through the `ref` argument, not the effect on such copies.
- LoopRemoval.RemoveSystem: the generic argument `T` of `RemoveSystem` is unused by the source and does not appear.
- LoopPrint.PrintPlayerLoop: text is modelled as a sequence of lines, so `Environment.NewLine`, the `StringBuilder` and `Debug.Log` are not modelled. A null `type` (whose `ToString()` would throw) is not modelled either; the type's text is a caller-supplied function `name`.
- Debug logging is left out throughout.
