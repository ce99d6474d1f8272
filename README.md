# Two-dimensional cutting stock: a Dafny model of the optimizer core

The program cuts rectangular shapes, each with a demanded count, out of identical
rectangular sheets. It keeps a saw kerf (`cuttingLoss`) between pieces and uses as few
sheets as possible. This project models its three core parts:

- **The placement engine** (`Column`, modelled in `Geometry.dfy` and `Columns.dfy`).
  - A column is one sheet layout: placements of shapes at locations, each shape possibly turned.
  - `check` decides whether a shape may sit at a location. The location must not be negative, the shape must lie inside the sheet, and for every placed shape some axis must keep a gap of at least the kerf.
  - `possibleLocs` offers the admissible locations among 8 sheet corners plus 40 flush positions around each placed shape.
  - `construct` backtracks over those locations.
  - Column `equals` and `hashCode` look only at the shapes placed.
- **The column builder** (`ColumnBuilder`, modelled in `Trie.dfy`, `Explode.dfy` and `Builder.dfy`).
  - It explodes a request into every combination of copy counts: each shape type contributes 1 to `count` copies.
  - Each combination becomes a sequence sorted by decreasing size. Longer sequences come first.
  - For each sequence not yet known to be infeasible, it backtracks a layout from an empty sheet. A feasibility trie remembers which shape prefixes found room and which did not.
- **The column-generation solver** (`Solver`, modelled in `Lp.dfy`, `Duals.dfy` and `Solver.dfy`).
  - The master LP has one equality row per shape type, with the demand as its right-hand side.
  - There is one column per distinct layout. The column's cost is 1 and its entries are the per-type counts of the layout.
  - The solver seeds the LP shape type by shape type. For each type it builds the request for that type alone, which yields one layout per copy count from 1 to max(count, 1) that fits on a sheet, and adds every such layout not yet present.
  - Pricing runs through the index subsets. A subset whose dual sum reaches 1 gets columns built for it. When that adds a new column, the LP is re-solved; the round succeeds when the re-solve changes the duals. Pricing rounds repeat until a round finds no subset whose new columns change the duals.
  - The solver then switches every column to binary and prices again.

The lp_solve library is modelled as the class `LinearProgram.Lp`. It keeps the program's bookkeeping: row types, right-hand sides, coefficient columns, binary flags and the dual array. Its numeric `solve` is an oracle that may return any dual array of the library's length (entry 0 unused, then one entry per row and one per column).

Random iteration orders are not fixed. `RandomOrder` over locations becomes a choice from a pending set (`:|`), so every proved property holds for every order. The subset and permutation enumerations are inputs.

Behaviour of the code that the model keeps:

- **Feasibility trie lifetime.** The trie root `emptyCreation` is a field of the builder (ColumnBuilder.java:53). Every `buildColumns` call starts from it (ColumnBuilder.java:66,75), so the trie lasts for the solver's whole life. `Builder.ColumnBuilder.root` persists across calls, and the contracts prove it only grows (`Extends`).
- **Column equality** (Column.java:228-240).
  - `equals` is mutual containment of the *sets* of placed shapes, not equality of multisets.
  - `hashCode` adds `42 * hash` once per placed shape, so it counts multiplicities.
  - The solver's `HashSet` therefore finds a column as a duplicate only when both hash and `equals` agree. `Solving.Duplicate` models exactly that.
  - `Geometry.EqualsIgnoresMultiplicity` shows two columns that are equal yet hash differently.
- **Locations.** `Loc` overrides `hashCode` but not `equals` (Column.java:27-46). The set that `possibleLocs` returns can therefore hold the same coordinates twice, and the model keeps them in a sequence.
- **Shapes.** `Shape` also keeps identity equality (Shape.java:22-36). Shapes are modelled as values with ids unique from 1 (Problem.java:53,63), which gives the same equality.
- **Duals in the integral phase.** The duals are recomputed in both phases: `solveLP` runs after the switch to binary as well (Solver.java:160,171).
- **Copy counts.** Each type takes 1 to `count` copies, and at least one copy even when `count <= 1` (ColumnBuilder.java:87-105). The empty combination never arises.
- **Reading the duals.** The solver reads the duals exactly as Solver.java:189 does (`Solving.Solver.SolveLP`), so a shape's dual can be negative. The corrected reading is defined and proved apart from the solver (see Findings).

## Model

| member | source | states |
|---|---|---|
| Geometry.ClashSymmetric | src/cuttingstock/Column.java:80-83 | the four-gap overlap test is symmetric in the two placements |
| Geometry.NegativeLocationRejected | src/cuttingstock/Column.java:71-72 | a location with a negative coordinate is never admissible |
| Geometry.OverflowRejected | src/cuttingstock/Column.java:74-75 | a shape whose turned or unturned extent passes the sheet's right or top edge is never admissible |
| Geometry.InBoundsFitsAlone | src/cuttingstock/Column.java:74-75 | a shape within bounds at some location has both extents of the orientation that location chooses within the sheet, so it fits alone |
| Geometry.AdmissibleExtends | src/cuttingstock/Column.java:61-87 | adding an admissible placement to a valid layout (in bounds, pairwise kerf-separated) keeps it valid |
| Geometry.AcceptedInOrderIffValid | src/cuttingstock/Column.java:61-87 | a placement list each of whose entries `check` accepted against its predecessors is exactly a valid layout |
| Geometry.OfferedLayoutValid | src/cuttingstock/Column.java:223-226 | a placement list each of whose entries sits at a location `possibleLocs` offered against its predecessors is a valid layout |
| Geometry.Candidates | src/cuttingstock/Column.java:140-219 | `possibleLocs` tries 8 corner probes plus 40 probes per placed shape |
| Geometry.AdmissibleOfMembers | src/cuttingstock/Column.java:223-226 | a location is offered iff it is one of the probes and `check` accepts it |
| Geometry.AdmissibleOfAppend | src/cuttingstock/Column.java:223-226 | offering two probe lists one after the other offers the concatenation |
| Geometry.EmptySheetCorners | src/cuttingstock/Column.java:140-147 | on an empty sheet some corner probe is admissible iff the shape fits the sheet in some orientation |
| Geometry.EmptySheetLocs | src/cuttingstock/Column.java:133-221 | on an empty sheet `possibleLocs` is non-empty iff the shape fits alone |
| Geometry.ColumnHash | src/cuttingstock/Column.java:233-240 | the column hash is a 32-bit value: 489343 plus 42 times each shape's hash, wrapped |
| Geometry.ColumnEqualsIffSameShapeSet | src/cuttingstock/Column.java:228-231 | `equals` holds iff the two columns place the same set of shapes |
| Geometry.HashSumAppend | src/cuttingstock/Column.java:236-238 | the hash contribution of a concatenation is the sum of the parts' |
| Geometry.HashSumPermutation | src/cuttingstock/Column.java:236-238 | the hash does not depend on the order of the placed shapes |
| Geometry.SameShapesSameColumn | src/cuttingstock/Column.java:228-240 | two columns with the same multiset of shapes have equal hashes and are `equals` |
| Geometry.EqualsIgnoresMultiplicity | src/cuttingstock/Column.java:228-240 | two columns can be `equals` and still hash differently (one copy against two copies of a shape) |
| Columns.Column.constructor | src/cuttingstock/Column.java:52-54 | a new column is empty on the given sheet and is a valid layout |
| Columns.Column.Copy | src/cuttingstock/Column.java:56-59 | the copy constructor copies the sheet and every placement |
| Columns.Column.Check | src/cuttingstock/Column.java:69-87 | the loop returns exactly the admissibility of the location against all placed shapes |
| Columns.Column.Add | src/cuttingstock/Column.java:61-67 | adds the placement iff `check` accepts it, and keeps the layout valid |
| Columns.Column.Offer | src/cuttingstock/Column.java:223-226 | appends the probe iff it is admissible |
| Columns.Column.OfferEach | src/cuttingstock/Column.java:140-147 | offering a list of probes appends exactly its admissible ones |
| Columns.Column.OfferAround | src/cuttingstock/Column.java:149-219 | the loop over placed shapes completes the corner offers to the admissible candidates |
| Columns.Column.PossibleLocs | src/cuttingstock/Column.java:133-221 | the result is the admissible candidates, each admissible, and on an empty sheet non-empty iff the shape fits alone |
| Columns.Column.Construct | src/cuttingstock/Column.java:115-128 | on success the column gains exactly the remaining shapes in order and stays valid; on failure it is restored |
| Columns.Column.TryEach | src/cuttingstock/Column.java:117-125 | the location loop of `construct`: place, recurse, undo on failure |
| Columns.Column.ConstructAny | src/cuttingstock/Column.java:92-113 | a returned column is valid, places one of the orderings exactly, and so holds every requested shape |
| Columns.Column.Equals | src/cuttingstock/Column.java:228-231 | `equals` iff the shape sets coincide |
| Columns.Column.HashCode | src/cuttingstock/Column.java:233-240 | the loop computes the wrapped 32-bit column hash |
| Trie.Status | src/cuttingstock/ColumnBuilder.java:39 | a stored node is FEASIBLE or INFEASIBLE, never UNKNOWN |
| Trie.MarksAfterMissing | src/cuttingstock/ColumnBuilder.java:42-44 | below a missing node no longer prefix carries a mark |
| Trie.MarksAfterInfeasible | src/cuttingstock/ColumnBuilder.java:47-48 | an INFEASIBLE node marks its prefix and hides every longer one |
| Trie.CheckFeasibilityFrom | src/cuttingstock/ColumnBuilder.java:41-50 | from any level, the lookup answers INFEASIBLE iff some prefix is marked INFEASIBLE, and FEASIBLE iff the whole sequence is marked FEASIBLE |
| Trie.CheckFeasibilityPaths | src/cuttingstock/ColumnBuilder.java:41-50 | the same characterisation from the root |
| Trie.ExtendsUpdate | src/cuttingstock/ColumnBuilder.java:124-127 | storing a node that extends the old one extends the trie |
| Trie.ExtendsTransitive | src/cuttingstock/ColumnBuilder.java:116-141 | trie growth composes over successive updates |
| Trie.ExtendsKeepsInfeasible | src/cuttingstock/ColumnBuilder.java:121-137 | once a lookup answers INFEASIBLE it does so in every later trie |
| Trie.SoundSingleton | src/cuttingstock/ColumnBuilder.java:122-137 | if the root marks INFEASIBLE only shapes that fit no empty sheet, a shape that fits alone is never looked up as INFEASIBLE on its own |
| Explode.Bound | src/cuttingstock/ColumnBuilder.java:92-94 | a type contributes at least one copy, and up to its count |
| Explode.Block | src/cuttingstock/ColumnBuilder.java:95-102 | one block of clones: every set extended by the same number of copies |
| Explode.ExtendMember | src/cuttingstock/ColumnBuilder.java:87-106 | extending the copy-count vectors by one type gives exactly the vectors whose last entry is in range |
| Explode.CombosComplete | src/cuttingstock/ColumnBuilder.java:84-106 | every copy-count vector with entries in range occurs, and nothing else |
| Explode.CombosDistinct | src/cuttingstock/ColumnBuilder.java:84-106 | no copy-count combination occurs twice |
| Explode.CombosCount | src/cuttingstock/ColumnBuilder.java:84-106 | there are exactly as many combinations as the product of the copy bounds |
| Explode.ExplodedCount | src/cuttingstock/ColumnBuilder.java:84-106 | the loops build that many shape lists |
| Explode.ExplodedMaterialize | src/cuttingstock/ColumnBuilder.java:84-106 | the k-th list built holds copies of each type as the k-th combination prescribes |
| Explode.Insert | src/cuttingstock/ColumnBuilder.java:110 | insertion into a sorted list adds exactly the new element |
| Explode.InsertSorted | src/cuttingstock/ColumnBuilder.java:110 | insertion keeps a list sorted by decreasing key |
| Explode.SortDesc | src/cuttingstock/ColumnBuilder.java:110-112 | the sort is a permutation of its input, ordered by decreasing key |
| Explode.InsertStable | src/cuttingstock/ColumnBuilder.java:110-112 | an inserted element lands in front of every element with the same key |
| Explode.SortDescStable | src/cuttingstock/ColumnBuilder.java:110-112 | the sort is stable: for every key, the elements with that key keep their input order |
| Explode.SortEach | src/cuttingstock/ColumnBuilder.java:108-111 | each list is sorted by decreasing size |
| Explode.ExplodedOrderedCount | src/cuttingstock/ColumnBuilder.java:83-114 | the exploded sequences number the product of the copy bounds |
| Explode.ExplodedOrderedSorted | src/cuttingstock/ColumnBuilder.java:108-113 | each sequence is size-descending, and the sequences are length-descending |
| Explode.ExplodedOrderedContent | src/cuttingstock/ColumnBuilder.java:108-113 | the sequences are a permutation of the sorted materialised combinations |
| Explode.ExplodedOrderedElements | src/cuttingstock/ColumnBuilder.java:87-113 | every sequence is at least as long as the request and holds only requested shapes |
| Explode.SingleTypeYield | src/cuttingstock/ColumnBuilder.java:87-106 | a single-type request yields the one-shape sequence, and every sequence holds only that shape |
| Explode.SingleCopyYielded | src/cuttingstock/ColumnBuilder.java:87-106 | a single-type request always includes the one-copy sequence |
| Explode.SingleTypeBound | src/cuttingstock/ColumnBuilder.java:92-94 | a single-type request yields no sequence longer than max(count, 1) |
| Explode.CloneWithCopies | src/cuttingstock/ColumnBuilder.java:96-100 | a clone is the set followed by j copies |
| Explode.AppendToEach | src/cuttingstock/ColumnBuilder.java:88-90 | every set gains one copy of the type |
| Explode.CloneBlock | src/cuttingstock/ColumnBuilder.java:95-102 | one pass over the sets yields the block with j + 1 copies |
| Explode.ExtraSets | src/cuttingstock/ColumnBuilder.java:92-104 | the extra sets complete the blocks for every copy count |
| Explode.AddType | src/cuttingstock/ColumnBuilder.java:87-105 | one type's step yields all its copy-count blocks |
| Explode.ExplodeRequiredShapes | src/cuttingstock/ColumnBuilder.java:83-114 | the method's result is the ordered explosion proved above |
| Builder.ColumnBuilder.constructor | src/cuttingstock/ColumnBuilder.java:53 | the builder starts with an empty trie |
| Builder.ColumnBuilder.BuildColumn | src/cuttingstock/ColumnBuilder.java:116-141 | on success the column keeps its placements as a prefix, gains exactly shapes[i..], and each new placement sits at a location `possibleLocs` offered at its step, so the layout stays valid; the sequence is then FEASIBLE; failure restores the column; a known INFEASIBLE prefix fails; the trie only grows and other shapes' nodes are kept; the node of shapes[i] is INFEASIBLE afterwards iff it was before or `possibleLocs` offered nothing; on an empty column a first shape that does not fit alone fails, a last shape that fits and is not marked INFEASIBLE succeeds, and a sound root stays sound |
| Builder.ColumnBuilder.Descend | src/cuttingstock/ColumnBuilder.java:121-139 | for a shape not marked INFEASIBLE: its node becomes INFEASIBLE iff `possibleLocs` is empty, otherwise FEASIBLE with the locations tried below; on success each new placement is at an offered location; the column and trie guarantees of buildColumn |
| Builder.ColumnBuilder.TryLocations | src/cuttingstock/ColumnBuilder.java:128-134 | given locations that `possibleLocs` offered, the loop succeeds whenever a location exists for the last shape, never succeeds below an INFEASIBLE level, and on success the column gains shapes[i..] each at an offered location |
| Builder.ColumnBuilder.TryAt | src/cuttingstock/ColumnBuilder.java:129-133 | place the shape at an offered location, recurse one trie level down, and undo on failure; on success every placement from here on was offered at its step |
| Builder.ColumnBuilder.TrySequence | src/cuttingstock/ColumnBuilder.java:66-77 | a sequence known INFEASIBLE yields nothing; a yielded column is fresh, valid, holds exactly the sequence, and every placement in it was offered by `possibleLocs` at its step; a single shape that fits alone always yields a column |
| Builder.ColumnBuilder.BuildEach | src/cuttingstock/ColumnBuilder.java:64-78 | column m holds exactly sequence idx[m], with idx strictly increasing (at most one column per sequence, in order); no column comes from a sequence the trie already reported INFEASIBLE; each column is fresh and valid, with every placement at a location offered at its step |
| Builder.ColumnBuilder.BuildColumns | src/cuttingstock/ColumnBuilder.java:58-81 | column m holds exactly exploded sequence idx[m], idx strictly increasing, so at most one column per sequence; no column comes from a sequence the trie already reported INFEASIBLE; every column is fresh and valid, with every placement at a location offered at its step; for a one-type request some column comes back iff the shape fits alone |
| LinearProgram.Lp.constructor | src/cuttingstock/Solver.java:46 | `makeLp(n, 0)`: n rows, no columns |
| LinearProgram.Lp.SetEquality | src/cuttingstock/Solver.java:60 | makes one row an equality, nothing else changes |
| LinearProgram.Lp.SetRh | src/cuttingstock/Solver.java:61 | sets one right-hand side, nothing else changes |
| LinearProgram.Lp.AddColumn | src/cuttingstock/Solver.java:103 | appends a continuous column |
| LinearProgram.Lp.SetBinary | src/cuttingstock/Solver.java:104 | sets one column's binary flag |
| LinearProgram.Lp.Solve | src/cuttingstock/Solver.java:183-185 | leaves a dual array of length 1 + rows + columns, the model unchanged |
| LinearProgram.Lp.Delete | src/cuttingstock/Solver.java:199 | releases the program |
| Duals.DualsAsWritten | src/cuttingstock/Solver.java:188-190 | the dual loop as written: the test reads entry i + 1 but the value copied is entry i |
| Duals.ClampedDuals | src/cuttingstock/Solver.java:188-190 | each shape's dual is its own row's dual when positive and 0 otherwise, so never negative |
| Duals.AsWrittenNotClamped | src/cuttingstock/Solver.java:189 | an input on which the loop as written hands a negative dual to pricing |
| Duals.AsWrittenAgreesIff | src/cuttingstock/Solver.java:188-190 | the loop as written gives the clamped duals iff every positive row dual equals the entry just below it |
| Duals.AsWrittenShifted | src/cuttingstock/Solver.java:189 | whenever the guarding entry is positive and differs from its neighbour, the two readings disagree |
| Duals.DualSumNonNegative | src/cuttingstock/Solver.java:113-116 | with clamped duals no subset scores below zero |
| Duals.EmptySubsetNeverPriced | src/cuttingstock/Solver.java:113-118 | the empty subset never reaches the pricing threshold |
| Solving.CoefficientVector | src/cuttingstock/Solver.java:96-101 | an LP column has one cost entry and one entry per row |
| Solving.IdCountPermutation | src/cuttingstock/Solver.java:99-101 | a row's count does not depend on the order of the placements |
| Solving.CoefficientsIgnoreOrder | src/cuttingstock/Solver.java:96-101 | two layouts with the same multiset of shapes give the same LP column |
| Solving.CoefficientTotal | src/cuttingstock/Solver.java:96-101 | the row entries of a column add up to the number of shapes placed |
| Solving.CoefficientColumn | src/cuttingstock/Solver.java:96-101 | the counting loop yields the coefficient vector: cost 1, entry k the number of shapes with id k |
| Solving.ContainsGrows | src/cuttingstock/Solver.java:33 | a column in the set stays in it as the set grows |
| Solving.ContainsAdded | src/cuttingstock/Solver.java:105 | an added column is found in the set afterwards |
| Solving.OfferStep | src/cuttingstock/Solver.java:86-88 | one step of `addColumns` keeps the old columns as a prefix, contains the offered column afterwards, and grows iff that column was new |
| Solving.SameShapesContained | src/cuttingstock/Solver.java:93 | a layout with the same multiset of shapes as a stored column counts as already present |
| Solving.DistinctPatterns | src/cuttingstock/Solver.java:93-105 | no two stored columns hold the same multiset of shapes |
| Solving.Select | src/cuttingstock/Solver.java:120-123 | the request for a subset is the demand of each selected index, in order |
| Solving.BuiltIdsInRange | src/cuttingstock/Solver.java:100 | every shape of a built column has an id in 1 .. number of rows, so `col[s.id]` is in range |
| Solving.StoredLayoutValid | src/cuttingstock/Solver.java:105 | every column the solver stores is a valid layout on the sheet |
| Solving.SeedCopies | src/cuttingstock/Solver.java:67 | a layout built for one demand alone is one to max(count, 1) copies of that demand's shape |
| Solving.AllOffersContained | src/cuttingstock/Solver.java:84-90 | after offering every column in turn, each offered column is present in the set |
| Solving.Solver.constructor | src/cuttingstock/Solver.java:42-63 | an LP with one equality row per shape type with the demand as right-hand side, no columns, no duals |
| Solving.Solver.SetRows | src/cuttingstock/Solver.java:59-63 | the row loop makes each row an equality with the demand as right-hand side |
| Solving.Solver.Create | src/cuttingstock/Solver.java:42-82 | the solver is ready iff every shape fits alone on a sheet, and otherwise names the first shape that does not; a ready solver has the given sheet, demands, size order and subsets, no duals, a column holding only copies of each shape, and only columns of one to max(count, 1) copies of a single shape |
| Solving.Solver.AddInitial | src/cuttingstock/Solver.java:66-71 | a shape's initial columns exist iff it fits alone; the old columns are kept as a prefix, nothing is added when it does not fit, and otherwise the set holds a column of that shape only and every added column is one to max(count, 1) copies of it |
| Solving.Solver.AddAllInitial | src/cuttingstock/Solver.java:66-71 | the loop stops at the first shape that fits no sheet alone, and reports that every shape was seeded with a column of its own when none failed |
| Solving.Solver.AddColumn | src/cuttingstock/Solver.java:92-108 | adds iff the column is not null and not already present; then the LP gains the column's counts with the current binary flag, and every stored layout stays valid |
| Solving.Solver.AddColumns | src/cuttingstock/Solver.java:84-90 | reports true iff some column was added; the old columns are kept as a prefix; every added column is one of the offered ones; every offered column is present afterwards; a new offered column forces an addition |
| Solving.Solver.Score | src/cuttingstock/Solver.java:113-116 | the score is the dual sum of the subset |
| Solving.Solver.Price | src/cuttingstock/Solver.java:110-135 | success implies a new column and changed duals, failure leaves the duals as they were; the columns only grow, and every added column is a layout built for a subset whose dual sum under the old duals reaches 1; when no subset scores at least 1, nothing changes, the trie included; the trie only grows |
| Solving.Solver.Attempt | src/cuttingstock/Solver.java:113-132 | a subset scoring below 1 changes nothing; otherwise its new columns are layouts built for it, and success means new columns and changed duals |
| Solving.Solver.PricedAfter | src/cuttingstock/Solver.java:112-133 | columns added for a subset that scored at least 1 keep every column added since the start of price priced |
| Solving.Solver.Grow | src/cuttingstock/Solver.java:120-129 | reports an addition iff the column set grew; the old columns are kept, and every added column holds one of the exploded sequences of the subset's demands |
| Solving.Solver.SelectShapes | src/cuttingstock/Solver.java:120-123 | the loop builds the subset's request |
| Solving.Solver.SolveLP | src/cuttingstock/Solver.java:182-193 | the duals become the line-189 reading of the library's dual array, and the result says whether they changed |
| Solving.Solver.ReadDuals | src/cuttingstock/Solver.java:187-190 | the loop computes the line-189 reading of the dual array |
| Solving.Solver.PriceRounds | src/cuttingstock/Solver.java:161 | repeated pricing keeps the solver valid and the columns growing |
| Solving.Solver.MarkAllBinary | src/cuttingstock/Solver.java:168-170 | every existing LP column becomes binary, nothing else changes |
| Solving.Solver.Solve | src/cuttingstock/Solver.java:157-180 | ends in the integral phase with every LP column binary, old columns kept |
| Solving.Solver.Close | src/cuttingstock/Solver.java:196-202 | closing releases the LP once; closing again changes nothing |

## Left out

- Problem-file parsing, logging, `printSolution` and the command-line entry point. They are I/O. The problem enters as a sheet, a list of demands with ids 1..n, a size function and the subset enumeration.
- The numeric LP/MIP solve, objective value and primal values. lp_solve is an oracle that returns an arbitrary dual array of the right length. `setVerbose`, `setMinim` and `setRowName` carry no state the core reads.
- `LpSolveException` handling and a failed `makeLp` (a null `lp`). The model assumes the library succeeds.
- The order that `RandomOrder`, `SubSets.subSets` and `SubSets.permutations` visit. The orderings are parameters, or arbitrary choices.
- Doubles. Coefficients and right-hand sides are integers, duals are reals. Arrays.equals treats NaN specially, and this is not modelled.
- Java `int` overflow in coordinates, extents and `Shape.hashCode`. Only the column hash is wrapped to 32 bits, because column lookup depends on it.
- Solving.Solver.PriceRounds: `while(price());` has no termination argument in the source. The model runs at most `fuel` rounds, so it does not state that the loop ends with a round that finds nothing.
- Solving.Solver.AddColumns: the contract does not state the converse direction, that an addition implies some offered column was new. It holds because `addColumn` only appends new columns.
- Columns are stored as snapshots of their placements at the moment they are added. The source keeps references, but nothing changes a column once it is added.

## Findings

| source | as written | input that shows it | evidently intended | confidence | as-written member | corrected member |
|---|---|---|---|---|---|---|
| src/cuttingstock/Solver.java:189 | `duals[i] = dualsArr[i + 1] > 0d ? dualsArr[i] : 0d` tests row i + 1's dual but copies entry i (entry 0 is unused, so shape 0 gets that entry) | dual array `[0.0, -5.0, 1.0]` with two rows: shape index 1 receives -5.0 | `dualsArr[i + 1] > 0d ? dualsArr[i + 1] : 0d`, giving each shape its own row's dual clamped at zero (1.0 here) | not executed | Duals.AsWrittenNotClamped | Duals.ClampedDuals |
