# Minesweeper CSP solver — a Dafny model

This project models the solver engine of *Minesweeper_CSP*
(`minesweeper_csp/csp.py`): the class `MinesweeperCSP` that, on each `step`,
reads a Minesweeper board through an adapter and decides what to do next.

- **Constraint graph.** Every revealed clue with a positive count and at
  least one unflagged hidden neighbour becomes a *constraint*: the number of
  mines still missing among those neighbours. Every such neighbour becomes a
  *variable*. Variables and constraints refer to each other by position, and
  `Variable`/`Constraint` refuse more than 8 links.
- **Trivial propagation.** A constraint with no mine left opens all its
  cells, and one with as many mines as cells flags all of them.
- **Subset elimination.** When the cells of constraint b are a strict subset
  of those of a, a becomes a − b. Passes are repeated until nothing changes.
- **Exhaustive search.** Backtracking enumerates 0/1 assignments. It branches
  on a variable with the fewest constraints and prunes a value that a
  constraint rules out. The graph is changed in place and restored on the way
  back. The configurations found are then aggregated: a cell with the same
  value in all of them is certain; failing that, the least key of the counter
  is opened; with nothing counted, a random hidden cell is opened.

The model keeps the source's form:

- `MinesweeperCSP` is a Dafny `class` whose `constraints`/`variables`
  dictionaries are `map` fields that its methods reassign. A `seq` field
  `order` records the dictionary's insertion order, which
  `constraints.values()` follows.
- The loops of the source are `while`/`for` loops with invariants. Each
  method is proved against a specification function:
  - `ExpectedConstraints`/`ExpectedVariables` for the graph a board
    determines;
  - `Emitted` for propagation;
  - `Eliminate`, `Pass` (one pass over the ordered pairs), `Iterate` and
    `Size` for simplification;
  - `Records` for the search;
  - `Tally`, `CertainActions` and `Certainties` for aggregation.
- The board is a value (`Game.Board`) carrying the adapter's answers as
  functions. The random draws of `random.choice` are parameters.
- Exceptions become `Result` values (`Constraints.Error`).

Main results:

- The graph built from a board is exactly the one the board determines, and
  neither 8-link guard can fire on it (`ExpectedGraphShape`, `LinkStep`,
  `CreateConstraintGraph`).
- Every action of the trivial and of the simplified stage is right in every
  solution of the board's graph (`TrivialActions`, `SimplifiedActions`,
  `EmittedCorrect`).
- Each simplification pass computes exactly `Pass` of the old constraints.
  Repeating it keeps exactly the solutions and reaches the unique fixpoint
  of `Pass` (`AttemptSimplifyConstraints`, `SimplifyToFixpoint`,
  `FixpointUnique`).
- The search records every solution. Every configuration it records is a
  solution whenever each target lies between 0 and its cell count
  (`RecursiveSearch`, `CombineBranches`).
- The certain actions are right in every solution. On a solvable graph they
  are exactly the actions right in every solution (`SearchSolution`,
  `CertainExact`).
- A Playing step answers from the trivial stage exactly when propagation on
  the board's graph emits something. It reaches the search only when the
  simplified graph emits nothing too, and it carries the search's promises
  (`Step`, `Play`, `SimplifyOrSearch`).

## Model

| member | source | states |
|---|---|---|
| Game.Neighbours | minesweeper_csp/csp.py:81-87 | the generator yields exactly the in-bounds cells at Chebyshev distance 1 from (x, y), each once, at most 8 |
| Game.NeighbourhoodBound | minesweeper_csp/csp.py:81-87 | any set of in-bounds cells adjacent to one cell has at most 8 elements |
| Game.HiddenNeighbours | minesweeper_csp/csp.py:92-96 | a cell is in the set iff it is in bounds, adjacent, hidden, and flagged exactly as asked |
| Game.ClassifiedBound | minesweeper_csp/csp.py:90-98 | the flagged and the unflagged hidden neighbours are disjoint and number at most 8 together |
| Game.ScannedMembers | minesweeper_csp/csp.py:52-53 | the nested loops visit each cell before (x, y) exactly once |
| Game.ScannedPrefix | minesweeper_csp/csp.py:52-53 | the cells visited up to a point start the cells visited up to any later point |
| Game.AllCellsMembers | minesweeper_csp/csp.py:244-245 | `itertools.product(range(width), range(height))` yields every board cell exactly once |
| Game.HiddenCells | minesweeper_csp/csp.py:244-246 | the landlocked candidates are exactly the hidden unflagged board cells, each once |
| Game.Choice | minesweeper_csp/csp.py:247 | `random.choice` of a non-empty list returns one of its elements |
| Constraints.NewConstraint | minesweeper_csp/csp.py:23-30 | succeeds iff 0 <= sum < 9, with no variables and the given position and sum; otherwise the ValueError for (x, y, sum) |
| Constraints.AddVariable | minesweeper_csp/csp.py:32-35 | adds the cell and keeps position and sum; fails iff the grown set exceeds 8 cells |
| Constraints.AddConstraint | minesweeper_csp/csp.py:16-20 | adds the clue and keeps the position; fails iff the grown set exceeds 8 clues |
| Constraints.ClueCellsMembers | minesweeper_csp/csp.py:52-57 | the registered cells are exactly the scanned cells with a positive clue and an unflagged hidden neighbour, each once |
| Constraints.ClueCellsStep | minesweeper_csp/csp.py:55-57 | visiting one more cell appends it iff it is a constraint cell |
| Constraints.ClueCellsPrefix | minesweeper_csp/csp.py:52-57 | the constraint cells found on a prefix of the scan start those found on the whole scan |
| Constraints.ScanStep | minesweeper_csp/csp.py:52-57 | before (x, y) the constraint cells found are distinct in-bounds cells other than (x, y), their constraints link adjacent cells, and visiting (x, y) appends it iff it qualifies |
| Constraints.ScanReaches | minesweeper_csp/csp.py:52-57 | when the scan reaches a constraint cell, the cells found so far are a strict prefix of the full order and the cell comes next |
| Constraints.ConstraintsAtSnoc | minesweeper_csp/csp.py:70 | registering one more cell adds exactly its constraint |
| Constraints.ConstraintsAtLinks | minesweeper_csp/csp.py:72-78 | the constraints of board cells link only in-bounds cells adjacent to the clue |
| Constraints.LinksBound | minesweeper_csp/csp.py:16-20 | a cell is linked to at most 8 clues, even counting one more adjacent clue |
| Constraints.VariableLinksBound | minesweeper_csp/csp.py:74-77 | in a graph that links adjacent cells, every variable has between 1 and 8 constraints |
| Constraints.LinkVariable | minesweeper_csp/csp.py:74-77 | linking v to the constraint at p adds p to v's links and creates v on first use, changing no other variable |
| Constraints.LinkStep | minesweeper_csp/csp.py:72-78 | one turn of the linking loop raises nothing while the constraint has room, yields the variables that mirror the grown constraints, and keeps links between adjacent cells |
| Constraints.LinkEmpty | minesweeper_csp/csp.py:69-70 | inserting a constraint with no variables keeps links between adjacent cells |
| Constraints.LinkNothing | minesweeper_csp/csp.py:69-70 | inserting a constraint with no variables changes no variable |
| Constraints.ExpectedGraphShape | minesweeper_csp/csp.py:60-78 | the board's graph has keys matching positions, links in both directions between adjacent cells, and 1..8 links on every constraint and on every variable |
| Solutions.CountOnesInsert | minesweeper_csp/csp.py:184-201 | extending an assignment at a fresh cell adds one mine to a set iff the set has the cell and the value is 1 |
| Solutions.CountOnesSplit | minesweeper_csp/csp.py:119-121 | the mines of a set split into those of a subset and those of the rest |
| Solutions.CountOnesBound | minesweeper_csp/csp.py:165-170 | a set holds at most as many mines as cells, and strictly fewer if one of its assigned cells is not a mine |
| Solutions.SolutionBounded | minesweeper_csp/csp.py:153-173 | a graph with a solution has every target between 0 and its number of cells |
| Solutions.TrivialDeductions | minesweeper_csp/csp.py:104-109 | in every solution, a constraint with sum 0 makes each cell safe and one with sum = cell count makes each a mine |
| Propagation.Tagged | minesweeper_csp/csp.py:105-109 | the actions one inner loop appends: each once, of the loop's kind, on a cell of the set |
| Propagation.ConstraintActions | minesweeper_csp/csp.py:104-109 | what one constraint emits: each action once and on one of its cells, and nothing unless its sum is 0 or equals its cell count |
| Propagation.Emitted | minesweeper_csp/csp.py:101-109 | everything the loop over the constraints emits, with repetitions, contains what each visited constraint emits |
| Propagation.TaggedMembers | minesweeper_csp/csp.py:105-109 | an action is among one constraint's tagged actions iff it has that kind and one of its cells |
| Propagation.TaggedAdd | minesweeper_csp/csp.py:105-106 | a fresh cell adds exactly its action |
| Propagation.EmittedMembers | minesweeper_csp/csp.py:101-111 | an action is emitted iff some visited constraint forces it (sum 0 for OPEN; sum = count, sum ≠ 0, for FLAG) |
| Propagation.EmittedSound | minesweeper_csp/csp.py:104-109 | every emitted action is on a variable, and it opens a cell safe, or flags a cell that is a mine, in every solution |
| Propagation.AppendTagged | minesweeper_csp/csp.py:105-109 | the loop keeps the actions already listed and appends exactly one action of the kind per cell |
| Propagation.InBlocksEmitted | minesweeper_csp/csp.py:101-111 | a list made of one block per visited constraint, each holding that constraint's forced actions, has exactly the emitted actions |
| Propagation.InBlocksSnoc | minesweeper_csp/csp.py:102-109 | appending the forced actions of the next constraint in insertion order extends the blocks by that constraint |
| Simplification.Eliminate | minesweeper_csp/csp.py:119-121 | `a.variables -= b.variables; a.sum -= b.sum`: a keeps its position and only loses cells, none of them left in common with b, and every other constraint stays |
| Simplification.Visit | minesweeper_csp/csp.py:117-122 | visiting the pair (a, b) keeps the keys, changes only a, and changes something only when a is not b and b's cells are a strict subset of a's |
| Simplification.EliminationPreservesSolutions | minesweeper_csp/csp.py:119-121 | replacing a by a − b (b ⊆ a) keeps exactly the same solutions |
| Simplification.EliminationShrinks | minesweeper_csp/csp.py:119-121 | on non-empty constraints an elimination keeps every constraint non-empty, strictly shrinks a and strictly lowers the total size |
| Simplification.SimplifyStep | minesweeper_csp/csp.py:118-122 | one elimination keeps the pass state: refinement, same solutions, a qualifying pair at the start, smaller size |
| Simplification.NoneLeft | minesweeper_csp/csp.py:116-124 | a pass that changed nothing over all ordered pairs leaves no qualifying pair |
| Simplification.PassFrom | minesweeper_csp/csp.py:115-122 | the rest of a pass, from the pair (i, j) on in insertion order, eliminates on the current constraints and keeps the keys |
| Simplification.Pass | minesweeper_csp/csp.py:114-124 | one whole pass over all ordered pairs keeps the keys |
| Simplification.Iterate | minesweeper_csp/csp.py:274-276 | n passes in a row keep the keys |
| Simplification.PassFixed | minesweeper_csp/csp.py:114-124 | a pass over constraints with no qualifying pair changes nothing |
| Simplification.IterateStays | minesweeper_csp/csp.py:274-276 | once a pass leaves no qualifying pair, every later pass leaves the constraints as they are |
| Simplification.FixpointUnique | minesweeper_csp/csp.py:274-276 | the fixpoint the repeated passes reach is unique |
| Simplification.VisitStep | minesweeper_csp/csp.py:117-122 | visiting one pair keeps the pass state, the rest of the pass still leads to the whole pass's result, and a qualifying pair is noted |
| Simplification.RowEnd | minesweeper_csp/csp.py:116-122 | the end of one row of pairs is the start of the next |
| Search.Detach | minesweeper_csp/csp.py:180-182 | removing v from the constraints of v: keys and sums stay, cells only shrink, those constraints lose v, the others stay |
| Search.Shift | minesweeper_csp/csp.py:196-197 | shifting the targets of v's constraints: keys and cells stay, the other constraints stay |
| Search.Reattach | minesweeper_csp/csp.py:208-210 | adding v back to its constraints: keys and sums stay, cells only grow, those constraints hold v again, the others stay |
| Search.Branch | minesweeper_csp/csp.py:178-201 | the graph a branch searches: keys stay, v's constraints no longer hold v, the others stay |
| Search.DetachAdd | minesweeper_csp/csp.py:180-182 | removing v at one more constraint updates just that constraint |
| Search.ShiftAdd | minesweeper_csp/csp.py:196-197 | shifting one more target updates just that constraint |
| Search.ReattachAdd | minesweeper_csp/csp.py:208-210 | adding v back at one more constraint updates just that constraint |
| Search.RestoreDeleted | minesweeper_csp/csp.py:207 | putting the deleted variable back restores the variable map |
| Search.ReattachDetach | minesweeper_csp/csp.py:206-210 | restoring a removed variable gives back the original constraints |
| Search.ShiftBack | minesweeper_csp/csp.py:202-204 | re-incrementing the decremented targets gives back the original constraints |
| Search.BranchLinked | minesweeper_csp/csp.py:178-182 | after removing a variable the graph stays linked both ways with matching keys, in either branch |
| Search.BranchSolutions | minesweeper_csp/csp.py:184-201 | the solutions of a branch are exactly the solutions of the parent that give v the branch's value |
| Search.PruneMine | minesweeper_csp/csp.py:153-157 | no solution makes v a mine when one of its constraints has sum 0 |
| Search.PruneSafe | minesweeper_csp/csp.py:165-170 | no solution makes v safe when one of its constraints has as many cells as mines |
| Search.BranchBounded | minesweeper_csp/csp.py:177-201 | a branch the pruning allows keeps every target between 0 and its cell count |
| Search.LeafSolution | minesweeper_csp/csp.py:140-143 | with no variable left and feasible targets, the empty assignment is a solution |
| Search.LeafRecords | minesweeper_csp/csp.py:140-143 | a leaf records exactly the assignment reached |
| Search.LiftRecord | minesweeper_csp/csp.py:186-200 | an entry recorded below v := value extends the parent's prefix over the parent's keys, with v's value added |
| Search.LiftBranch | minesweeper_csp/csp.py:184-201 | every entry an allowed branch records extends the parent's prefix and, under feasible targets, solves the parent |
| Search.CompleteBranch | minesweeper_csp/csp.py:184-201 | every parent solution with v = value is among the entries of that branch |
| Search.CombineBranches | minesweeper_csp/csp.py:145-210 | what the two branches record together is exactly what the parent must record |
| Aggregation.AddPair | minesweeper_csp/csp.py:228 | `setdefault(key, 0) + value` adds the key if new and changes no other count |
| Aggregation.AddPairs | minesweeper_csp/csp.py:227-228 | counting one configuration keeps every key already counted |
| Aggregation.Tally | minesweeper_csp/csp.py:225-228 | counting one more configuration keeps every key already counted |
| Aggregation.AddPairsMeaning | minesweeper_csp/csp.py:227-228 | counting one configuration adds, for every cell, the values it gives that cell |
| Aggregation.TallyMeaning | minesweeper_csp/csp.py:225-228 | the counter has a cell iff some configuration mentions it, and holds the total of its values |
| Aggregation.CertainActions | minesweeper_csp/csp.py:230-233 | the comprehension `values_found` yields actions on counted cells only, at most one per cell |
| Aggregation.TotalAllMines | minesweeper_csp/csp.py:230-233 | with 0/1 values, a total equal to the number of configurations means a mine in all of them, and conversely |
| Aggregation.TotalAllSafe | minesweeper_csp/csp.py:230-233 | with 0/1 values, a total of 0 means safe in all configurations, and conversely |
| Aggregation.RecordsFull | minesweeper_csp/csp.py:219-220 | each configuration recorded from the empty assignment gives every variable one 0/1 value |
| Aggregation.RecordedSolutions | minesweeper_csp/csp.py:219-220 | under feasible targets every recorded configuration is a solution |
| Aggregation.RecordsSolvable | minesweeper_csp/csp.py:219-228 | under feasible targets, a search that recorded anything found a solution, so an unsolvable graph leaves the counter empty |
| Aggregation.TallyKeys | minesweeper_csp/csp.py:225-228 | after a search that recorded something, the counter's keys are exactly the variables |
| Aggregation.CertainSound | minesweeper_csp/csp.py:230-233 | a certain FLAG is a mine, and a certain OPEN safe, in every solution |
| Aggregation.MineEverywhere | minesweeper_csp/csp.py:230-233 | a variable that is a mine in every solution is flagged |
| Aggregation.SafeEverywhere | minesweeper_csp/csp.py:230-233 | a variable safe in every solution is opened |
| Aggregation.CertainComplete | minesweeper_csp/csp.py:230-233 | on a solvable graph a cell is flagged (opened) iff it is a mine (safe) in every solution |
| Aggregation.CertaintiesMembers | minesweeper_csp/csp.py:230-233 | an action is a certainty iff it is right in every solution |
| Aggregation.CertainSubset | minesweeper_csp/csp.py:230-237 | the certain actions are always right in every solution |
| Aggregation.CertainFound | minesweeper_csp/csp.py:230-233 | on a solvable graph every action right in every solution is found |
| Aggregation.CertainExact | minesweeper_csp/csp.py:230-237 | on a solvable graph the certain actions are exactly the actions right in every solution |
| Aggregation.MinCell | minesweeper_csp/csp.py:240 | `min` returns a key that is lexicographically least |
| Aggregation.CountMines | minesweeper_csp/csp.py:225-228 | the counting loop computes the tally of all configurations |
| Csp.LinkCell | minesweeper_csp/csp.py:74-78 | one linking turn adds v to the constraint, keeps the variables mirroring the constraints, and keeps links adjacent |
| Csp.LinkVariables | minesweeper_csp/csp.py:72-78 | the linking loop gives the new constraint exactly the given cells and the variables that mirror the result |
| Csp.EmittedCorrect | minesweeper_csp/csp.py:267-280 | on a refinement of the graph with the same solutions, every emitted action is right in every solution of the graph |
| Csp.EmittedActionCorrect | minesweeper_csp/csp.py:101-111 | one emitted action of such a refinement is right in every solution of the original graph |
| Csp.MinesweeperCSP.constructor | minesweeper_csp/csp.py:38-45 | the solver starts with an empty graph on the given board |
| Csp.MinesweeperCSP.FindConstraintVariables | minesweeper_csp/csp.py:90-98 | returns exactly the flagged and the unflagged hidden neighbours, at most 8 together |
| Csp.MinesweeperCSP.RegisterConstraint | minesweeper_csp/csp.py:60-78 | nothing without unflagged hidden neighbours; the ValueError iff the remaining count is out of range; otherwise the clue's constraint is added, linked both ways |
| Csp.MinesweeperCSP.CreateConstraintGraph | minesweeper_csp/csp.py:48-57 | succeeds iff every constraint cell has a count in [0, 9), then yields exactly the board's graph in scan order; otherwise reports the first bad cell, keeping the constraints before it |
| Csp.MinesweeperCSP.SolveTrivialConstraints | minesweeper_csp/csp.py:101-111 | the list is one block per constraint in insertion order, each block holding exactly the actions that constraint forces; so, with multiplicity, exactly the emitted actions |
| Csp.MinesweeperCSP.SolveConstraint | minesweeper_csp/csp.py:103-109 | one turn of the loop keeps the list so far and appends exactly the actions the constraint forces |
| Csp.MinesweeperCSP.AttemptSimplifyConstraints | minesweeper_csp/csp.py:114-124 | the new constraints are exactly one pass (`Pass`) over the old ones in insertion order; returns True iff some pair qualified at the start; keeps keys and solutions, shrinks cell sets only, and lowers the size when it changes something, on non-empty constraints |
| Csp.MinesweeperCSP.SimplifyAgainstAll | minesweeper_csp/csp.py:116-122 | the inner loop over b keeps the pass state and leaves the pass at the start of the next row |
| Csp.MinesweeperCSP.SimplifyPair | minesweeper_csp/csp.py:117-122 | one visit eliminates b from a iff b's cells are a proper subset of a's, reporting it, and keeps the pass state |
| Csp.MinesweeperCSP.SimplifyToFixpoint | minesweeper_csp/csp.py:274-276 | terminates on the fixpoint of the passes: the result is the n-th iterate of `Pass` on the start for some n and has no qualifying pair; it refines the start and has the same solutions |
| Csp.MinesweeperCSP.PickVariable | minesweeper_csp/csp.py:147-148 | returns a variable with the fewest constraints |
| Csp.MinesweeperCSP.CanBeMine | minesweeper_csp/csp.py:153-161 | true iff none of v's constraints has sum 0 |
| Csp.MinesweeperCSP.CanBeSafe | minesweeper_csp/csp.py:165-173 | true iff none of v's constraints has as many cells as mines |
| Csp.MinesweeperCSP.RemoveVariable | minesweeper_csp/csp.py:179-182 | deletes v and removes it from exactly its constraints |
| Csp.MinesweeperCSP.ShiftSums | minesweeper_csp/csp.py:196-197 | adds d to exactly the targets of the given constraints |
| Csp.MinesweeperCSP.RestoreVariable | minesweeper_csp/csp.py:207-210 | puts v back and adds it to exactly its constraints |
| Csp.MinesweeperCSP.RecursiveSearch | minesweeper_csp/csp.py:137-211 | restores the graph and extends the list with entries that extend the current prefix and cover every solution, each a solution under feasible targets |
| Csp.MinesweeperCSP.ExploreValues | minesweeper_csp/csp.py:177-210 | explores 0 then 1 as allowed, each branch recording what its branch graph requires, and restores the graph |
| Csp.MinesweeperCSP.SearchSolution | minesweeper_csp/csp.py:136-247 | restores the graph; certain actions are right in every solution and, on a solvable graph, exactly all of them; a solvable graph with no certainty gives the lexicographically least counted key; a random hidden unflagged cell (IndexError when there is none) only when the graph is empty or unsolvable, and always when targets are feasible and it is unsolvable |
| Csp.MinesweeperCSP.TrivialActions | minesweeper_csp/csp.py:264-271 | on the board's graph the trivial stage emits one block per constraint in insertion order, exactly what the constraints force, each action right in every solution |
| Csp.MinesweeperCSP.SimplifiedActions | minesweeper_csp/csp.py:273-280 | simplifies the board's graph to the fixpoint of the passes, which refines it with the same solutions, then emits one block per constraint in insertion order, exactly what the fixpoint forces; every action is right in every solution of the board's graph |
| Csp.MinesweeperCSP.SimplifyOrSearch | minesweeper_csp/csp.py:273-285 | answers Simplified exactly when propagation on the fixpoint emits something, with those actions, leaving the fixpoint, the board's variables and the order in place; otherwise the fixpoint emits nothing and the graph is rebuilt from the board, and the answer (Searched, or IndexError) carries every promise of the search on it |
| Csp.MinesweeperCSP.Step | minesweeper_csp/csp.py:250-285 | nothing on a finished game; a random first click (IndexError on an empty board); the graph left untouched outside the Playing state; in the Playing state, the promises of `Play` |
| Csp.MinesweeperCSP.Play | minesweeper_csp/csp.py:264-285 | the ValueError of the first out-of-range clue in scan order; else Trivial exactly when propagation on the board's graph emits something (in insertion-order blocks, each action right in every solution, with the board's graph left in place); else Simplified or Searched with the promises of the later stages, and an error only as the search's IndexError |

## Left out

- `apply_actions` and `solve`: they only forward actions to the adapter's
  `open_cell`/`flag_cell` and loop on the game state, which the model cannot
  see change. `Step` returns the actions it would apply, as `Move`.
- `example.py`, the adapter implementations and the adapter's write side
  (`open_cell`, `flag_cell`): they are I/O on a concrete game, not solver
  logic. The board is a value whose `isHidden`, `isFlagged`,
  `adjacentMines` and `state` stand for the adapter's answers.
- `random.choice`: the draws are explicit parameters (`Choice`, `Step`'s
  `drawX`/`drawY`/`draw`).
- Csp.MinesweeperCSP.SolveTrivialConstraints: inside one constraint's block
  the actions follow the iteration order of a Python `set`, which the
  language leaves unspecified. The model fixes which actions form each block
  (as a multiset) and the order of the blocks, not the order within a block.
  The same holds for Propagation.AppendTagged, TrivialActions and
  SimplifiedActions.
- Csp.MinesweeperCSP.PickVariable: `min` breaks ties between equally
  constrained variables by dictionary order. The model only promises some
  variable with the fewest constraints.
- Csp.MinesweeperCSP.RestoreVariable: deleting and re-inserting a key moves
  it to the end of a Python dictionary. The model's `variables` map has no
  order, and only `constraints` carries one (`order`), so that reordering is
  not represented.
- Csp.MinesweeperCSP.RecursiveSearch: `possible_solutions` is a list the
  source appends to in place. The model threads it as a value returned from
  each call. Aliasing between the search's maps and the solver's fields is
  exact, because the model's search runs on the fields themselves.
- Csp.MinesweeperCSP.RecursiveSearch: recorded configurations are proved to
  be solutions only when every target lies between 0 and its cell count
  (`Bounded`). With an infeasible target the source still records leaves
  that solve nothing. This is why `SearchSolution` states its certain
  actions relative to the solutions, which is sound in both cases.
- Csp.MinesweeperCSP.RecursiveSearch: the contract does not say that the
  recorded entries are pairwise distinct, although the source records each
  solution once. The aggregation does not depend on it: a count equal to
  the number of configurations, a count of 0 and the counter's keys are all
  unchanged by repeating a configuration.
- Csp.MinesweeperCSP.RegisterConstraint: it requires an in-bounds cell that is
  not registered yet, which is how `create_constraint_graph` calls it.
- Csp.MinesweeperCSP.SimplifyToFixpoint: it requires every constraint to keep
  some variable, which every graph built from a board satisfies. With an
  empty constraint beside a non-empty one, the source's `while True` loop
  would report a change on every pass and never stop.
- The partial state an exception leaves behind inside `add_variable` or
  `add_constraint`: both are proved unable to raise on a graph built from a
  board (`LinkStep`). `Constraint`'s ValueError is modelled before anything
  is inserted, as in the source.
- `mine_count`, `width` and `height` as separate fields: they are read from
  the board value.

Notes on the source:

- `min(mine_counter)` compares the keys, i.e. the cells as tuples. It picks
  the lexicographically least counted cell, not the cell with the fewest
  mines that the comment next to it describes. The model follows the code
  (`MinCell`, `SearchSolution`).
- The comment on `BaseAdapter.is_hidden` (minesweeper_csp/base_adapter.py)
  says it returns True for a revealed cell. The solver uses it as "hidden".
  The model follows the solver's use.
- `create_constraint_graph` calls `register_constraint` only for a positive
  clue. A revealed cell with clue 0 never becomes a constraint, and a
  hidden cell (clue 0 by the adapter's contract) never does either.
