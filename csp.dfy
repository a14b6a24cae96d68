/**
 * The solver object: it rebuilds the constraint graph from the board, emits
 * the trivially certain actions, simplifies the constraints to a fixpoint
 * and, failing all that, searches every solution of the graph in place.
 */
module Csp {
  import opened Wrappers
  import opened Game
  import opened Constraints
  import opened Solutions
  import opened Propagation
  import opened Simplification
  import opened Search
  import opened Aggregation

  /** What one `step` does to the board (the actions `apply_actions` would apply). */
  datatype Move =
    | Finished                         // the game is already won or lost
    | FirstOpen(cell: Pos)             // random first click
    | Trivial(actions: seq<Action>)    // certain actions of the fresh graph
    | Simplified(actions: seq<Action>) // certain actions after subset elimination
    | Searched(decision: Decision)     // outcome of the exhaustive search

  /**
   * What `search_solution` promises about its decision d on the graph (V, C),
   * with `hidden` the hidden, unflagged cells and `draw` the random draw:
   * the certain actions are exactly the certainties when a solution exists,
   * the least counted cell is chosen when none is certain, and a random
   * hidden cell (or no cell at all) is chosen only when nothing was counted.
   */
  ghost predicate SearchOutcome(d: Result<Decision, Error>, V: map<Pos, Variable>, C: map<Pos, Constraint>,
                                hidden: seq<Pos>, draw: nat)
  {
    (d.Ok? && d.value.Certain? ==> d.value.actions != {} && d.value.actions <= Certainties(V, C)) &&
    (Solvable(V, C) && Certainties(V, C) != {} ==> d == Ok(Certain(Certainties(V, C)))) &&
    (Solvable(V, C) && Certainties(V, C) == {} && V != map[] ==> d.Ok? && d.value.LeastKey?) &&
    (d.Ok? && d.value.LeastKey? ==> d.value.cell in V && forall q :: q in V ==> LexLe(d.value.cell, q)) &&
    (d.Ok? && d.value.Landlocked? ==>
       (V == map[] || !Solvable(V, C)) && hidden != [] && d.value.cell == Choice(hidden, draw)) &&
    (d.Err? ==> (V == map[] || !Solvable(V, C)) && hidden == [] && d.error == EmptyChoice) &&
    (Bounded(C) && !Solvable(V, C) ==> d.Err? || d.value.Landlocked?)
  }

  /**
   * One turn of the loop of `register_constraint`: the variable at v (created
   * on first use) gains the constraint at p, and that constraint gains v.
   * Neither 8-element guard fires while the constraint has room, because
   * the cells are board cells adjacent to p.
   */
  method LinkCell(b: Board, C0: map<Pos, Constraint>, V0: map<Pos, Variable>, p: Pos, v: Pos)
    returns (C: map<Pos, Constraint>, V: map<Pos, Variable>)
    requires NeighbourLinks(b, C0) && V0 == VariablesOf(C0) && p in C0
    requires b.InBounds(p) && b.InBounds(v) && Adjacent(v, p) && v !in C0[p].variables
    requires |C0[p].variables + {v}| <= 8
    ensures C == C0[p := C0[p].(variables := C0[p].variables + {v})]
    ensures V == VariablesOf(C) && NeighbourLinks(b, C)
  {
    LinkStep(b, C0, p, v);
    var variable := if v in V0 then V0[v] else Variable(v.0, v.1, {});
    var linked := AddConstraint(variable, p.0, p.1);
    var grown := AddVariable(C0[p], v.0, v.1);
    V := V0[v := linked.value];
    C := C0[p := grown.value];
  }

  /**
   * The loop of `register_constraint` that links a new constraint k, empty so
   * far, with each of the given cells.
   */
  method LinkVariables(b: Board, C0: map<Pos, Constraint>, V0: map<Pos, Variable>, k: Constraint, cells: set<Pos>)
    returns (C: map<Pos, Constraint>, V: map<Pos, Variable>)
    requires NeighbourLinks(b, C0) && V0 == VariablesOf(C0)
    requires b.InBounds((k.x, k.y)) && (k.x, k.y) !in C0 && k.variables == {}
    requires forall v :: v in cells ==> b.InBounds(v) && Adjacent(v, (k.x, k.y))
    requires |cells| <= 8
    ensures C == C0[(k.x, k.y) := k.(variables := cells)]
    ensures V == VariablesOf(C) && NeighbourLinks(b, C)
  {
    var p := (k.x, k.y);
    LinkNothing(C0, p, k);
    LinkEmpty(b, C0, p, k);
    C, V := C0[p := k], V0;
    var rest := cells;
    ghost var done: set<Pos> := {};
    while rest != {}
      invariant rest <= cells && done == cells - rest
      invariant C == C0[p := k.(variables := done)]
      invariant V == VariablesOf(C) && NeighbourLinks(b, C)
      decreases rest
    {
      var v :| v in rest;
      SubsetCard(done + {v}, cells);
      C, V := LinkCell(b, C, V, p, v);
      rest := rest - {v};
      done := done + {v};
    }
    assert done == cells by { assert rest == {}; }
  }

  /**
   * An action propagation emits on a graph that refines C0 and has its
   * solutions is right in every solution of C0.
   */
  lemma EmittedCorrect(V: map<Pos, Variable>, C0: map<Pos, Constraint>, C: map<Pos, Constraint>,
                       keys: seq<Pos>)
    requires Linked(V, C0) && Refines(C, C0)
    requires SameSolutions(C, C0)
    requires forall k :: k in keys ==> k in C
    ensures forall a :: a in Emitted(C, keys) ==> Correct(V, C0, a)
  {
    forall a | a in Emitted(C, keys)
      ensures Correct(V, C0, a)
    {
      EmittedActionCorrect(V, C0, C, keys, a);
    }
  }

  lemma EmittedActionCorrect(V: map<Pos, Variable>, C0: map<Pos, Constraint>, C: map<Pos, Constraint>,
                             keys: seq<Pos>, a: Action)
    requires Linked(V, C0) && Refines(C, C0)
    requires SameSolutions(C, C0)
    requires forall k :: k in keys ==> k in C
    requires a in Emitted(C, keys)
    ensures Correct(V, C0, a)
  {
    forall k | k in C
      ensures C[k].variables <= V.Keys
    {
      assert forall w :: w in C0[k].variables ==> w in V;
    }
    EmittedMembers(C, keys, a);
    var k :| k in keys && Forces(C, k, a);
    assert a.cell in V;
    forall m | IsSolution(m, V.Keys, C0)
      ensures m[a.cell] == (if a.kind == Flag then 1 else 0)
    {
      EmittedSound(C, keys, m, V.Keys, a);
    }
  }

  class MinesweeperCSP {
    const game: Board
    var constraints: map<Pos, Constraint>
    var variables: map<Pos, Variable>
    /** The keys of `constraints` in insertion order: the order `constraints.values()` visits them. */
    var order: seq<Pos>

    /** `order` lists each key of `constraints` exactly once. */
    ghost predicate Valid()
      reads this
    {
      Distinct(order) && forall k :: k in constraints <==> k in order
    }

    constructor (game: Board)
      ensures this.game == game && constraints == map[] && variables == map[] && order == []
      ensures Valid()
    {
      this.game := game;
      constraints := map[];
      variables := map[];
      order := [];
    }

    /**
     * `neighbours` feeding `find_constraint_variables`: the hidden neighbours
     * of (x, y), split into the flagged and the unflagged ones.
     */
    method FindConstraintVariables(x: int, y: int) returns (flagged: set<Pos>, unflagged: set<Pos>)
      ensures flagged == Flagged(game, (x, y)) && unflagged == Unflagged(game, (x, y))
      ensures |flagged| + |unflagged| <= 8
    {
      var ns := Neighbours(game, x, y);
      var hidden := set n | n in ns && game.isHidden(n.0, n.1);
      flagged := set n | n in hidden && game.isFlagged(n.0, n.1);
      unflagged := hidden - flagged;
      forall q
        ensures q in hidden <==> game.InBounds(q) && Adjacent(q, (x, y)) && game.isHidden(q.0, q.1)
      {
      }
      assert flagged == Flagged(game, (x, y));
      assert unflagged == Unflagged(game, (x, y));
      ClassifiedBound(game, (x, y));
    }

    /**
     * Registers the clue at (x, y): nothing when it has no unflagged hidden
     * neighbour, an error when its remaining count is out of range, and
     * otherwise its constraint, linked both ways to every such neighbour.
     */
    method RegisterConstraint(x: int, y: int) returns (r: Result<(), Error>)
      requires game.InBounds((x, y)) && (x, y) !in constraints
      requires NeighbourLinks(game, constraints) && variables == VariablesOf(constraints)
      modifies this
      ensures r.Ok? <==> Unflagged(game, (x, y)) == {} || ValidSum(game, (x, y))
      ensures r.Err? ==> r.error == SumOutOfRange(x, y, ClueSum(game, (x, y)))
      ensures r.Ok? && Unflagged(game, (x, y)) != {} ==>
        constraints == old(constraints)[(x, y) := ClueConstraint(game, (x, y))] &&
        order == old(order) + [(x, y)]
      ensures r.Err? || Unflagged(game, (x, y)) == {} ==>
        constraints == old(constraints) && order == old(order)
      ensures variables == VariablesOf(constraints)
    {
      var flagged, unflagged := FindConstraintVariables(x, y);
      if unflagged == {} {
        return Ok(());
      }
      var made := NewConstraint(x, y, game.adjacentMines(x, y) - |flagged|);
      if made.Err? {
        return Err(made.error);
      }
      assert made.value.(variables := unflagged) == ClueConstraint(game, (x, y));
      order := order + [(x, y)];
      constraints, variables := LinkVariables(game, constraints, variables, made.value, unflagged);
      return Ok(());
    }

    /**
     * Rebuilds the graph by scanning the board column by column. It fails
     * exactly when some constraint cell has a remaining count out of range,
     * reporting the first such cell and keeping the constraints before it;
     * otherwise the graph is the one the board determines.
     */
    method CreateConstraintGraph() returns (r: Result<(), Error>)
      modifies this
      ensures Valid() && variables == VariablesOf(constraints)
      ensures r.Ok? <==> forall p :: p in ClueOrder(game) ==> ValidSum(game, p)
      ensures r.Ok? ==>
        order == ClueOrder(game) && constraints == ExpectedConstraints(game) &&
        variables == ExpectedVariables(game)
      ensures r.Err? ==>
        |order| < |ClueOrder(game)| && order == ClueOrder(game)[..|order|] &&
        constraints == ConstraintsAt(game, order) &&
        (forall p :: p in order ==> ValidSum(game, p)) &&
        var bad := ClueOrder(game)[|order|];
        !ValidSum(game, bad) && r.error == SumOutOfRange(bad.0, bad.1, ClueSum(game, bad))
    {
      constraints := map[];
      variables := map[];
      order := [];
      var height := game.height;
      for x := 0 to game.width
        invariant order == ClueCells(game, Scanned(height, x, 0))
        invariant constraints == ConstraintsAt(game, order)
        invariant variables == VariablesOf(constraints)
        invariant forall p :: p in order ==> ValidSum(game, p)
      {
        for y := 0 to height
          invariant order == ClueCells(game, Scanned(height, x, y))
          invariant constraints == ConstraintsAt(game, order)
          invariant variables == VariablesOf(constraints)
          invariant forall p :: p in order ==> ValidSum(game, p)
        {
          ScanStep(game, x, y);
          if game.adjacentMines(x, y) > 0 {
            var res := RegisterConstraint(x, y);
            if res.Err? {
              ScanReaches(game, x, y);
              assert (x, y) == ClueOrder(game)[|order|];
              return res;
            }
          }
        }
      }
      AllCellsMembers(game);
      ClueCellsMembers(game, AllCells(game));
      r := Ok(());
    }

    /**
     * `solve_trivial_constraints`: visiting the constraints in insertion
     * order, every cell of a constraint with no mine left is opened and every
     * cell of a constraint whose cells are all mines is flagged.
     */
    method SolveTrivialConstraints() returns (actions: seq<Action>)
      requires Valid()
      ensures InBlocks(actions, constraints, order)
      ensures multiset(actions) == Emitted(constraints, order)
    {
      actions := [];
      var C, keys := constraints, order;
      for i := 0 to |keys|
        invariant InBlocks(actions, C, keys[..i])
      {
        var solved := SolveConstraint(actions, C[keys[i]]);
        InBlocksSnoc(actions, solved, C, keys, i);
        actions := solved;
      }
      assert keys[..|keys|] == keys;
      InBlocksEmitted(actions, C, keys);
    }

    /** The body of the loop over `constraints.values()`: appends the actions c forces. */
    static method SolveConstraint(actions: seq<Action>, c: Constraint) returns (solved: seq<Action>)
      ensures |actions| <= |solved| && solved[..|actions|] == actions
      ensures multiset(solved[|actions|..]) == ConstraintActions(c)
    {
      solved := actions;
      if c.sum == 0 {
        solved := AppendTagged(actions, Open, c.variables);
      } else if c.sum == |c.variables| {
        solved := AppendTagged(actions, Flag, c.variables);
      }
    }

    /**
     * `attempt_simplify_constraints`: one pass over all ordered pairs (a, b)
     * of distinct constraints, replacing a by a − b whenever the variables of
     * b form a strict subset of those of a. It reports whether it changed
     * anything, which happens exactly when some pair qualified at the start;
     * the solutions stay the same and, on non-empty constraints, the total
     * size strictly drops.
     */
    method AttemptSimplifyConstraints() returns (simplified: bool)
      requires Valid()
      modifies this
      ensures order == old(order) && variables == old(variables) && Valid()
      ensures constraints == Pass(old(constraints), order)
      ensures simplified <==> HasStrictSuperset(old(constraints))
      ensures PassState(constraints, old(constraints), order, simplified)
    {
      ghost var C0 := constraints;
      simplified := false;
      for i := 0 to |order|
        invariant order == old(order) && variables == old(variables)
        invariant PassAt(constraints, C0, order, i, 0, simplified)
      {
        constraints, simplified := SimplifyAgainstAll(constraints, order, i, C0, simplified);
        RowEnd(constraints, C0, order, i, simplified);
      }
      assert PassAt(constraints, C0, order, |order|, 0, simplified);
      assert PassFrom(constraints, order, |order|, 0) == constraints;
      if !simplified {
        NoneLeft(C0, order);
      }
    }

    /** The inner loop of the pass: `a` is the i-th constraint of C, `b` runs over all of them. */
    static method SimplifyAgainstAll(C: map<Pos, Constraint>, keys: seq<Pos>, i: nat, ghost C0: map<Pos, Constraint>, simplified: bool)
      returns (C': map<Pos, Constraint>, s: bool)
      requires PassAt(C, C0, keys, i, 0, simplified) && i < |keys|
      ensures PassAt(C', C0, keys, i, |keys|, s)
    {
      C', s := C, simplified;
      for j := 0 to |keys|
        invariant PassAt(C', C0, keys, i, j, s) == true
      {
        C', s := SimplifyPair(C', keys, i, j, C0, s);
      }
    }

    /** One visit of the pass: when b's cells are a proper subset of a's, eliminate b from a. */
    static method SimplifyPair(C: map<Pos, Constraint>, keys: seq<Pos>, i: nat, j: nat, ghost C0: map<Pos, Constraint>, simplified: bool)
      returns (C': map<Pos, Constraint>, s: bool)
      requires PassAt(C, C0, keys, i, j, simplified) && i < |keys| && j < |keys|
      ensures PassAt(C', C0, keys, i, j + 1, s)
      ensures s <==> simplified || (i != j && C[keys[j]].variables < C[keys[i]].variables)
    {
      VisitStep(C, C0, keys, i, j, simplified);
      C', s := C, simplified;
      var a, b := keys[i], keys[j];
      if i != j && C[b].variables < C[a].variables {
        C' := Eliminate(C, a, b);
        s := true;
      }
    }

    /**
     * The `while True` loop of `step` that repeats the pass until it changes
     * nothing. It terminates because every changing pass shrinks the total
     * size, which needs every constraint to keep some variable; at the end no
     * pair qualifies and the solutions are those of the start.
     */
    method SimplifyToFixpoint()
      requires Valid() && NonEmpty(constraints)
      modifies this
      ensures order == old(order) && variables == old(variables) && Valid()
      ensures FixpointOf(constraints, old(constraints), order)
      ensures Refines(constraints, old(constraints)) && NonEmpty(constraints)
      ensures SameSolutions(constraints, old(constraints))
    {
      ghost var passes: nat := 0;
      while true
        invariant order == old(order) && variables == old(variables) && Valid()
        invariant constraints == Iterate(old(constraints), order, passes)
        invariant Refines(constraints, old(constraints)) && NonEmpty(constraints)
        invariant SameSolutions(constraints, old(constraints))
        decreases Size(constraints, order)
      {
        var changed := AttemptSimplifyConstraints();
        passes := passes + 1;
        if !changed {
          return;
        }
      }
    }

    /**
     * `min(current_variables.values(), key=...)`: a variable mentioned by the
     * fewest constraints.
     */
    method PickVariable() returns (v: Pos)
      requires variables != map[]
      ensures v in variables
      ensures forall w :: w in variables ==> |variables[v].constraints| <= |variables[w].constraints|
    {
      var rest := variables.Keys;
      v :| v in rest;
      rest := rest - {v};
      while rest != {}
        invariant rest <= variables.Keys && v in variables
        invariant forall w :: w in variables && w !in rest ==> |variables[v].constraints| <= |variables[w].constraints|
        decreases rest
      {
        var w :| w in rest;
        if |variables[w].constraints| < |variables[v].constraints| {
          v := w;
        }
        rest := rest - {w};
      }
    }

    /** The first `for ... else` of the search: v may be a mine unless one of its constraints has no mine left. */
    method CanBeMine(v: Pos) returns (possible: bool)
      requires v in variables && forall c :: c in variables[v].constraints ==> c in constraints
      ensures possible <==> forall c :: c in variables[v].constraints ==> constraints[c].sum != 0
    {
      var rest := variables[v].constraints;
      while rest != {}
        invariant rest <= variables[v].constraints
        invariant forall c :: c in variables[v].constraints && c !in rest ==> constraints[c].sum != 0
        decreases rest
      {
        var c :| c in rest;
        if constraints[c].sum == 0 {
          return false;
        }
        rest := rest - {c};
      }
      return true;
    }

    /**
     * The second `for ... else` of the search: v may be safe unless one of its
     * constraints needs every remaining cell to be a mine.
     */
    method CanBeSafe(v: Pos) returns (possible: bool)
      requires v in variables && forall c :: c in variables[v].constraints ==> c in constraints
      ensures possible <==> forall c :: c in variables[v].constraints ==> |constraints[c].variables| != constraints[c].sum
    {
      var rest := variables[v].constraints;
      while rest != {}
        invariant rest <= variables[v].constraints
        invariant forall c :: c in variables[v].constraints && c !in rest ==>
          |constraints[c].variables| != constraints[c].sum
        decreases rest
      {
        var c :| c in rest;
        if |constraints[c].variables| == constraints[c].sum {
          return false;
        }
        rest := rest - {c};
      }
      return true;
    }

    /** Deletes the variable at v and removes v from each of its constraints. */
    method RemoveVariable(v: Pos)
      requires v in variables
      requires forall c :: c in variables[v].constraints ==> c in constraints && v in constraints[c].variables
      modifies this
      ensures variables == old(variables) - {v} && order == old(order)
      ensures constraints == Detach(old(constraints), old(variables)[v].constraints, v)
    {
      var variable := variables[v];
      variables := variables - {v};
      ghost var C0 := constraints;
      UpdateNone(C0, v, 0);
      var rest := variable.constraints;
      ghost var done: set<Pos> := {};
      while rest != {}
        invariant rest <= variable.constraints && done == variable.constraints - rest
        invariant constraints == Detach(C0, done, v)
        invariant variables == old(variables) - {v} && order == old(order)
        decreases rest
      {
        var c :| c in rest;
        DetachAdd(C0, done, v, c);
        constraints := constraints[c := constraints[c].(variables := constraints[c].variables - {v})];
        rest := rest - {c};
        done := done + {c};
      }
      assert done == variable.constraints by { assert rest == {}; }
    }

    /** Adds d to the target of every constraint at S (the `sum -= 1` and `sum += 1` loops). */
    method ShiftSums(S: set<Pos>, d: int)
      requires S <= constraints.Keys
      modifies this
      ensures constraints == Shift(old(constraints), S, d)
      ensures variables == old(variables) && order == old(order)
    {
      ghost var C0 := constraints;
      UpdateNone(C0, (0, 0), d);  // only its Shift clause is used here; the cell argument is unused
      var rest := S;
      ghost var done: set<Pos> := {};
      while rest != {}
        invariant rest <= S && done == S - rest
        invariant constraints == Shift(C0, done, d)
        invariant variables == old(variables) && order == old(order)
        decreases rest
      {
        var c :| c in rest;
        ShiftAdd(C0, done, d, c);
        constraints := constraints[c := constraints[c].(sum := constraints[c].sum + d)];
        rest := rest - {c};
        done := done + {c};
      }
      assert done == S by { assert rest == {}; }
    }

    /** Puts the variable back at v and adds v back to each of its constraints. */
    method RestoreVariable(v: Pos, variable: Variable)
      requires variable.constraints <= constraints.Keys
      modifies this
      ensures variables == old(variables)[v := variable] && order == old(order)
      ensures constraints == Reattach(old(constraints), variable.constraints, v)
    {
      variables := variables[v := variable];
      ghost var C0 := constraints;
      UpdateNone(C0, v, 0);
      var rest := variable.constraints;
      ghost var done: set<Pos> := {};
      while rest != {}
        invariant rest <= variable.constraints && done == variable.constraints - rest
        invariant constraints == Reattach(C0, done, v)
        invariant variables == old(variables)[v := variable] && order == old(order)
        decreases rest
      {
        var c :| c in rest;
        ReattachAdd(C0, done, v, c);
        constraints := constraints[c := constraints[c].(variables := constraints[c].variables + {v})];
        rest := rest - {c};
        done := done + {c};
      }
      assert done == variable.constraints by { assert rest == {}; }
    }

    /**
     * `recursive_search`, run on the solver's own maps as the source does:
     * the graph is changed in place while a branch is explored and restored
     * afterwards. The new entries of the returned list are exactly what the
     * search from `values` must record (Records); `possible_solutions` is
     * threaded through as a value.
     */
    method RecursiveSearch(solutions: seq<Assignment>, values: Assignment) returns (found: seq<Assignment>)
      requires Linked(variables, constraints) && KeysMatch(variables, constraints)
      modifies this
      decreases |variables|, 1
      ensures variables == old(variables) && constraints == old(constraints) && order == old(order)
      ensures |solutions| <= |found| && found[..|solutions|] == solutions
      ensures Records(found, |solutions|, values, old(variables).Keys, old(constraints))
    {
      if variables == map[] {
        assert variables.Keys == {};
        LeafRecords(solutions, values, variables, constraints);
        return solutions + [values];
      }
      ghost var V, C := variables, constraints;
      var v := PickVariable();
      var canMine := CanBeMine(v);
      var canSafe := CanBeSafe(v);
      var found0, found1 := solutions, solutions;
      if canMine || canSafe {
        found0, found1 := ExploreValues(v, canMine, canSafe, solutions, values);
      }
      CombineBranches(solutions, found0, found1, values, V, C, v, canMine, canSafe);
      found := found1;
    }

    /**
     * The `if values:` block of `recursive_search`: v is taken out of the
     * graph, the allowed values are explored (0 first, then 1 with the
     * targets of v's constraints decremented), and the graph is put back.
     */
    method ExploreValues(v: Pos, canMine: bool, canSafe: bool, solutions: seq<Assignment>, values: Assignment)
      returns (found0: seq<Assignment>, found1: seq<Assignment>)
      requires Linked(variables, constraints) && KeysMatch(variables, constraints) && v in variables
      modifies this
      decreases |variables|, 0
      ensures variables == old(variables) && constraints == old(constraints) && order == old(order)
      ensures |solutions| <= |found0| <= |found1|
      ensures found0[..|solutions|] == solutions && found1[..|found0|] == found0
      ensures canSafe ==> Records(found0, |solutions|, values + [(v, 0)], old(variables).Keys - {v},
                                  Branch(old(constraints), old(variables)[v].constraints, v, 0))
      ensures !canSafe ==> found0 == solutions
      ensures canMine ==> Records(found1, |found0|, values + [(v, 1)], old(variables).Keys - {v},
                                  Branch(old(constraints), old(variables)[v].constraints, v, 1))
      ensures !canMine ==> found1 == found0
    {
      ghost var V, C := variables, constraints;
      var variable := variables[v];
      var S := variable.constraints;
      RemoveVariable(v);
      BranchLinked(V, C, v, 0);
      found0 := solutions;
      if canSafe {
        found0 := RecursiveSearch(solutions, values + [(v, 0)]);
      }
      found1 := found0;
      if canMine {
        ShiftSums(S, -1);
        BranchLinked(V, C, v, 1);
        found1 := RecursiveSearch(found0, values + [(v, 1)]);
        ShiftSums(S, 1);
        ShiftBack(Detach(C, S, v), S);
      }
      RestoreVariable(v, variable);
      ReattachDetach(C, S, v);
      RestoreDeleted(V, v);
    }

    /**
     * `search_solution`: records every solution of the current graph, counts
     * the mines per cell and decides. The certain actions are right in every
     * solution, and on a solvable graph they are all such actions; otherwise
     * the lexicographically least counted cell is opened; with nothing counted
     * (no variable, or no solution) a hidden unflagged cell is drawn.
     */
    method SearchSolution(draw: nat) returns (r: Result<Decision, Error>)
      requires Linked(variables, constraints) && KeysMatch(variables, constraints)
      modifies this
      ensures variables == old(variables) && constraints == old(constraints) && order == old(order)
      ensures SearchOutcome(r, variables, constraints, HiddenCells(game), draw)
    {
      var possible := RecursiveSearch([], []);
      var counter := CountMines(possible);
      var certain := CertainActions(counter, |possible|);
      CertainSubset(possible, variables, constraints);
      if Bounded(constraints) {
        RecordsSolvable(possible, variables, constraints);
      }
      if Solvable(variables, constraints) {
        CertainExact(possible, variables, constraints);
      }
      if possible != [] {
        TallyKeys(possible, variables.Keys, constraints);
      }
      if certain != {} {
        return Ok(Certain(certain));
      }
      if counter != map[] {
        var k := MinCell(counter.Keys);
        return Ok(LeastKey(k));
      }
      var hidden := HiddenCells(game);
      if hidden == [] {
        return Err(EmptyChoice);
      }
      return Ok(Landlocked(Choice(hidden, draw)));
    }

    /**
     * What the stages after the trivial one promise, in the state they leave:
     * simplification reached the fixpoint of the board's graph and propagated
     * on it, or it emitted nothing there and the search ran on the graph
     * rebuilt from the board.
     */
    ghost predicate LaterStagesOutcome(r: Result<Move, Error>, draw: nat)
      reads this
    {
      var EC, EV, CO := ExpectedConstraints(game), ExpectedVariables(game), ClueOrder(game);
      (r.Ok? ==> r.value.Simplified? || r.value.Searched?) &&
      (r.Ok? && r.value.Simplified? ==>
         r.value.actions != [] && order == CO && variables == EV && FixpointOf(constraints, EC, CO) &&
         Refines(constraints, EC) && SameSolutions(constraints, EC) &&
         InBlocks(r.value.actions, constraints, CO) &&
         forall a :: a in r.value.actions ==> Correct(EV, EC, a)) &&
      (!(r.Ok? && r.value.Simplified?) ==>
         (exists F :: FixpointOf(F, EC, CO) && Emitted(F, CO) == multiset{}) &&
         order == CO && constraints == EC && variables == EV &&
         (r.Err? ==> r.error == EmptyChoice) &&
         SearchOutcome(if r.Ok? then Ok(r.value.decision) else Err(r.error), EV, EC, HiddenCells(game), draw))
    }

    /**
     * What a `step` in the Playing state promises, in the state it leaves: a
     * clue out of range stops the graph at that clue; otherwise the trivial
     * stage answers whenever propagation on the board's graph emits anything,
     * and the later stages answer only when it emits nothing.
     */
    ghost predicate PlayOutcome(r: Result<Move, Error>, draw: nat)
      reads this
    {
      var EC, EV, CO := ExpectedConstraints(game), ExpectedVariables(game), ClueOrder(game);
      (r.Ok? ==> r.value.Trivial? || r.value.Simplified? || r.value.Searched?) &&
      (!(forall p :: p in CO ==> ValidSum(game, p)) ==>
         |order| < |CO| && order == CO[..|order|] && constraints == ConstraintsAt(game, order) &&
         variables == VariablesOf(constraints) &&
         (forall p :: p in order ==> ValidSum(game, p)) &&
         var bad := CO[|order|];
         !ValidSum(game, bad) && r == Err(SumOutOfRange(bad.0, bad.1, ClueSum(game, bad)))) &&
      ((forall p :: p in CO ==> ValidSum(game, p)) ==>
         (Emitted(EC, CO) != multiset{} ==> r.Ok? && r.value.Trivial?) &&
         (r.Ok? && r.value.Trivial? ==>
            constraints == EC && variables == EV && order == CO &&
            r.value.actions != [] && InBlocks(r.value.actions, EC, CO) &&
            multiset(r.value.actions) == Emitted(EC, CO) &&
            forall a :: a in r.value.actions ==> Correct(EV, EC, a)) &&
         (!(r.Ok? && r.value.Trivial?) ==> Emitted(EC, CO) == multiset{} && LaterStagesOutcome(r, draw)))
    }

    /**
     * `step`: nothing once the game is over; a random first click; otherwise
     * the certain actions of the board's graph, else those left after
     * simplification, else the outcome of the exhaustive search.
     */
    method Step(drawX: nat, drawY: nat, draw: nat) returns (r: Result<Move, Error>)
      modifies this
      ensures game.state == Win || game.state == Lose ==> r == Ok(Finished)
      ensures game.state == FirstMove ==>
        r == if game.width == 0 || game.height == 0 then Err(EmptyChoice)
             else Ok(FirstOpen((drawX % game.width, drawY % game.height)))
      ensures game.state != Playing ==>
        constraints == old(constraints) && variables == old(variables) && order == old(order)
      ensures game.state == Playing ==> PlayOutcome(r, draw)
    {
      if game.state == Lose || game.state == Win {
        return Ok(Finished);
      }
      if game.state == FirstMove {
        if game.width == 0 || game.height == 0 {
          return Err(EmptyChoice);
        }
        return Ok(FirstOpen((drawX % game.width, drawY % game.height)));
      }
      r := Play(draw);
    }

    /** The Playing branch of `step`: build the graph, then try each stage in turn. */
    method Play(draw: nat) returns (r: Result<Move, Error>)
      modifies this
      ensures PlayOutcome(r, draw)
    {
      var built := CreateConstraintGraph();
      if built.Err? {
        return Err(built.error);
      }
      var actions := TrivialActions();
      if actions != [] {
        return Ok(Trivial(actions));
      }
      r := SimplifyOrSearch(draw);
    }

    /**
     * Propagation on the graph the board determines: what it emits is right
     * in every solution of that graph.
     */
    method TrivialActions() returns (actions: seq<Action>)
      requires Valid() && order == ClueOrder(game)
      requires constraints == ExpectedConstraints(game) && variables == ExpectedVariables(game)
      ensures InBlocks(actions, ExpectedConstraints(game), ClueOrder(game))
      ensures multiset(actions) == Emitted(ExpectedConstraints(game), ClueOrder(game))
      ensures forall a :: a in actions ==> Correct(ExpectedVariables(game), ExpectedConstraints(game), a)
    {
      ExpectedGraphShape(game);
      actions := SolveTrivialConstraints();
      EmittedCorrect(variables, constraints, constraints, order);
    }

    /**
     * Simplification to a fixpoint followed by propagation on it: every
     * action it finds is right in every solution of the board's graph.
     */
    method SimplifiedActions() returns (actions: seq<Action>)
      requires Valid() && order == ClueOrder(game)
      requires constraints == ExpectedConstraints(game) && variables == ExpectedVariables(game)
      modifies this
      ensures Valid() && order == old(order) && variables == old(variables)
      ensures FixpointOf(constraints, ExpectedConstraints(game), ClueOrder(game))
      ensures Refines(constraints, ExpectedConstraints(game)) && SameSolutions(constraints, ExpectedConstraints(game))
      ensures InBlocks(actions, constraints, order) && multiset(actions) == Emitted(constraints, order)
      ensures forall a :: a in actions ==> Correct(ExpectedVariables(game), ExpectedConstraints(game), a)
    {
      ExpectedGraphShape(game);
      ghost var V, C := variables, constraints;
      SimplifyToFixpoint();
      actions := SolveTrivialConstraints();
      EmittedCorrect(V, C, constraints, order);
    }

    /**
     * The stages of `step` after the trivial one found nothing: simplify to a
     * fixpoint and propagate again, else search the graph built afresh.
     */
    method SimplifyOrSearch(draw: nat) returns (r: Result<Move, Error>)
      requires Valid() && order == ClueOrder(game)
      requires constraints == ExpectedConstraints(game) && variables == ExpectedVariables(game)
      requires forall p :: p in ClueOrder(game) ==> ValidSum(game, p)
      modifies this
      ensures LaterStagesOutcome(r, draw)
    {
      var actions := SimplifiedActions();
      if actions != [] {
        return Ok(Simplified(actions));
      }
      ghost var F := constraints;
      assert Emitted(F, order) == multiset{};
      var built := CreateConstraintGraph();
      assert built.Ok?;
      ExpectedGraphShape(game);
      var decision := SearchSolution(draw);
      assert FixpointOf(F, ExpectedConstraints(game), ClueOrder(game));
      if decision.Err? {
        return Err(decision.error);
      }
      return Ok(Searched(decision.value));
    }
  }
}
