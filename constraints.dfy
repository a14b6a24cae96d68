/**
 * Variables (unresolved cells), constraints (clues) and the constraint graph
 * that a board determines: which clues become constraints, with which target
 * and which cells, and how variables and constraints refer to each other.
 */
module Constraints {
  import opened Wrappers
  import opened Game

  /** An unresolved cell and the positions of the constraints that mention it. */
  datatype Variable = Variable(x: int, y: int, constraints: set<Pos>)

  /** A clue: the number of mines (`sum`) still to place among its `variables`. */
  datatype Constraint = Constraint(x: int, y: int, sum: int, variables: set<Pos>)

  /** The exceptions the engine can raise. */
  datatype Error =
    | SumOutOfRange(x: int, y: int, sum: int)  // ValueError of Constraint(x, y, sum)
    | TooManyConstraints(x: int, y: int)       // Variable.add_constraint past 8 links
    | TooManyVariables(x: int, y: int)         // Constraint.add_variable past 8 links
    | EmptyChoice                              // random.choice of an empty sequence

  /** `Constraint(x, y, sum)`: raises unless 0 <= sum < 9. */
  function NewConstraint(x: int, y: int, sum: int): (r: Result<Constraint, Error>)
    ensures r.Ok? <==> 0 <= sum < 9
    ensures r.Ok? ==> r.value.x == x && r.value.y == y && r.value.sum == sum && r.value.variables == {}
    ensures r.Err? ==> r.error == SumOutOfRange(x, y, sum)
  {
    if 0 <= sum < 9 then Ok(Constraint(x, y, sum, {})) else Err(SumOutOfRange(x, y, sum))
  }

  /** `Constraint.add_variable`: adds (x, y), raising once the set would exceed 8 cells. */
  function AddVariable(c: Constraint, x: int, y: int): (r: Result<Constraint, Error>)
    ensures r.Ok? <==> |c.variables + {(x, y)}| <= 8
    ensures r.Ok? ==> r.value.variables == c.variables + {(x, y)} && r.value.sum == c.sum
                      && r.value.x == c.x && r.value.y == c.y
    ensures r.Err? ==> r.error == TooManyVariables(c.x, c.y)
  {
    var grown := c.(variables := c.variables + {(x, y)});
    if |grown.variables| > 8 then Err(TooManyVariables(c.x, c.y)) else Ok(grown)
  }

  /** `Variable.add_constraint`: adds (x, y), raising once the set would exceed 8 clues. */
  function AddConstraint(v: Variable, x: int, y: int): (r: Result<Variable, Error>)
    ensures r.Ok? <==> |v.constraints + {(x, y)}| <= 8
    ensures r.Ok? ==> r.value.constraints == v.constraints + {(x, y)} && r.value.x == v.x && r.value.y == v.y
    ensures r.Err? ==> r.error == TooManyConstraints(v.x, v.y)
  {
    var grown := v.(constraints := v.constraints + {(x, y)});
    if |grown.constraints| > 8 then Err(TooManyConstraints(v.x, v.y)) else Ok(grown)
  }

  /** A cell becomes a constraint: its clue is positive and it has an unflagged hidden neighbour. */
  predicate IsConstraintCell(b: Board, p: Pos) {
    b.adjacentMines(p.0, p.1) > 0 && Unflagged(b, p) != {}
  }

  /** The clue at p minus the flags already placed around it. */
  function ClueSum(b: Board, p: Pos): int {
    b.adjacentMines(p.0, p.1) - |Flagged(b, p)|
  }

  /** Whether `Constraint(x, y, ClueSum)` can be built without raising. */
  predicate ValidSum(b: Board, p: Pos) {
    0 <= ClueSum(b, p) < 9
  }

  /** The constraint registered for the clue at p. */
  function ClueConstraint(b: Board, p: Pos): Constraint {
    Constraint(p.0, p.1, ClueSum(b, p), Unflagged(b, p))
  }

  /** The constraint cells among `cells`, in order. */
  function ClueCells(b: Board, cells: seq<Pos>): seq<Pos> {
    if cells == [] then []
    else
      var last := cells[|cells| - 1];
      ClueCells(b, cells[..|cells| - 1]) + (if IsConstraintCell(b, last) then [last] else [])
  }

  /** The constraint cells are exactly the cells that qualify, each once if the cells are distinct. */
  lemma {:induction false} ClueCellsMembers(b: Board, cells: seq<Pos>)
    ensures forall p :: p in ClueCells(b, cells) <==> p in cells && IsConstraintCell(b, p)
    ensures Distinct(cells) ==> Distinct(ClueCells(b, cells))
  {
    if cells != [] {
      var init, last := cells[..|cells| - 1], cells[|cells| - 1];
      ClueCellsMembers(b, init);
      assert forall p :: p in cells <==> p in init || p == last;
    }
  }

  /** The constraint cells of the board in scan order: the insertion order of the constraint map. */
  function ClueOrder(b: Board): seq<Pos> {
    ClueCells(b, AllCells(b))
  }

  /** The constraints of the given cells, keyed by position. */
  function ConstraintsAt(b: Board, cells: seq<Pos>): map<Pos, Constraint> {
    map p | p in cells :: ClueConstraint(b, p)
  }

  /** The constraint map a board determines. */
  function ExpectedConstraints(b: Board): map<Pos, Constraint> {
    ConstraintsAt(b, ClueOrder(b))
  }

  /** Every cell some constraint mentions. */
  function Referenced(C: map<Pos, Constraint>): set<Pos> {
    set c, v | c in C && v in C[c].variables :: v
  }

  /** The positions of the constraints that mention v. */
  function LinksOf(C: map<Pos, Constraint>, v: Pos): set<Pos> {
    set c | c in C && v in C[c].variables
  }

  /** The variable at v that mirrors a constraint map. */
  function VariableAt(C: map<Pos, Constraint>, v: Pos): Variable {
    Variable(v.0, v.1, LinksOf(C, v))
  }

  /** The variable map that mirrors a constraint map. */
  function VariablesOf(C: map<Pos, Constraint>): map<Pos, Variable> {
    map v | v in Referenced(C) :: VariableAt(C, v)
  }

  /** The expected variable map of a board. */
  function ExpectedVariables(b: Board): map<Pos, Variable> {
    VariablesOf(ExpectedConstraints(b))
  }

  /** Every map key is its object's own position. */
  ghost predicate KeysMatch(V: map<Pos, Variable>, C: map<Pos, Constraint>) {
    (forall v {:trigger V[v]} :: v in V ==> V[v].x == v.0 && V[v].y == v.1) &&
    (forall c {:trigger C[c]} :: c in C ==> C[c].x == c.0 && C[c].y == c.1)
  }

  /** Variables and constraints refer to each other in both directions. */
  ghost predicate Linked(V: map<Pos, Variable>, C: map<Pos, Constraint>) {
    (forall v, c {:trigger c in V[v].constraints} ::
       v in V && c in V[v].constraints ==> c in C && v in C[c].variables) &&
    (forall c, v {:trigger v in C[c].variables} ::
       c in C && v in C[c].variables ==> v in V && c in V[v].constraints)
  }

  /** Links only join an in-bounds clue to an in-bounds adjacent cell. */
  ghost predicate NeighbourLinks(b: Board, C: map<Pos, Constraint>) {
    forall c, v {:trigger v in C[c].variables} ::
      c in C && v in C[c].variables ==> b.InBounds(c) && b.InBounds(v) && Adjacent(v, c)
  }

  /**
   * The graph a board determines: every key is its object's position, the
   * links go both ways, links join adjacent in-bounds cells, every
   * constraint has between 1 and 8 variables and every variable between 1
   * and 8 constraints.
   */
  lemma ExpectedGraphShape(b: Board)
    ensures KeysMatch(ExpectedVariables(b), ExpectedConstraints(b))
    ensures Linked(ExpectedVariables(b), ExpectedConstraints(b))
    ensures NeighbourLinks(b, ExpectedConstraints(b))
    ensures forall c :: c in ExpectedConstraints(b) ==>
      1 <= |ExpectedConstraints(b)[c].variables| <= 8
    ensures forall v :: v in ExpectedVariables(b) ==>
      1 <= |ExpectedVariables(b)[v].constraints| <= 8
  {
    AllCellsMembers(b);
    ClueCellsMembers(b, AllCells(b));
    ConstraintsAtLinks(b, ClueOrder(b));
    VariableLinksBound(b, ExpectedConstraints(b));
    forall c | c in ExpectedConstraints(b)
      ensures 1 <= |ExpectedConstraints(b)[c].variables| <= 8
    {
      ClassifiedBound(b, c);
    }
  }

  /** The constraints of board cells only link adjacent board cells. */
  lemma ConstraintsAtLinks(b: Board, cells: seq<Pos>)
    requires forall p :: p in cells ==> b.InBounds(p)
    ensures NeighbourLinks(b, ConstraintsAt(b, cells))
  {
    var C := ConstraintsAt(b, cells);
    forall c, v | c in C && v in C[c].variables
      ensures b.InBounds(c) && b.InBounds(v) && Adjacent(v, c)
    {
      AdjacentSymmetric(c, v);
    }
  }

  /**
   * In a graph whose links join adjacent cells, every variable is mentioned by
   * between 1 and 8 constraints.
   */
  lemma VariableLinksBound(b: Board, C: map<Pos, Constraint>)
    requires NeighbourLinks(b, C)
    ensures forall v :: v in VariablesOf(C) ==> 1 <= |VariablesOf(C)[v].constraints| <= 8
  {
    forall v | v in VariablesOf(C)
      ensures 1 <= |VariablesOf(C)[v].constraints| <= 8
    {
      var c :| c in C && v in C[c].variables;
      assert c in LinksOf(C, v);
      assert LinksOf(C, v) + {c} == LinksOf(C, v);
      assert b.InBounds(c) && Adjacent(v, c);
      LinksBound(b, C, v, c);
    }
  }

  /** A cell is linked to at most 8 clues, even counting one more adjacent clue. */
  lemma LinksBound(b: Board, C: map<Pos, Constraint>, v: Pos, extra: Pos)
    requires NeighbourLinks(b, C)
    requires b.InBounds(extra) && Adjacent(v, extra)
    ensures |LinksOf(C, v) + {extra}| <= 8
  {
    var linked := LinksOf(C, v) + {extra};
    forall c | c in linked
      ensures b.InBounds(c) && Adjacent(c, v)
    {
      AdjacentSymmetric(v, c);
    }
    NeighbourhoodBound(b, v, linked);
  }

  /** Linking v to the constraint at p adds p to v's links, creating v if it is new. */
  lemma LinkVariable(C: map<Pos, Constraint>, p: Pos, v: Pos)
    requires p in C && v !in C[p].variables
    ensures var V := VariablesOf(C);
            VariablesOf(C[p := C[p].(variables := C[p].variables + {v})])
            == V[v := Variable(v.0, v.1, (if v in V then V[v].constraints else {}) + {p})]
  {
    var C' := C[p := C[p].(variables := C[p].variables + {v})];
    var V := VariablesOf(C);
    assert Referenced(C') == Referenced(C) + {v} by {
      forall w | w in Referenced(C')
        ensures w in Referenced(C) + {v}
      {
        var c :| c in C' && w in C'[c].variables;
        if w != v { assert w in C[c].variables; }
      }
      assert v in C'[p].variables;
      forall w | w in Referenced(C)
        ensures w in Referenced(C')
      {
        var c :| c in C && w in C[c].variables;
        assert w in C'[c].variables;
      }
    }
    forall w
      ensures LinksOf(C', w) == LinksOf(C, w) + (if w == v then {p} else {})
    {
    }
    assert v !in V ==> LinksOf(C, v) == {};
    var R := V[v := Variable(v.0, v.1, (if v in V then V[v].constraints else {}) + {p})];
    assert VariablesOf(C').Keys == R.Keys;
    forall w | w in R
      ensures VariablesOf(C')[w] == R[w]
    {
    }
  }

  /**
   * One turn of the linking loop of `register_constraint`: fetching (or
   * creating) the variable at v and adding the constraint at p to it, then
   * adding v to that constraint, raises nothing while the constraint has room,
   * yields the mirror of the grown constraint map, and keeps the links between
   * adjacent board cells.
   */
  lemma LinkStep(b: Board, C: map<Pos, Constraint>, p: Pos, v: Pos)
    requires NeighbourLinks(b, C) && p in C
    requires b.InBounds(p) && b.InBounds(v) && Adjacent(v, p) && v !in C[p].variables
    requires |C[p].variables + {v}| <= 8
    ensures var V := VariablesOf(C);
      var linked := AddConstraint(if v in V then V[v] else Variable(v.0, v.1, {}), p.0, p.1);
      var grown := AddVariable(C[p], v.0, v.1);
      linked.Ok? && grown.Ok? &&
      VariablesOf(C[p := grown.value]) == V[v := linked.value] &&
      NeighbourLinks(b, C[p := grown.value])
  {
    var V := VariablesOf(C);
    var grown := C[p].(variables := C[p].variables + {v});
    LinksBound(b, C, v, p);
    LinkVariable(C, p, v);
    assert v !in V ==> LinksOf(C, v) == {};
    forall c, w | c in C[p := grown] && w in C[p := grown][c].variables
      ensures b.InBounds(c) && b.InBounds(w) && Adjacent(w, c)
    {
      if c != p {
        assert w in C[c].variables;
      }
    }
  }

  /** A fresh constraint with no variables keeps the links between adjacent board cells. */
  lemma LinkEmpty(b: Board, C: map<Pos, Constraint>, p: Pos, k: Constraint)
    requires NeighbourLinks(b, C) && b.InBounds(p) && k.variables == {}
    ensures NeighbourLinks(b, C[p := k])
  {
    forall c, w | c in C[p := k] && w in C[p := k][c].variables
      ensures b.InBounds(c) && b.InBounds(w) && Adjacent(w, c)
    {
      assert c != p;
      assert c in C && w in C[c].variables;
    }
  }

  /** A constraint with no variables changes no variable. */
  lemma LinkNothing(C: map<Pos, Constraint>, p: Pos, k: Constraint)
    requires p !in C && k.variables == {}
    ensures VariablesOf(C[p := k]) == VariablesOf(C)
  {
    var C' := C[p := k];
    assert Referenced(C') == Referenced(C) by {
      forall w | w in Referenced(C')
        ensures w in Referenced(C)
      {
        var c :| c in C' && w in C'[c].variables;
        assert c != p && w in C[c].variables;
      }
      forall w | w in Referenced(C)
        ensures w in Referenced(C')
      {
        var c :| c in C && w in C[c].variables;
        assert w in C'[c].variables;
      }
    }
    forall w
      ensures LinksOf(C', w) == LinksOf(C, w)
    {
    }
  }

  /** Registering one more cell adds its constraint. */
  lemma ConstraintsAtSnoc(b: Board, cells: seq<Pos>, p: Pos)
    ensures ConstraintsAt(b, cells + [p]) == ConstraintsAt(b, cells)[p := ClueConstraint(b, p)]
  {
    assert forall q :: q in cells + [p] <==> q in cells || q == p;
  }

  /**
   * The constraint cells found before the scan reaches a constraint cell
   * (x, y) start the full scan order, and (x, y) comes right after them.
   */
  lemma ScanReaches(b: Board, x: nat, y: nat)
    requires x < b.width && y < b.height && IsConstraintCell(b, (x, y))
    ensures var found := ClueCells(b, Scanned(b.height, x, y));
      |found| < |ClueOrder(b)| && ClueOrder(b)[..|found|] == found && ClueOrder(b)[|found|] == (x, y)
  {
    var h := b.height;
    var before := Scanned(h, x, y);
    var found := ClueCells(b, before);
    var next := Scanned(h, x, y + 1);
    ClueCellsStep(b, before, (x, y));
    var reached := ClueCells(b, next);
    assert reached == found + [(x, y)];
    ScannedPrefix(h, x, y + 1, b.width, 0);
    ClueCellsPrefix(b, next, AllCells(b));
    var all := ClueOrder(b);
    assert reached == all[..|reached|];
    assert all[..|found|] == reached[..|found|];
    assert all[|found|] == reached[|found|];
  }

  /**
   * One step of the column-by-column scan: the constraint cells found so far
   * are distinct board cells before (x, y), their constraints link adjacent
   * board cells, and visiting (x, y) appends it when it is a constraint cell.
   */
  lemma ScanStep(b: Board, x: nat, y: nat)
    requires x < b.width && y < b.height
    ensures var found := ClueCells(b, Scanned(b.height, x, y));
      ClueCells(b, Scanned(b.height, x, y + 1)) ==
        found + (if IsConstraintCell(b, (x, y)) then [(x, y)] else []) &&
      Distinct(found) && (x, y) !in found &&
      (forall p :: p in found ==> b.InBounds(p)) &&
      NeighbourLinks(b, ConstraintsAt(b, found)) &&
      ConstraintsAt(b, found + [(x, y)]) == ConstraintsAt(b, found)[(x, y) := ClueConstraint(b, (x, y))]
  {
    var before := Scanned(b.height, x, y);
    var found := ClueCells(b, before);
    ScannedMembers(b.height, x, y);
    ClueCellsMembers(b, before);
    ClueCellsStep(b, before, (x, y));
    assert Scanned(b.height, x, y + 1) == before + [(x, y)];
    ConstraintsAtLinks(b, found);
    ConstraintsAtSnoc(b, found, (x, y));
  }

  /** The constraint cells of a prefix start the constraint cells of the whole. */
  lemma {:induction false} ClueCellsPrefix(b: Board, s: seq<Pos>, t: seq<Pos>)
    requires s <= t
    ensures ClueCells(b, s) <= ClueCells(b, t)
    decreases |t|
  {
    if |s| < |t| {
      var init, last := t[..|t| - 1], t[|t| - 1];
      assert t == init + [last];
      assert s <= init by {
        assert s == t[..|s|];
        assert t[..|s|] == init[..|s|];
      }
      ClueCellsPrefix(b, s, init);
      ClueCellsStep(b, init, last);
      var u, w := ClueCells(b, s), ClueCells(b, init);
      assert u == w[..|u|];
      assert ClueCells(b, t)[..|w|] == w;
    } else {
      assert s == t;
    }
  }

  /** The cells scanned up to the next one, as constraint cells. */
  lemma ClueCellsStep(b: Board, cells: seq<Pos>, p: Pos)
    ensures ClueCells(b, cells + [p]) ==
      ClueCells(b, cells) + (if IsConstraintCell(b, p) then [p] else [])
  {
    assert (cells + [p])[..|cells + [p]| - 1] == cells;
  }
}
