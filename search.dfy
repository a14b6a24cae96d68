/**
 * The backtracking search over the constraint graph: how one branching step
 * changes the graph, why the two pruning rules only discard values no
 * solution takes, and what the recorded assignments are.
 */
module Search {
  import opened Game
  import opened Constraints
  import opened Solutions

  /** `variable_values`: the (cell, value) pairs fixed so far, in the order they were fixed. */
  type Assignment = seq<(Pos, int)>

  function KeysOf(s: Assignment): set<Pos> {
    set e | e in s :: e.0
  }

  predicate DistinctKeys(s: Assignment) {
    forall i, j :: 0 <= i < j < |s| ==> s[i].0 != s[j].0
  }

  /** The assignment as a map from cell to value (the first pair of a cell wins). */
  function AsMap(s: Assignment): (m: map<Pos, int>)
    ensures m.Keys == KeysOf(s)
  {
    if s == [] then map[]
    else
      assert forall e :: e in s <==> e == s[0] || e in s[1..];
      AsMap(s[1..])[s[0].0 := s[0].1]
  }

  /** sol is `values` followed by a 0/1 value for every cell of `keys`, each cell once. */
  ghost predicate Extends(sol: Assignment, values: Assignment, keys: set<Pos>) {
    |values| <= |sol| && sol[..|values|] == values &&
    var ext := sol[|values|..];
    DistinctKeys(ext) && KeysOf(ext) == keys && forall e :: e in ext ==> e.1 == 0 || e.1 == 1
  }

  /**
   * The entries of found from index lo on are exactly what a search from
   * `values` over the graph (keys, C) must record: each extends `values` by an
   * assignment of `keys`; each is a solution when every target is feasible;
   * and every solution is among them.
   */
  ghost predicate Records(found: seq<Assignment>, lo: nat, values: Assignment, keys: set<Pos>, C: map<Pos, Constraint>) {
    lo <= |found| &&
    (forall i :: lo <= i < |found| ==>
       (Extends(found[i], values, keys) &&
        (Bounded(C) ==> IsSolution(AsMap(found[i][|values|..]), keys, C)))) &&
    (forall m :: IsSolution(m, keys, C) ==>
       exists i :: lo <= i < |found| && Extends(found[i], values, keys) && AsMap(found[i][|values|..]) == m)
  }

  /** Removing v from the variables of the constraints at S. */
  function Detach(C: map<Pos, Constraint>, S: set<Pos>, v: Pos): (r: map<Pos, Constraint>)
    ensures r.Keys == C.Keys
    ensures forall c :: c in C ==> r[c].sum == C[c].sum && r[c].variables <= C[c].variables
    ensures forall c :: c in S && c in C ==> v !in r[c].variables
    ensures forall c :: c in C && c !in S ==> r[c] == C[c]
  {
    map c | c in C :: if c in S then C[c].(variables := C[c].variables - {v}) else C[c]
  }

  /** Adding v back to the variables of the constraints at S. */
  function Reattach(C: map<Pos, Constraint>, S: set<Pos>, v: Pos): (r: map<Pos, Constraint>)
    ensures r.Keys == C.Keys
    ensures forall c :: c in C ==> r[c].sum == C[c].sum && C[c].variables <= r[c].variables
    ensures forall c :: c in S && c in C ==> v in r[c].variables
    ensures forall c :: c in C && c !in S ==> r[c] == C[c]
  {
    map c | c in C :: if c in S then C[c].(variables := C[c].variables + {v}) else C[c]
  }

  /** Adding d to the targets of the constraints at S. */
  function Shift(C: map<Pos, Constraint>, S: set<Pos>, d: int): (r: map<Pos, Constraint>)
    ensures r.Keys == C.Keys
    ensures forall c :: c in C ==> r[c].variables == C[c].variables
    ensures forall c :: c in C && c !in S ==> r[c] == C[c]
  {
    map c | c in C :: if c in S then C[c].(sum := C[c].sum + d) else C[c]
  }

  /** The graph of the branch that gives v the value `value`. */
  function Branch(C: map<Pos, Constraint>, S: set<Pos>, v: Pos, value: int): (r: map<Pos, Constraint>)
    ensures r.Keys == C.Keys
    ensures forall c :: c in S && c in C ==> v !in r[c].variables
    ensures forall c :: c in C && c !in S ==> r[c] == C[c]
  {
    if value == 1 then Shift(Detach(C, S, v), S, -1) else Detach(C, S, v)
  }

  /** Detaching at one more constraint updates just that constraint. */
  lemma DetachAdd(C: map<Pos, Constraint>, S: set<Pos>, v: Pos, c: Pos)
    requires c in C && c !in S
    ensures Detach(C, S + {c}, v) == Detach(C, S, v)[c := C[c].(variables := C[c].variables - {v})]
  {
  }

  /** Reattaching at one more constraint updates just that constraint. */
  lemma ReattachAdd(C: map<Pos, Constraint>, S: set<Pos>, v: Pos, c: Pos)
    requires c in C && c !in S
    ensures Reattach(C, S + {c}, v) == Reattach(C, S, v)[c := C[c].(variables := C[c].variables + {v})]
  {
  }

  /** Shifting at one more constraint updates just that constraint. */
  lemma ShiftAdd(C: map<Pos, Constraint>, S: set<Pos>, d: int, c: Pos)
    requires c in C && c !in S
    ensures Shift(C, S + {c}, d) == Shift(C, S, d)[c := C[c].(sum := C[c].sum + d)]
  {
  }

  /** Updating no constraint changes nothing. */
  lemma UpdateNone(C: map<Pos, Constraint>, v: Pos, d: int)
    ensures Detach(C, {}, v) == C && Reattach(C, {}, v) == C && Shift(C, {}, d) == C
  {
  }

  /** Putting a deleted entry back gives back the original map. */
  lemma RestoreDeleted(V: map<Pos, Variable>, v: Pos)
    requires v in V
    ensures (V - {v})[v := V[v]] == V
  {
    assert forall w :: w in V <==> w in (V - {v})[v := V[v]];
  }

  /** Restoring a removed variable gives back the original constraints. */
  lemma ReattachDetach(C: map<Pos, Constraint>, S: set<Pos>, v: Pos)
    requires forall c :: c in S ==> c in C && v in C[c].variables
    ensures Reattach(Detach(C, S, v), S, v) == C
  {
    var R := Reattach(Detach(C, S, v), S, v);
    forall c | c in C
      ensures R[c] == C[c]
    {
      if c in S {
        assert C[c].variables - {v} + {v} == C[c].variables;
      }
    }
  }

  /** Re-incrementing the decremented targets gives back the original constraints. */
  lemma ShiftBack(C: map<Pos, Constraint>, S: set<Pos>)
    ensures Shift(Shift(C, S, -1), S, 1) == C
  {
    var R := Shift(Shift(C, S, -1), S, 1);
    forall c | c in C
      ensures R[c] == C[c]
    {
    }
  }

  /** Removing a variable keeps the graph linked both ways, in either branch. */
  lemma BranchLinked(V: map<Pos, Variable>, C: map<Pos, Constraint>, v: Pos, value: int)
    requires Linked(V, C) && KeysMatch(V, C) && v in V
    ensures var C' := Branch(C, V[v].constraints, v, value);
      Linked(V - {v}, C') && KeysMatch(V - {v}, C') && C'.Keys == C.Keys
  {
  }

  /**
   * Giving v the value `value` and solving the branch graph is the same as
   * solving the whole graph with v set to `value`.
   */
  lemma BranchSolutions(V: map<Pos, Variable>, C: map<Pos, Constraint>, v: Pos, value: int, m: map<Pos, int>)
    requires Linked(V, C) && v in V && (value == 0 || value == 1) && v !in m
    ensures IsSolution(m, V.Keys - {v}, Branch(C, V[v].constraints, v, value))
        <==> IsSolution(m[v := value], V.Keys, C)
  {
    var S := V[v].constraints;
    var C' := Branch(C, S, v, value);
    assert m.Keys == V.Keys - {v} <==> m[v := value].Keys == V.Keys;
    forall c | c in C
      ensures CountOnes(m, C'[c].variables) == C'[c].sum <==> CountOnes(m[v := value], C[c].variables) == C[c].sum
    {
      CountOnesInsert(m, C[c].variables, v, value);
      if c !in S {
        assert v !in C[c].variables;
        assert C[c].variables - {v} == C[c].variables;
      }
    }
  }

  /** No solution gives v the value 1 when one of its constraints has no mine left. */
  lemma PruneMine(V: map<Pos, Variable>, C: map<Pos, Constraint>, v: Pos, m: map<Pos, int>, c: Pos)
    requires Linked(V, C) && v in V && c in V[v].constraints
    requires IsSolution(m, V.Keys, C) && m[v] == 1
    ensures C[c].sum != 0
  {
    var ones := set p | p in C[c].variables && p in m && m[p] == 1;
    assert v in ones;
  }

  /** No solution gives v the value 0 when one of its constraints needs all its cells to be mines. */
  lemma PruneSafe(V: map<Pos, Variable>, C: map<Pos, Constraint>, v: Pos, m: map<Pos, int>, c: Pos)
    requires Linked(V, C) && v in V && c in V[v].constraints
    requires IsSolution(m, V.Keys, C) && m[v] == 0
    ensures |C[c].variables| != C[c].sum
  {
    CountOnesBound(m, C[c].variables);
  }

  /** A branch the pruning rules allow keeps every target feasible. */
  lemma BranchBounded(V: map<Pos, Variable>, C: map<Pos, Constraint>, v: Pos, value: int)
    requires Linked(V, C) && v in V && Bounded(C) && (value == 0 || value == 1)
    requires value == 1 ==> forall c :: c in V[v].constraints ==> C[c].sum != 0
    requires value == 0 ==> forall c :: c in V[v].constraints ==> |C[c].variables| != C[c].sum
    ensures Bounded(Branch(C, V[v].constraints, v, value))
  {
    var S := V[v].constraints;
    var C' := Branch(C, S, v, value);
    forall c | c in C'
      ensures 0 <= C'[c].sum <= |C'[c].variables|
    {
      if c in S {
        assert v in C[c].variables;
        assert |C[c].variables - {v}| == |C[c].variables| - 1;
      }
    }
  }

  /** With every variable assigned, a graph with feasible targets is solved by the empty assignment. */
  lemma LeafSolution(V: map<Pos, Variable>, C: map<Pos, Constraint>)
    requires Linked(V, C) && V == map[] && Bounded(C)
    ensures IsSolution(map[], {}, C)
  {
    forall c | c in C
      ensures CountOnes(map[], C[c].variables) == C[c].sum
    {
      assert C[c].variables <= V.Keys;
    }
  }

  /** A leaf records exactly the assignment reached. */
  lemma LeafRecords(solutions: seq<Assignment>, values: Assignment, V: map<Pos, Variable>, C: map<Pos, Constraint>)
    requires Linked(V, C) && V == map[]
    ensures Records(solutions + [values], |solutions|, values, {}, C)
  {
    var found := solutions + [values];
    assert found[|solutions|] == values;
    assert values[|values|..] == [];
    if Bounded(C) {
      LeafSolution(V, C);
    }
    forall m | IsSolution(m, {}, C)
      ensures exists i :: |solutions| <= i < |found| && Extends(found[i], values, {}) && AsMap(found[i][|values|..]) == m
    {
      assert m == map[];
      assert Extends(found[|solutions|], values, {});
    }
  }

  /** An entry recorded below the branch v := value, seen from the parent's prefix. */
  lemma LiftRecord(sol: Assignment, values: Assignment, keys: set<Pos>, v: Pos, value: int)
    requires v in keys && (value == 0 || value == 1)
    requires Extends(sol, values + [(v, value)], keys - {v})
    ensures Extends(sol, values, keys)
    ensures AsMap(sol[|values|..]) == AsMap(sol[|values| + 1..])[v := value]
  {
    var rest := sol[|values| + 1..];
    var ext := sol[|values|..];
    assert sol[..|values| + 1][..|values|] == sol[..|values|];
    assert ext == [(v, value)] + rest;
    assert ext[1..] == rest;
    assert forall e :: e in ext <==> e == (v, value) || e in rest;
    assert KeysOf(ext) == {v} + KeysOf(rest);
    forall i, j | 0 <= i < j < |ext|
      ensures ext[i].0 != ext[j].0
    {
      if i == 0 {
        assert ext[j] in rest;
      } else {
        assert ext[i] == rest[i - 1] && ext[j] == rest[j - 1];
      }
    }
  }

  /** Each entry recorded in an allowed branch is a record of the parent. */
  lemma LiftBranch(found: seq<Assignment>, lo: nat, values: Assignment, V: map<Pos, Variable>, C: map<Pos, Constraint>, v: Pos, value: int)
    requires Linked(V, C) && v in V && (value == 0 || value == 1)
    requires value == 1 ==> forall c :: c in V[v].constraints ==> C[c].sum != 0
    requires value == 0 ==> forall c :: c in V[v].constraints ==> |C[c].variables| != C[c].sum
    requires Records(found, lo, values + [(v, value)], V.Keys - {v}, Branch(C, V[v].constraints, v, value))
    ensures forall i :: lo <= i < |found| ==>
      (Extends(found[i], values, V.Keys) &&
       (Bounded(C) ==> IsSolution(AsMap(found[i][|values|..]), V.Keys, C)))
  {
    var C' := Branch(C, V[v].constraints, v, value);
    if Bounded(C) {
      BranchBounded(V, C, v, value);
    }
    forall i | lo <= i < |found|
      ensures Extends(found[i], values, V.Keys) &&
        (Bounded(C) ==> IsSolution(AsMap(found[i][|values|..]), V.Keys, C))
    {
      LiftRecord(found[i], values, V.Keys, v, value);
      var m' := AsMap(found[i][|values| + 1..]);
      assert (values + [(v, value)]) == found[i][..|values| + 1];
      BranchSolutions(V, C, v, value, m');
    }
  }

  /** Every solution of the parent that gives v `value` is among the entries of its branch. */
  lemma CompleteBranch(found: seq<Assignment>, lo: nat, values: Assignment, V: map<Pos, Variable>, C: map<Pos, Constraint>, v: Pos, m: map<Pos, int>)
    requires Linked(V, C) && v in V && IsSolution(m, V.Keys, C)
    requires Records(found, lo, values + [(v, m[v])], V.Keys - {v}, Branch(C, V[v].constraints, v, m[v]))
    ensures exists i :: lo <= i < |found| && Extends(found[i], values, V.Keys) && AsMap(found[i][|values|..]) == m
  {
    var m' := m - {v};
    assert m'[v := m[v]] == m;
    BranchSolutions(V, C, v, m[v], m');
    var i :| lo <= i < |found| && Extends(found[i], values + [(v, m[v])], V.Keys - {v}) && AsMap(found[i][|values + [(v, m[v])]|..]) == m';
    LiftRecord(found[i], values, V.Keys, v, m[v]);
  }

  /**
   * One step of the search: v is tried with the values the pruning rules
   * allow, 0 first and then 1; what the two branches record together is
   * exactly what the parent must record.
   */
  lemma CombineBranches(solutions: seq<Assignment>, found0: seq<Assignment>, found1: seq<Assignment>,
                        values: Assignment, V: map<Pos, Variable>, C: map<Pos, Constraint>, v: Pos,
                        canMine: bool, canSafe: bool)
    requires Linked(V, C) && v in V
    requires canMine <==> forall c :: c in V[v].constraints ==> C[c].sum != 0
    requires canSafe <==> forall c :: c in V[v].constraints ==> |C[c].variables| != C[c].sum
    requires |solutions| <= |found0| <= |found1|
    requires found0[..|solutions|] == solutions && found1[..|found0|] == found0
    requires canSafe ==> Records(found0, |solutions|, values + [(v, 0)], V.Keys - {v}, Branch(C, V[v].constraints, v, 0))
    requires !canSafe ==> found0 == solutions
    requires canMine ==> Records(found1, |found0|, values + [(v, 1)], V.Keys - {v}, Branch(C, V[v].constraints, v, 1))
    requires !canMine ==> found1 == found0
    ensures Records(found1, |solutions|, values, V.Keys, C)
  {
    if canSafe {
      LiftBranch(found0, |solutions|, values, V, C, v, 0);
    }
    if canMine {
      LiftBranch(found1, |found0|, values, V, C, v, 1);
    }
    forall i | |solutions| <= i < |found1|
      ensures Extends(found1[i], values, V.Keys) && (Bounded(C) ==> IsSolution(AsMap(found1[i][|values|..]), V.Keys, C))
    {
      if i < |found0| {
        assert found1[i] == found0[i];
      }
    }
    forall m | IsSolution(m, V.Keys, C)
      ensures exists i :: |solutions| <= i < |found1| && Extends(found1[i], values, V.Keys) && AsMap(found1[i][|values|..]) == m
    {
      if m[v] == 0 {
        forall c | c in V[v].constraints
          ensures |C[c].variables| != C[c].sum
        {
          PruneSafe(V, C, v, m, c);
        }
        CompleteBranch(found0, |solutions|, values, V, C, v, m);
        var i :| |solutions| <= i < |found0| && Extends(found0[i], values, V.Keys) && AsMap(found0[i][|values|..]) == m;
        assert found1[i] == found0[i];
      } else {
        forall c | c in V[v].constraints
          ensures C[c].sum != 0
        {
          PruneMine(V, C, v, m, c);
        }
        CompleteBranch(found1, |found0|, values, V, C, v, m);
      }
    }
  }
}
