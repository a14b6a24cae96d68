/**
 * Subset elimination: when the variables of constraint b are a strict subset
 * of those of constraint a, a is replaced by a − b. The replacement keeps the
 * solutions and shrinks the graph, so repeating it reaches a fixpoint.
 */
module Simplification {
  import opened Game
  import opened Constraints
  import opened Solutions

  /** The variables of b form a strict subset of those of a (`a.variables > b.variables`, a is not b). */
  predicate StrictSuperset(C: map<Pos, Constraint>, a: Pos, b: Pos)
    requires a in C && b in C
  {
    a != b && C[b].variables < C[a].variables
  }

  /** Some pair of constraints still qualifies for elimination. */
  ghost predicate HasStrictSuperset(C: map<Pos, Constraint>) {
    exists a, b :: a in C && b in C && StrictSuperset(C, a, b)
  }

  /** Every constraint still mentions some variable. */
  ghost predicate NonEmpty(C: map<Pos, Constraint>) {
    forall c :: c in C ==> C[c].variables != {}
  }

  /** The constraint at a loses b's cells and b's target; every other constraint stays. */
  function Eliminate(C: map<Pos, Constraint>, a: Pos, b: Pos): (r: map<Pos, Constraint>)
    requires a in C && b in C
    ensures r.Keys == C.Keys && r[a].x == C[a].x && r[a].y == C[a].y
    ensures r[a].variables <= C[a].variables && r[a].variables !! C[b].variables
    ensures forall k :: k in C && k != a ==> r[k] == C[k]
  {
    C[a := C[a].(variables := C[a].variables - C[b].variables, sum := C[a].sum - C[b].sum)]
  }

  /** The total number of variable links of the constraints at `keys`. */
  function Size(C: map<Pos, Constraint>, keys: seq<Pos>): nat
    requires forall k :: k in keys ==> k in C
  {
    if keys == [] then 0 else Size(C, keys[..|keys| - 1]) + |C[keys[|keys| - 1]].variables|
  }

  /** Subset elimination keeps exactly the same solutions. */
  lemma EliminationPreservesSolutions(C: map<Pos, Constraint>, a: Pos, b: Pos, m: map<Pos, int>)
    requires a in C && b in C && a != b && C[b].variables <= C[a].variables
    ensures Satisfies(m, Eliminate(C, a, b)) <==> Satisfies(m, C)
  {
    var C' := Eliminate(C, a, b);
    CountOnesSplit(m, C[a].variables, C[b].variables);
    if Satisfies(m, C) {
      forall c | c in C'
        ensures CountOnes(m, C'[c].variables) == C'[c].sum
      {
      }
    }
    if Satisfies(m, C') {
      assert CountOnes(m, C'[b].variables) == C'[b].sum;
      forall c | c in C
        ensures CountOnes(m, C[c].variables) == C[c].sum
      {
        assert CountOnes(m, C'[c].variables) == C'[c].sum;
      }
    }
  }

  /** Replacing the constraint at one key of `keys` changes the size by the difference. */
  lemma {:induction false} SizeUpdate(C: map<Pos, Constraint>, keys: seq<Pos>, a: Pos, k: Constraint)
    requires forall c :: c in keys ==> c in C
    requires Distinct(keys) && a in keys
    ensures Size(C[a := k], keys) + |C[a].variables| == Size(C, keys) + |k.variables|
  {
    var init, last := keys[..|keys| - 1], keys[|keys| - 1];
    if last == a {
      assert a !in init;
      SizeUnchanged(C, init, a, k);
    } else {
      assert a in init;
      SizeUpdate(C, init, a, k);
    }
  }

  /** Replacing the constraint at a key outside `keys` leaves their size alone. */
  lemma {:induction false} SizeUnchanged(C: map<Pos, Constraint>, keys: seq<Pos>, a: Pos, k: Constraint)
    requires forall c :: c in keys ==> c in C
    requires a !in keys
    ensures Size(C[a := k], keys) == Size(C, keys)
  {
    if keys != [] {
      SizeUnchanged(C, keys[..|keys| - 1], a, k);
    }
  }

  /**
   * A replacement for a strict superset strictly shrinks a's variables, never
   * empties them, and so strictly decreases the total size.
   */
  lemma EliminationShrinks(C: map<Pos, Constraint>, keys: seq<Pos>, a: Pos, b: Pos)
    requires forall c :: c in C <==> c in keys
    requires Distinct(keys)
    requires a in C && b in C && StrictSuperset(C, a, b) && NonEmpty(C)
    ensures NonEmpty(Eliminate(C, a, b))
    ensures Eliminate(C, a, b)[a].variables < C[a].variables
    ensures Size(Eliminate(C, a, b), keys) < Size(C, keys)
  {
    var A, B := C[a].variables, C[b].variables;
    SubsetCard(B, A);
    assert A - B != {};
    assert B != {};
    var w :| w in B;
    assert w !in A - B;
    SizeUpdate(C, keys, a, Eliminate(C, a, b)[a]);
  }

  /** C arises from C0 by shrinking variable sets: same keys, same positions, no new variables. */
  ghost predicate Refines(C: map<Pos, Constraint>, C0: map<Pos, Constraint>) {
    C.Keys == C0.Keys &&
    forall c :: c in C ==> C[c].x == C0[c].x && C[c].y == C0[c].y && C[c].variables <= C0[c].variables
  }

  /** C and C0 have exactly the same solutions. */
  ghost predicate SameSolutions(C: map<Pos, Constraint>, C0: map<Pos, Constraint>) {
    forall m :: Satisfies(m, C) <==> Satisfies(m, C0)
  }

  /**
   * The state of a simplification pass that started from C0 over the keys
   * `keys`: C refines C0 and has the same solutions; it is C0 itself until
   * something was simplified, and some pair qualified in C0 once something
   * was; on non-empty constraints, every elimination made C strictly smaller.
   */
  ghost predicate PassState(C: map<Pos, Constraint>, C0: map<Pos, Constraint>, keys: seq<Pos>, simplified: bool) {
    (forall c :: c in C0 <==> c in keys) && Distinct(keys) && Refines(C, C0) &&
    SameSolutions(C, C0) &&
    (!simplified ==> C == C0) && (simplified ==> HasStrictSuperset(C0)) &&
    (NonEmpty(C0) ==> NonEmpty(C) && (simplified ==> Size(C, keys) < Size(C0, keys)))
  }

  /** No pair of distinct constraints visited before (i, j), in the pass's order, qualifies in C0. */
  ghost predicate NoneBefore(C0: map<Pos, Constraint>, keys: seq<Pos>, i: int, j: int)
    requires forall c :: c in keys ==> c in C0
  {
    forall i', j' :: 0 <= i' < |keys| && 0 <= j' < |keys| && (i' < i || (i' == i && j' < j)) ==>
      !(i' != j' && StrictSuperset(C0, keys[i'], keys[j']))
  }

  /** One elimination keeps the state of the pass, now with something simplified. */
  lemma SimplifyStep(C: map<Pos, Constraint>, C0: map<Pos, Constraint>, keys: seq<Pos>, simplified: bool, a: Pos, b: Pos)
    requires PassState(C, C0, keys, simplified)
    requires a in C && b in C && StrictSuperset(C, a, b)
    ensures PassState(Eliminate(C, a, b), C0, keys, true)
  {
    var E := Eliminate(C, a, b);
    forall m
      ensures Satisfies(m, E) <==> Satisfies(m, C0)
    {
      EliminationPreservesSolutions(C, a, b, m);
    }
    if !simplified {
      assert StrictSuperset(C0, a, b);
    }
    if NonEmpty(C0) {
      EliminationShrinks(C, keys, a, b);
    }
  }

  /** A pass that simplified nothing over every pair leaves no qualifying pair. */
  lemma NoneLeft(C0: map<Pos, Constraint>, keys: seq<Pos>)
    requires forall c :: c in C0 <==> c in keys
    requires NoneBefore(C0, keys, |keys|, 0)
    ensures !HasStrictSuperset(C0)
  {
    forall a, b | a in C0 && b in C0
      ensures !StrictSuperset(C0, a, b)
    {
      var i :| 0 <= i < |keys| && keys[i] == a;
      var j :| 0 <= j < |keys| && keys[j] == b;
    }
  }

  /** The visit of the ordered pair (keys[i], keys[j]): eliminate when it qualifies, else nothing. */
  function Visit(C: map<Pos, Constraint>, keys: seq<Pos>, i: nat, j: nat): (r: map<Pos, Constraint>)
    requires i < |keys| && j < |keys| && keys[i] in C && keys[j] in C
    ensures r.Keys == C.Keys
    ensures forall k :: k in C && k != keys[i] ==> r[k] == C[k]
    ensures r != C ==> i != j && StrictSuperset(C, keys[i], keys[j])
  {
    if i != j && C[keys[j]].variables < C[keys[i]].variables then Eliminate(C, keys[i], keys[j]) else C
  }

  /**
   * The rest of a pass from the pair (i, j) on: the pairs are visited row by
   * row, each on the constraints the earlier visits left.
   */
  function PassFrom(C: map<Pos, Constraint>, keys: seq<Pos>, i: nat, j: nat): (r: map<Pos, Constraint>)
    requires forall k :: k in keys ==> k in C
    requires i <= |keys| && j <= |keys|
    ensures r.Keys == C.Keys
    decreases |keys| - i, |keys| - j
  {
    if i == |keys| then C
    else if j == |keys| then PassFrom(C, keys, i + 1, 0)
    else PassFrom(Visit(C, keys, i, j), keys, i, j + 1)
  }

  /** The constraints after one whole pass of `attempt_simplify_constraints`. */
  function Pass(C: map<Pos, Constraint>, keys: seq<Pos>): (r: map<Pos, Constraint>)
    requires forall k :: k in keys ==> k in C
    ensures r.Keys == C.Keys
  {
    PassFrom(C, keys, 0, 0)
  }

  /** The constraints after n passes. */
  function Iterate(C: map<Pos, Constraint>, keys: seq<Pos>, n: nat): (r: map<Pos, Constraint>)
    requires forall k :: k in keys ==> k in C
    ensures r.Keys == C.Keys
  {
    if n == 0 then C else Pass(Iterate(C, keys, n - 1), keys)
  }

  /** F is what repeating passes from C reaches once no pair qualifies. */
  ghost predicate FixpointOf(F: map<Pos, Constraint>, C: map<Pos, Constraint>, keys: seq<Pos>)
    requires forall k :: k in keys ==> k in C
  {
    F.Keys == C.Keys && (exists n :: F == Iterate(C, keys, n)) && !HasStrictSuperset(F)
  }

  /** A pass over constraints where no pair qualifies changes nothing. */
  lemma {:induction false} PassFixed(C: map<Pos, Constraint>, keys: seq<Pos>, i: nat, j: nat)
    requires forall k :: k in keys ==> k in C
    requires i <= |keys| && j <= |keys|
    requires !HasStrictSuperset(C)
    ensures PassFrom(C, keys, i, j) == C
    decreases |keys| - i, |keys| - j
  {
    if i < |keys| {
      if j < |keys| {
        assert !StrictSuperset(C, keys[i], keys[j]);
        PassFixed(C, keys, i, j + 1);
      } else {
        PassFixed(C, keys, i + 1, 0);
      }
    }
  }

  /** Once the passes reach constraints where no pair qualifies, further passes stay there. */
  lemma {:induction false} IterateStays(C: map<Pos, Constraint>, keys: seq<Pos>, n: nat, k: nat)
    requires forall c :: c in keys ==> c in C
    requires n <= k && !HasStrictSuperset(Iterate(C, keys, n))
    ensures Iterate(C, keys, k) == Iterate(C, keys, n)
  {
    if n < k {
      IterateStays(C, keys, n, k - 1);
      PassFixed(Iterate(C, keys, n), keys, 0, 0);
    }
  }

  /** The fixpoint of the passes is unique. */
  lemma FixpointUnique(F1: map<Pos, Constraint>, F2: map<Pos, Constraint>, C: map<Pos, Constraint>, keys: seq<Pos>)
    requires forall k :: k in keys ==> k in C
    requires FixpointOf(F1, C, keys) && FixpointOf(F2, C, keys)
    ensures F1 == F2
  {
    var n1 :| F1 == Iterate(C, keys, n1);
    var n2 :| F2 == Iterate(C, keys, n2);
    if n1 <= n2 {
      IterateStays(C, keys, n1, n2);
    } else {
      IterateStays(C, keys, n2, n1);
    }
  }

  /**
   * The state of a pass that started from C0 and is about to visit the pair
   * (i, j): the pass state, the rest of the pass still leading to Pass(C0),
   * and, while nothing was simplified, no earlier pair qualified.
   */
  ghost predicate PassAt(C: map<Pos, Constraint>, C0: map<Pos, Constraint>, keys: seq<Pos>, i: nat, j: nat, simplified: bool)
  {
    PassState(C, C0, keys, simplified) && i <= |keys| && j <= |keys| &&
    PassFrom(C, keys, i, j) == Pass(C0, keys) &&
    (!simplified ==> NoneBefore(C0, keys, i, j))
  }

  /** Visiting one pair keeps the state of the pass, noting whether it eliminated. */
  lemma VisitStep(C: map<Pos, Constraint>, C0: map<Pos, Constraint>, keys: seq<Pos>, i: nat, j: nat, simplified: bool)
    requires PassAt(C, C0, keys, i, j, simplified) && i < |keys| && j < |keys|
    ensures i != j && C[keys[j]].variables < C[keys[i]].variables ==>
      PassAt(Eliminate(C, keys[i], keys[j]), C0, keys, i, j + 1, true)
    ensures !(i != j && C[keys[j]].variables < C[keys[i]].variables) ==>
      PassAt(C, C0, keys, i, j + 1, simplified)
  {
    if i != j && C[keys[j]].variables < C[keys[i]].variables {
      SimplifyStep(C, C0, keys, simplified, keys[i], keys[j]);
    }
  }

  /** The end of a row of the pass is the start of the next row. */
  lemma RowEnd(C: map<Pos, Constraint>, C0: map<Pos, Constraint>, keys: seq<Pos>, i: nat, simplified: bool)
    requires PassAt(C, C0, keys, i, |keys|, simplified) && i < |keys|
    ensures PassAt(C, C0, keys, i + 1, 0, simplified)
  {
  }
}
