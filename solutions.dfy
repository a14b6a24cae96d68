/**
 * What it means for a 0/1 assignment of the variables to solve a constraint
 * map: every constraint sees exactly `sum` mines among its variables.
 */
module Solutions {
  import opened Game
  import opened Constraints

  /** The number of cells of s that m marks as mines. */
  function CountOnes(m: map<Pos, int>, s: set<Pos>): nat {
    |set p | p in s && p in m && m[p] == 1|
  }

  /** m places exactly `sum` mines among the variables of every constraint. */
  ghost predicate Satisfies(m: map<Pos, int>, C: map<Pos, Constraint>) {
    forall c :: c in C ==> CountOnes(m, C[c].variables) == C[c].sum
  }

  /** m assigns 0 or 1 to exactly the cells of `keys` and satisfies every constraint. */
  ghost predicate IsSolution(m: map<Pos, int>, keys: set<Pos>, C: map<Pos, Constraint>) {
    m.Keys == keys && (forall p :: p in m ==> m[p] == 0 || m[p] == 1) && Satisfies(m, C)
  }

  /** Every constraint still has a feasible target: 0 <= sum <= |variables|. */
  ghost predicate Bounded(C: map<Pos, Constraint>) {
    forall c :: c in C ==> 0 <= C[c].sum <= |C[c].variables|
  }

  /** Counting the mines of s in m extended at a fresh cell v. */
  lemma CountOnesInsert(m: map<Pos, int>, s: set<Pos>, v: Pos, value: int)
    requires v !in m
    ensures CountOnes(m[v := value], s) ==
      CountOnes(m, s - {v}) + (if v in s && value == 1 then 1 else 0)
    ensures CountOnes(m, s - {v}) == CountOnes(m, s)
  {
    var before := set p | p in s && p in m && m[p] == 1;
    var without := set p | p in s - {v} && p in m && m[p] == 1;
    assert without == before by {
      assert forall p :: p in before ==> p != v;
    }
    var m' := m[v := value];
    var after := set p | p in s && p in m' && m'[p] == 1;
    assert forall p :: p != v ==> (p in after <==> p in before);
    if v in s && value == 1 {
      assert after == before + {v};
    } else {
      assert after == before;
    }
  }

  /** Splitting s along a subset b splits its mine count. */
  lemma CountOnesSplit(m: map<Pos, int>, s: set<Pos>, b: set<Pos>)
    requires b <= s
    ensures CountOnes(m, s) == CountOnes(m, s - b) + CountOnes(m, b)
  {
    var whole := set p | p in s && p in m && m[p] == 1;
    var rest := set p | p in s - b && p in m && m[p] == 1;
    var part := set p | p in b && p in m && m[p] == 1;
    assert whole == rest + part;
    assert rest !! part;
  }

  /** A set holds at most as many mines as cells, one fewer if one of its cells is not a mine. */
  lemma CountOnesBound(m: map<Pos, int>, s: set<Pos>)
    ensures CountOnes(m, s) <= |s|
    ensures forall v :: v in s && v in m && m[v] != 1 ==> CountOnes(m, s) < |s|
  {
    var ones := set p | p in s && p in m && m[p] == 1;
    SubsetCard(ones, s);
    forall v | v in s && v in m && m[v] != 1
      ensures CountOnes(m, s) < |s|
    {
      assert v in s - ones;
    }
  }

  /** A solution forces every constraint's target into [0, |variables|]. */
  lemma SolutionBounded(m: map<Pos, int>, C: map<Pos, Constraint>)
    requires Satisfies(m, C)
    ensures Bounded(C)
  {
    forall c | c in C
      ensures 0 <= C[c].sum <= |C[c].variables|
    {
      CountOnesBound(m, C[c].variables);
    }
  }

  /**
   * The two trivial deductions: a constraint with no mines left makes each of
   * its variables safe, one with as many mines as variables makes each a mine.
   */
  lemma TrivialDeductions(m: map<Pos, int>, keys: set<Pos>, C: map<Pos, Constraint>, c: Pos, v: Pos)
    requires IsSolution(m, keys, C)
    requires c in C && v in C[c].variables && C[c].variables <= keys
    ensures C[c].sum == 0 ==> m[v] == 0
    ensures C[c].sum == |C[c].variables| ==> m[v] == 1
  {
    CountOnesBound(m, C[c].variables);
    if m[v] == 1 {
      var ones := set p | p in C[c].variables && p in m && m[p] == 1;
      assert v in ones;
    }
  }
}
