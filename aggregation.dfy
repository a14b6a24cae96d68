/**
 * Aggregation of the recorded solutions: the per-cell mine counter, the
 * actions that are certain, and the fall-back guesses.
 */
module Aggregation {
  import opened Game
  import opened Constraints
  import opened Solutions
  import opened Search

  /** What `search_solution` decides. */
  datatype Decision =
    | Certain(actions: set<Action>)  // values_found: cells with the same value in every solution
    | LeastKey(cell: Pos)            // min(mine_counter): no cell is certain
    | Landlocked(cell: Pos)          // random hidden, unflagged cell: nothing was counted

  /** The counter with e's value added to e's cell, which starts at 0 when it is new. */
  function AddPair(counter: map<Pos, int>, e: (Pos, int)): (r: map<Pos, int>)
    ensures r.Keys == counter.Keys + {e.0}
    ensures forall k :: k in counter && k != e.0 ==> r[k] == counter[k]
  {
    counter[e.0 := (if e.0 in counter then counter[e.0] else 0) + e.1]
  }

  /** The counter after adding the pairs of one configuration, in order. */
  function AddPairs(counter: map<Pos, int>, cfg: Assignment): (r: map<Pos, int>)
    ensures counter.Keys <= r.Keys
  {
    if cfg == [] then counter else AddPair(AddPairs(counter, cfg[..|cfg| - 1]), cfg[|cfg| - 1])
  }

  /** The counter after adding every configuration, in order. */
  function Tally(sols: seq<Assignment>): (r: map<Pos, int>)
    ensures sols != [] ==> Tally(sols[..|sols| - 1]).Keys <= r.Keys
  {
    if sols == [] then map[] else AddPairs(Tally(sols[..|sols| - 1]), sols[|sols| - 1])
  }

  /** The sum of the values a configuration gives to k. */
  function KeySum(cfg: Assignment, k: Pos): int {
    if cfg == [] then 0 else (if cfg[0].0 == k then cfg[0].1 else 0) + KeySum(cfg[1..], k)
  }

  /** The sum, over the configurations, of the values they give to k. */
  function Total(sols: seq<Assignment>, k: Pos): int {
    if sols == [] then 0 else Total(sols[..|sols| - 1], k) + KeySum(sols[|sols| - 1], k)
  }

  /** The set comprehension `values_found`: FLAG for a count of n, OPEN for a count of 0. */
  function CertainActions(counter: map<Pos, int>, n: int): (r: set<Action>)
    ensures forall a :: a in r ==> a.cell in counter
    ensures forall a, b :: a in r && b in r && a.cell == b.cell ==> a == b
  {
    set k | k in counter && (counter[k] == n || counter[k] == 0) ::
      Action(if counter[k] != 0 then Flag else Open, k)
  }

  lemma {:induction false} KeySumSnoc(cfg: Assignment, e: (Pos, int), k: Pos)
    ensures KeySum(cfg + [e], k) == KeySum(cfg, k) + (if e.0 == k then e.1 else 0)
  {
    if cfg != [] {
      assert (cfg + [e])[1..] == cfg[1..] + [e];
      KeySumSnoc(cfg[1..], e, k);
    }
  }

  /** Adding a configuration adds, for every cell, the values it gives that cell. */
  lemma {:induction false} AddPairsMeaning(counter: map<Pos, int>, cfg: Assignment)
    ensures AddPairs(counter, cfg).Keys == counter.Keys + KeysOf(cfg)
    ensures forall k :: k in AddPairs(counter, cfg) ==>
      AddPairs(counter, cfg)[k] == (if k in counter then counter[k] else 0) + KeySum(cfg, k)
  {
    if cfg != [] {
      var init, last := cfg[..|cfg| - 1], cfg[|cfg| - 1];
      AddPairsMeaning(counter, init);
      var before := AddPairs(counter, init);
      assert cfg == init + [last];
      assert KeysOf(cfg) == KeysOf(init) + {last.0} by {
        assert forall e :: e in cfg <==> e in init || e == last;
      }
      forall k | k in AddPairs(counter, cfg)
        ensures AddPairs(counter, cfg)[k] == (if k in counter then counter[k] else 0) + KeySum(cfg, k)
      {
        KeySumSnoc(init, last, k);
        if k !in before {
          KeySumNotIn(init, k);
        }
      }
    }
  }

  /** The counter holds, for every cell of some configuration, the total of its values. */
  lemma {:induction false} TallyMeaning(sols: seq<Assignment>, k: Pos)
    ensures k in Tally(sols) <==> exists i :: 0 <= i < |sols| && k in KeysOf(sols[i])
    ensures k in Tally(sols) ==> Tally(sols)[k] == Total(sols, k)
  {
    if sols != [] {
      var init, last := sols[..|sols| - 1], sols[|sols| - 1];
      TallyMeaning(init, k);
      AddPairsMeaning(Tally(init), last);
      if k !in Tally(init) {
        KeySumAbsent(init, k);
      }
      assert forall i :: 0 <= i < |init| ==> init[i] == sols[i];
    }
  }

  /** A cell no configuration mentions totals 0. */
  lemma {:induction false} KeySumAbsent(sols: seq<Assignment>, k: Pos)
    requires forall i :: 0 <= i < |sols| ==> k !in KeysOf(sols[i])
    ensures Total(sols, k) == 0
  {
    if sols != [] {
      KeySumAbsent(sols[..|sols| - 1], k);
      KeySumNotIn(sols[|sols| - 1], k);
    }
  }

  lemma {:induction false} KeySumNotIn(cfg: Assignment, k: Pos)
    requires k !in KeysOf(cfg)
    ensures KeySum(cfg, k) == 0
  {
    if cfg != [] {
      assert cfg[0] in cfg;
      assert forall e :: e in cfg[1..] ==> e in cfg;
      KeySumNotIn(cfg[1..], k);
    }
  }

  /** In a configuration with distinct cells, the values given to k add up to k's value. */
  lemma {:induction false} KeySumIsValue(cfg: Assignment, k: Pos)
    requires DistinctKeys(cfg) && k in KeysOf(cfg)
    ensures KeySum(cfg, k) == AsMap(cfg)[k]
  {
    var rest := cfg[1..];
    assert forall e :: e in cfg <==> e == cfg[0] || e in rest;
    if cfg[0].0 == k {
      assert k !in KeysOf(rest) by {
        forall e | e in rest
          ensures e.0 != k
        {
          var j :| 0 <= j < |rest| && rest[j] == e;
          assert cfg[j + 1] == e;
        }
      }
      KeySumNotIn(rest, k);
    } else {
      KeySumIsValue(rest, k);
    }
  }

  /** cfg gives every cell of `keys` exactly one value, 0 or 1, and no other cell a value. */
  ghost predicate Full(cfg: Assignment, keys: set<Pos>) {
    DistinctKeys(cfg) && KeysOf(cfg) == keys && forall e :: e in cfg ==> e.1 == 0 || e.1 == 1
  }

  /** Each entry a search from the empty assignment records is a full assignment. */
  lemma RecordsFull(found: seq<Assignment>, keys: set<Pos>, C: map<Pos, Constraint>)
    requires Records(found, 0, [], keys, C)
    ensures forall i :: 0 <= i < |found| ==> Full(found[i], keys) && found[i][0..] == found[i]
  {
    forall i | 0 <= i < |found|
      ensures Full(found[i], keys) && found[i][0..] == found[i]
    {
      assert Extends(found[i], [], keys);
      assert found[i][0..] == found[i];
    }
  }

  /** In a full assignment, the values given to a cell of `keys` add up to its 0/1 value. */
  lemma FullValue(cfg: Assignment, keys: set<Pos>, k: Pos)
    requires Full(cfg, keys) && k in keys
    ensures KeySum(cfg, k) == AsMap(cfg)[k]
    ensures AsMap(cfg)[k] == 0 || AsMap(cfg)[k] == 1
  {
    KeySumIsValue(cfg, k);
    var e :| e in cfg && e.0 == k;
    var i :| 0 <= i < |cfg| && cfg[i] == e;
    ValueInMap(cfg, i);
  }

  /** With 0/1 values at k, the total at k counts the assignments that make it a mine. */
  lemma {:induction false} TotalBound(sols: seq<Assignment>, k: Pos)
    requires forall i :: 0 <= i < |sols| ==> 0 <= KeySum(sols[i], k) <= 1
    ensures 0 <= Total(sols, k) <= |sols|
  {
    if sols != [] {
      var init := sols[..|sols| - 1];
      assert forall i :: 0 <= i < |init| ==> init[i] == sols[i];
      TotalBound(init, k);
    }
  }

  /** The total at k equals the number of assignments exactly when every assignment makes k a mine. */
  lemma {:induction false} TotalAllMines(sols: seq<Assignment>, k: Pos)
    requires forall i :: 0 <= i < |sols| ==> 0 <= KeySum(sols[i], k) <= 1
    ensures Total(sols, k) == |sols| <==> forall i :: 0 <= i < |sols| ==> KeySum(sols[i], k) == 1
  {
    if sols != [] {
      var init := sols[..|sols| - 1];
      assert forall i :: 0 <= i < |init| ==> init[i] == sols[i];
      TotalAllMines(init, k);
      TotalBound(init, k);
    }
  }

  /** The total at k is 0 exactly when every assignment makes k safe. */
  lemma {:induction false} TotalAllSafe(sols: seq<Assignment>, k: Pos)
    requires forall i :: 0 <= i < |sols| ==> 0 <= KeySum(sols[i], k) <= 1
    ensures Total(sols, k) == 0 <==> forall i :: 0 <= i < |sols| ==> KeySum(sols[i], k) == 0
  {
    if sols != [] {
      var init := sols[..|sols| - 1];
      assert forall i :: 0 <= i < |init| ==> init[i] == sols[i];
      TotalAllSafe(init, k);
      TotalBound(init, k);
    }
  }

  /** Over full assignments of `keys`, the sum at a key is the value the assignment gives it. */
  lemma FullValues(sols: seq<Assignment>, keys: set<Pos>, k: Pos)
    requires forall i :: 0 <= i < |sols| ==> Full(sols[i], keys)
    requires k in keys
    ensures forall i :: 0 <= i < |sols| ==>
      k in AsMap(sols[i]) && KeySum(sols[i], k) == AsMap(sols[i])[k] && 0 <= KeySum(sols[i], k) <= 1
  {
    forall i | 0 <= i < |sols|
      ensures k in AsMap(sols[i]) && KeySum(sols[i], k) == AsMap(sols[i])[k] && 0 <= KeySum(sols[i], k) <= 1
    {
      FullValue(sols[i], keys, k);
    }
  }

  /** In a configuration with distinct cells, each pair is what the map gives its cell. */
  lemma {:induction false} ValueInMap(cfg: Assignment, i: nat)
    requires DistinctKeys(cfg) && i < |cfg|
    ensures AsMap(cfg)[cfg[i].0] == cfg[i].1
  {
    if i > 0 {
      var rest := cfg[1..];
      assert rest[i - 1] == cfg[i];
      ValueInMap(rest, i - 1);
    }
  }

  /**
   * Certain actions are right in every solution: a flagged cell is a mine
   * and an opened cell is safe in every solution of the graph, provided every
   * solution was recorded.
   */
  lemma CertainSound(sols: seq<Assignment>, V: map<Pos, Variable>, C: map<Pos, Constraint>, a: Action)
    requires Records(sols, 0, [], V.Keys, C)
    requires a in CertainActions(Tally(sols), |sols|)
    ensures a.cell in V
    ensures a.kind == Flag ==> forall m :: IsSolution(m, V.Keys, C) ==> m[a.cell] == 1
    ensures a.kind == Open ==> forall m :: IsSolution(m, V.Keys, C) ==> m[a.cell] == 0
  {
    var k := a.cell;
    RecordsFull(sols, V.Keys, C);
    TallyMeaning(sols, k);
    var i0 :| 0 <= i0 < |sols| && k in KeysOf(sols[i0]);
    assert Full(sols[i0], V.Keys);
    FullValues(sols, V.Keys, k);
    TotalAllMines(sols, k);
    TotalAllSafe(sols, k);
    forall m | IsSolution(m, V.Keys, C)
      ensures a.kind == Flag ==> m[k] == 1
      ensures a.kind == Open ==> m[k] == 0
    {
      var i :| 0 <= i < |sols| && Extends(sols[i], [], V.Keys) && AsMap(sols[i][0..]) == m;
      assert sols[i][0..] == sols[i];
    }
  }

  /** Under feasible targets, every recorded entry of a search from the empty assignment is a solution. */
  lemma RecordedSolutions(sols: seq<Assignment>, V: map<Pos, Variable>, C: map<Pos, Constraint>)
    requires Records(sols, 0, [], V.Keys, C) && Bounded(C)
    ensures forall i :: 0 <= i < |sols| ==> IsSolution(AsMap(sols[i]), V.Keys, C)
  {
    RecordsFull(sols, V.Keys, C);
  }

  /** Under feasible targets, a search from the empty assignment that recorded anything found a solution. */
  lemma RecordsSolvable(sols: seq<Assignment>, V: map<Pos, Variable>, C: map<Pos, Constraint>)
    requires Records(sols, 0, [], V.Keys, C) && Bounded(C)
    ensures sols != [] ==> Solvable(V, C)
  {
    if sols != [] {
      RecordedSolutions(sols, V, C);
      assert IsSolution(AsMap(sols[0]), V.Keys, C);
    }
  }

  /** A search from the empty assignment that recorded something counted exactly the variables. */
  lemma TallyKeys(sols: seq<Assignment>, keys: set<Pos>, C: map<Pos, Constraint>)
    requires Records(sols, 0, [], keys, C) && sols != []
    ensures Tally(sols).Keys == keys
  {
    RecordsFull(sols, keys, C);
    forall w
      ensures w in Tally(sols) <==> w in keys
    {
      TallyMeaning(sols, w);
      if w in Tally(sols) {
        var i :| 0 <= i < |sols| && w in KeysOf(sols[i]);
        assert Full(sols[i], keys);
      }
      if w in keys {
        assert Full(sols[0], keys);
      }
    }
  }

  /** A cell that is a mine in every solution is flagged. */
  lemma MineEverywhere(sols: seq<Assignment>, V: map<Pos, Variable>, C: map<Pos, Constraint>, k: Pos)
    requires Records(sols, 0, [], V.Keys, C) && Bounded(C) && sols != [] && k in V
    requires forall m :: IsSolution(m, V.Keys, C) ==> m[k] == 1
    ensures Action(Flag, k) in CertainActions(Tally(sols), |sols|)
  {
    RecordedSolutions(sols, V, C);
    RecordsFull(sols, V.Keys, C);
    TallyKeys(sols, V.Keys, C);
    TallyMeaning(sols, k);
    FullValues(sols, V.Keys, k);
    TotalAllMines(sols, k);
    assert forall i :: 0 <= i < |sols| ==> KeySum(sols[i], k) == 1;
  }

  /** A cell that is safe in every solution is opened. */
  lemma SafeEverywhere(sols: seq<Assignment>, V: map<Pos, Variable>, C: map<Pos, Constraint>, k: Pos)
    requires Records(sols, 0, [], V.Keys, C) && Bounded(C) && sols != [] && k in V
    requires forall m :: IsSolution(m, V.Keys, C) ==> m[k] == 0
    ensures Action(Open, k) in CertainActions(Tally(sols), |sols|)
  {
    RecordedSolutions(sols, V, C);
    RecordsFull(sols, V.Keys, C);
    TallyKeys(sols, V.Keys, C);
    TallyMeaning(sols, k);
    FullValues(sols, V.Keys, k);
    TotalAllSafe(sols, k);
    assert forall i :: 0 <= i < |sols| ==> KeySum(sols[i], k) == 0;
  }

  /**
   * When the graph has a solution, the certain actions are exactly the cells
   * that are a mine in every solution (flagged) and those that are safe in
   * every solution (opened), and every variable was counted.
   */
  lemma CertainComplete(sols: seq<Assignment>, V: map<Pos, Variable>, C: map<Pos, Constraint>, k: Pos)
    requires Records(sols, 0, [], V.Keys, C)
    requires exists m :: IsSolution(m, V.Keys, C)
    ensures Tally(sols).Keys == V.Keys
    ensures Action(Flag, k) in CertainActions(Tally(sols), |sols|) <==>
      k in V && forall m :: IsSolution(m, V.Keys, C) ==> m[k] == 1
    ensures Action(Open, k) in CertainActions(Tally(sols), |sols|) <==>
      k in V && forall m :: IsSolution(m, V.Keys, C) ==> m[k] == 0
  {
    var m0 :| IsSolution(m0, V.Keys, C);
    SolutionBounded(m0, C);
    assert sols != [];
    TallyKeys(sols, V.Keys, C);
    if Action(Flag, k) in CertainActions(Tally(sols), |sols|) {
      CertainSound(sols, V, C, Action(Flag, k));
    }
    if Action(Open, k) in CertainActions(Tally(sols), |sols|) {
      CertainSound(sols, V, C, Action(Open, k));
    }
    if k in V && forall m :: IsSolution(m, V.Keys, C) ==> m[k] == 1 {
      MineEverywhere(sols, V, C, k);
    }
    if k in V && forall m :: IsSolution(m, V.Keys, C) ==> m[k] == 0 {
      SafeEverywhere(sols, V, C, k);
    }
  }

  /** The graph has at least one solution. */
  ghost predicate Solvable(V: map<Pos, Variable>, C: map<Pos, Constraint>) {
    exists m :: IsSolution(m, V.Keys, C)
  }

  /** a is right in every solution: it opens a variable that is safe in all of them, or flags one that is a mine in all of them. */
  ghost predicate Correct(V: map<Pos, Variable>, C: map<Pos, Constraint>, a: Action) {
    a.cell in V && forall m :: IsSolution(m, V.Keys, C) ==> m[a.cell] == (if a.kind == Flag then 1 else 0)
  }

  /** Every action that is right in every solution. */
  ghost function Certainties(V: map<Pos, Variable>, C: map<Pos, Constraint>): set<Action> {
    (set k | k in V && Correct(V, C, Action(Flag, k)) :: Action(Flag, k)) +
    (set k | k in V && Correct(V, C, Action(Open, k)) :: Action(Open, k))
  }

  lemma CertaintiesMembers(V: map<Pos, Variable>, C: map<Pos, Constraint>, a: Action)
    ensures a in Certainties(V, C) <==> Correct(V, C, a)
  {
    if Correct(V, C, a) {
      if a.kind == Flag {
        assert a == Action(Flag, a.cell);
      } else {
        assert a == Action(Open, a.cell);
      }
    }
  }

  /** The counted certain actions are right in every solution. */
  lemma CertainSubset(sols: seq<Assignment>, V: map<Pos, Variable>, C: map<Pos, Constraint>)
    requires Records(sols, 0, [], V.Keys, C)
    ensures CertainActions(Tally(sols), |sols|) <= Certainties(V, C)
  {
    forall a | a in CertainActions(Tally(sols), |sols|)
      ensures a in Certainties(V, C)
    {
      CertainSound(sols, V, C, a);
      CertaintiesMembers(V, C, a);
    }
  }

  /** On a solvable graph an action right in every solution is counted as certain. */
  lemma CertainFound(sols: seq<Assignment>, V: map<Pos, Variable>, C: map<Pos, Constraint>, a: Action)
    requires Records(sols, 0, [], V.Keys, C) && Solvable(V, C) && Correct(V, C, a)
    ensures a in CertainActions(Tally(sols), |sols|)
  {
    CertainComplete(sols, V, C, a.cell);
    if a.kind == Flag {
      assert a == Action(Flag, a.cell);
    } else {
      assert a == Action(Open, a.cell);
    }
  }

  /** On a solvable graph the counted certain actions are exactly those right in every solution. */
  lemma CertainExact(sols: seq<Assignment>, V: map<Pos, Variable>, C: map<Pos, Constraint>)
    requires Records(sols, 0, [], V.Keys, C) && Solvable(V, C)
    ensures CertainActions(Tally(sols), |sols|) == Certainties(V, C)
    ensures Tally(sols).Keys == V.Keys
  {
    CertainSubset(sols, V, C);
    CertainComplete(sols, V, C, (0, 0));  // for its key-set clause, which holds for any cell
    forall a | a in Certainties(V, C)
      ensures a in CertainActions(Tally(sols), |sols|)
    {
      CertaintiesMembers(V, C, a);
      CertainFound(sols, V, C, a);
    }
  }

  /** `min(mine_counter)`: the lexicographically least key, not the least-mine cell. */
  method MinCell(keys: set<Pos>) returns (k: Pos)
    requires keys != {}
    ensures k in keys && forall q :: q in keys ==> LexLe(k, q)
  {
    k :| k in keys;
    var rest := keys - {k};
    while rest != {}
      invariant rest <= keys && k in keys
      invariant forall q :: q in keys && q !in rest ==> LexLe(k, q)
      decreases rest
    {
      var q :| q in rest;
      if !LexLe(k, q) {
        k := q;
      }
      rest := rest - {q};
    }
  }

  /** The counting loop over every pair of every recorded configuration. */
  method CountMines(sols: seq<Assignment>) returns (counter: map<Pos, int>)
    ensures counter == Tally(sols)
  {
    counter := map[];
    for i := 0 to |sols|
      invariant counter == Tally(sols[..i])
    {
      var cfg := sols[i];
      ghost var before := counter;
      for j := 0 to |cfg|
        invariant counter == AddPairs(before, cfg[..j])
      {
        var (key, value) := cfg[j];
        assert cfg[..j + 1][..j] == cfg[..j];
        counter := counter[key := (if key in counter then counter[key] else 0) + value];
      }
      assert cfg[..|cfg|] == cfg;
      assert sols[..i + 1][..i] == sols[..i];
    }
    assert sols[..|sols|] == sols;
  }
}
