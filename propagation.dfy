/**
 * Trivial propagation: the actions `solve_trivial_constraints` emits, and why
 * each of them is right in every solution.
 */
module Propagation {
  import opened Game
  import opened Constraints
  import opened Solutions

  /** One action of the given kind for every cell of s. */
  function Tagged(kind: ActionKind, s: set<Pos>): (r: multiset<Action>)
    ensures forall a :: a in r ==> r[a] == 1 && a.kind == kind && a.cell in s
  {
    multiset(set v | v in s :: Action(kind, v))
  }

  /** What propagation emits for one constraint: all-safe, all-mine, or nothing. */
  function ConstraintActions(c: Constraint): (r: multiset<Action>)
    ensures forall a :: a in r ==> r[a] == 1 && a.cell in c.variables
    ensures r != multiset{} ==> c.sum == 0 || c.sum == |c.variables|
  {
    if c.sum == 0 then Tagged(Open, c.variables)
    else if c.sum == |c.variables| then Tagged(Flag, c.variables)
    else multiset{}
  }

  /** Everything emitted for the constraints at `keys`, with repetitions. */
  function Emitted(C: map<Pos, Constraint>, keys: seq<Pos>): (r: multiset<Action>)
    requires forall k :: k in keys ==> k in C
    ensures forall k :: k in keys ==> ConstraintActions(C[k]) <= r
  {
    if keys == [] then multiset{}
    else Emitted(C, keys[..|keys| - 1]) + ConstraintActions(C[keys[|keys| - 1]])
  }

  /** The constraint at k forces action a. */
  predicate Forces(C: map<Pos, Constraint>, k: Pos, a: Action)
    requires k in C
  {
    a.cell in C[k].variables &&
    if a.kind == Open then C[k].sum == 0 else C[k].sum != 0 && C[k].sum == |C[k].variables|
  }

  lemma TaggedMembers(kind: ActionKind, s: set<Pos>, a: Action)
    ensures a in Tagged(kind, s) <==> a.kind == kind && a.cell in s
  {
    if a.kind == kind && a.cell in s {
      assert a in (set v | v in s :: Action(kind, v));
    }
  }

  /** Adding a fresh cell adds exactly its action. */
  lemma TaggedAdd(kind: ActionKind, s: set<Pos>, v: Pos)
    requires v !in s
    ensures Tagged(kind, s + {v}) == Tagged(kind, s) + multiset{Action(kind, v)}
  {
    var before := set w | w in s :: Action(kind, w);
    var after := set w | w in s + {v} :: Action(kind, w);
    assert after == before + {Action(kind, v)};
    assert Action(kind, v) !in before;
  }

  /** An action is emitted exactly when some constraint at `keys` forces it. */
  lemma {:induction false} EmittedMembers(C: map<Pos, Constraint>, keys: seq<Pos>, a: Action)
    requires forall k :: k in keys ==> k in C
    ensures a in Emitted(C, keys) <==> exists k :: k in keys && Forces(C, k, a)
  {
    if keys != [] {
      var init, last := keys[..|keys| - 1], keys[|keys| - 1];
      EmittedMembers(C, init, a);
      TaggedMembers(Open, C[last].variables, a);
      TaggedMembers(Flag, C[last].variables, a);
      assert forall k :: k in keys <==> k in init || k == last;
      assert a in ConstraintActions(C[last]) <==> Forces(C, last, a);
      if exists k :: k in keys && Forces(C, k, a) {
        var k :| k in keys && Forces(C, k, a);
        assert k in init || k == last;
      }
    }
  }

  /**
   * Propagation is sound: every emitted action is on a variable, every opened
   * cell is safe and every flagged cell is a mine in every solution.
   */
  lemma EmittedSound(C: map<Pos, Constraint>, keys: seq<Pos>, m: map<Pos, int>, vars: set<Pos>, a: Action)
    requires forall k :: k in keys ==> k in C
    requires forall k :: k in C ==> C[k].variables <= vars
    requires IsSolution(m, vars, C)
    requires a in Emitted(C, keys)
    ensures a.cell in vars
    ensures a.kind == Open ==> m[a.cell] == 0
    ensures a.kind == Flag ==> m[a.cell] == 1
  {
    EmittedMembers(C, keys, a);
    var k :| k in keys && Forces(C, k, a);
    TrivialDeductions(m, vars, C, k, a.cell);
  }

  /**
   * actions is one block per key of `keys`, in the order of `keys`, each block
   * holding exactly what its constraint emits. Within a block the order is
   * that of iterating a Python set, which is left open.
   */
  ghost predicate InBlocks(actions: seq<Action>, C: map<Pos, Constraint>, keys: seq<Pos>)
    requires forall k :: k in keys ==> k in C
    decreases |keys|
  {
    if keys == [] then actions == []
    else
      exists n :: 0 <= n <= |actions| &&
        multiset(actions[n..]) == ConstraintActions(C[keys[|keys| - 1]]) &&
        InBlocks(actions[..n], C, keys[..|keys| - 1])
  }

  /** Blocks in key order hold, all together, exactly what propagation emits. */
  lemma {:induction false} InBlocksEmitted(actions: seq<Action>, C: map<Pos, Constraint>, keys: seq<Pos>)
    requires forall k :: k in keys ==> k in C
    requires InBlocks(actions, C, keys)
    ensures multiset(actions) == Emitted(C, keys)
    decreases |keys|
  {
    if keys != [] {
      var n :| 0 <= n <= |actions| &&
        multiset(actions[n..]) == ConstraintActions(C[keys[|keys| - 1]]) &&
        InBlocks(actions[..n], C, keys[..|keys| - 1]);
      InBlocksEmitted(actions[..n], C, keys[..|keys| - 1]);
      assert actions == actions[..n] + actions[n..];
      assert multiset(actions) == multiset(actions[..n]) + multiset(actions[n..]);
      assert Emitted(C, keys) == Emitted(C, keys[..|keys| - 1]) + ConstraintActions(C[keys[|keys| - 1]]);
    }
  }

  /** Appending the block of the next key of the order extends the blocks by that key. */
  lemma InBlocksSnoc(actions: seq<Action>, extended: seq<Action>, C: map<Pos, Constraint>, keys: seq<Pos>, i: nat)
    requires forall c :: c in keys ==> c in C
    requires i < |keys| && InBlocks(actions, C, keys[..i])
    requires |actions| <= |extended| && extended[..|actions|] == actions
    requires multiset(extended[|actions|..]) == ConstraintActions(C[keys[i]])
    ensures InBlocks(extended, C, keys[..i + 1])
  {
    var prefix := keys[..i + 1];
    assert prefix[..|prefix| - 1] == keys[..i] && prefix[|prefix| - 1] == keys[i];
  }

  /** Appending the action for one more cell extends the block by exactly that action. */
  lemma AppendTaggedStep(actions: seq<Action>, r: seq<Action>, kind: ActionKind, done: set<Pos>, v: Pos)
    requires |actions| <= |r| && r[..|actions|] == actions
    requires multiset(r[|actions|..]) == Tagged(kind, done) && v !in done
    ensures (r + [Action(kind, v)])[..|actions|] == actions
    ensures multiset((r + [Action(kind, v)])[|actions|..]) == Tagged(kind, done + {v})
  {
    TaggedAdd(kind, done, v);
    var grown := r + [Action(kind, v)];
    assert grown[..|actions|] == r[..|actions|];
    assert grown[|actions|..] == r[|actions|..] + [Action(kind, v)];
  }

  /** Appends one action of the given kind for every cell of s, keeping the actions before. */
  method AppendTagged(actions: seq<Action>, kind: ActionKind, s: set<Pos>) returns (r: seq<Action>)
    ensures |actions| <= |r| && r[..|actions|] == actions
    ensures multiset(r[|actions|..]) == Tagged(kind, s)
  {
    r := actions;
    var rest := s;
    while rest != {}
      invariant rest <= s
      invariant |actions| <= |r| && r[..|actions|] == actions
      invariant multiset(r[|actions|..]) == Tagged(kind, s - rest)
      decreases rest
    {
      var v :| v in rest;
      AppendTaggedStep(actions, r, kind, s - rest, v);
      assert s - (rest - {v}) == (s - rest) + {v};
      r := r + [Action(kind, v)];
      rest := rest - {v};
    }
    assert s - rest == s;
  }
}
