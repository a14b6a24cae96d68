/**
 * The board as the solver sees it: a read-only grid answering whether a cell is
 * hidden, whether it is flagged and how many mines surround it, plus the
 * geometry the solver derives from it (neighbourhoods and scan order).
 */
module Game {

  /** A board coordinate (x, y). Python compares such tuples lexicographically. */
  type Pos = (int, int)

  /** The four states of a game; the solver only reads them. */
  datatype GameState = FirstMove | Playing | Win | Lose

  datatype ActionKind = Open | Flag

  /** One effect on the board: open a cell or flag it. */
  datatype Action = Action(kind: ActionKind, cell: Pos)

  /**
   * The adapter's read side. `isHidden` is true for unrevealed cells (a flagged
   * cell is still hidden), `adjacentMines` is the clue of a revealed cell and 0
   * for a hidden one, and `state` is what `get_game_state` reports; nothing is
   * assumed about the answers.
   */
  datatype Board = Board(width: nat, height: nat, mineCount: nat, state: GameState,
                         isHidden: (int, int) -> bool,
                         isFlagged: (int, int) -> bool,
                         adjacentMines: (int, int) -> int)
  {
    predicate InBounds(p: Pos) {
      0 <= p.0 < width && 0 <= p.1 < height
    }
  }

  /** p and q are distinct cells at Chebyshev distance 1. */
  predicate Adjacent(p: Pos, q: Pos) {
    p != q && -1 <= p.0 - q.0 <= 1 && -1 <= p.1 - q.1 <= 1
  }

  /** The offsets (i, j) in the order the neighbour generator tries them; the cell is (x - i, y - j). */
  const Offsets: seq<(int, int)> :=
    [(-1, -1), (-1, 0), (-1, 1), (0, -1), (0, 1), (1, -1), (1, 0), (1, 1)]

  predicate Distinct<T(==)>(s: seq<T>) {
    forall i, j :: 0 <= i < j < |s| ==> s[i] != s[j]
  }

  /** The in-bounds cells (x - i, y - j) for the offsets (i, j) of `offs`, in order. */
  function NeighboursFrom(b: Board, x: int, y: int, offs: seq<(int, int)>): (r: seq<Pos>)
    ensures |r| <= |offs|
    ensures forall p {:trigger p in r} :: p in r <==> b.InBounds(p) && (x - p.0, y - p.1) in offs
    ensures Distinct(offs) ==> Distinct(r)
  {
    if offs == [] then []
    else
      var c := (x - offs[0].0, y - offs[0].1);
      var rest := NeighboursFrom(b, x, y, offs[1..]);
      assert forall p :: p in offs <==> p == offs[0] || p in offs[1..];
      assert Distinct(offs) ==> c !in rest;
      (if b.InBounds(c) then [c] else []) + rest
  }

  /** The cells the generator `neighbours(x, y)` yields, in its order. */
  function Neighbours(b: Board, x: int, y: int): (r: seq<Pos>)
    ensures |r| <= 8
    ensures Distinct(r)
    ensures forall p :: p in r <==> b.InBounds(p) && Adjacent(p, (x, y))
  {
    OffsetsDistinct();
    forall p: Pos ensures (x - p.0, y - p.1) in Offsets <==> Adjacent(p, (x, y)) {
      AdjacentByOffset(p, x, y);
    }
    NeighboursFrom(b, x, y, Offsets)
  }

  lemma OffsetsDistinct()
    ensures Distinct(Offsets)
  {
  }

  lemma AdjacentByOffset(p: Pos, x: int, y: int)
    ensures (x - p.0, y - p.1) in Offsets <==> Adjacent(p, (x, y))
  {
  }

  /** The set of the elements of a sequence has at most as many elements as the sequence. */
  lemma {:induction false} ElementsBound<T>(s: seq<T>)
    ensures |set e | e in s| <= |s|
  {
    if s != [] {
      ElementsBound(s[1..]);
      assert (set e | e in s) == {s[0]} + (set e | e in s[1..]);
    }
  }

  lemma SubsetCard<T>(a: set<T>, b: set<T>)
    requires a <= b
    ensures |b| == |a| + |b - a|
  {
    assert b == a + (b - a);
  }

  lemma AdjacentSymmetric(p: Pos, q: Pos)
    requires Adjacent(p, q)
    ensures Adjacent(q, p)
  {
  }

  /** Any set of in-bounds cells adjacent to v has at most 8 elements. */
  lemma NeighbourhoodBound(b: Board, v: Pos, s: set<Pos>)
    requires forall c :: c in s ==> b.InBounds(c) && Adjacent(c, v)
    ensures |s| <= 8
  {
    var ns := Neighbours(b, v.0, v.1);
    var around := set e | e in ns;
    ElementsBound(ns);
    assert s <= around;
    SubsetCard(s, around);
  }

  /**
   * The hidden neighbours of p that are flagged (`flagged`) or not: the two
   * sets `find_constraint_variables` returns.
   */
  function HiddenNeighbours(b: Board, p: Pos, flagged: bool): (r: set<Pos>)
    ensures forall q {:trigger q in r} ::
      q in r <==> b.InBounds(q) && Adjacent(q, p) && b.isHidden(q.0, q.1) && b.isFlagged(q.0, q.1) == flagged
  {
    set i, j | p.0 - 1 <= i <= p.0 + 1 && p.1 - 1 <= j <= p.1 + 1 && b.InBounds((i, j)) &&
               Adjacent((i, j), p) && b.isHidden(i, j) && b.isFlagged(i, j) == flagged :: (i, j)
  }

  /** The unflagged hidden neighbours of p: the variables a clue at p would constrain. */
  function Unflagged(b: Board, p: Pos): set<Pos> {
    HiddenNeighbours(b, p, false)
  }

  /** The flagged neighbours of p, already resolved into a clue's remaining count. */
  function Flagged(b: Board, p: Pos): set<Pos> {
    HiddenNeighbours(b, p, true)
  }

  /** The flagged and the unflagged neighbours are disjoint and at most 8 together. */
  lemma ClassifiedBound(b: Board, p: Pos)
    ensures Flagged(b, p) !! Unflagged(b, p)
    ensures |Flagged(b, p)| + |Unflagged(b, p)| <= 8
  {
    var f, u := Flagged(b, p), Unflagged(b, p);
    NeighbourhoodBound(b, p, f + u);
  }

  /**
   * The cells (x', y') with x' < x, or x' == x and y' < y, in the order the
   * nested loops `for x in range(width): for y in range(height)` visit them.
   */
  function Scanned(height: nat, x: nat, y: nat): seq<Pos>
    requires y <= height
    decreases x, y
  {
    if y > 0 then Scanned(height, x, y - 1) + [(x, y - 1)]
    else if x > 0 then Scanned(height, x - 1, height)
    else []
  }

  lemma {:induction false} ScannedMembers(height: nat, x: nat, y: nat)
    requires y <= height
    ensures Distinct(Scanned(height, x, y))
    ensures forall p {:trigger p in Scanned(height, x, y)} :: p in Scanned(height, x, y) <==>
      0 <= p.0 && 0 <= p.1 < height && (p.0 < x || (p.0 == x && p.1 < y))
    decreases x, y
  {
    if y > 0 {
      ScannedMembers(height, x, y - 1);
      assert (x, y - 1) !in Scanned(height, x, y - 1);
    } else if x > 0 {
      ScannedMembers(height, x - 1, height);
    }
  }

  /** The scan up to (x, y) is a prefix of the scan up to any later point (x2, y2). */
  lemma {:induction false} ScannedPrefix(height: nat, x: nat, y: nat, x2: nat, y2: nat)
    requires y <= height && y2 <= height
    requires x < x2 || (x == x2 && y <= y2)
    ensures Scanned(height, x, y) <= Scanned(height, x2, y2)
    decreases x2, y2
  {
    if x == x2 && y == y2 {
    } else if y2 > 0 {
      ScannedPrefix(height, x, y, x2, y2 - 1);
    } else {
      ScannedPrefix(height, x, y, x2 - 1, height);
    }
  }

  /** The elements of s that satisfy keep, in order. */
  function Filter(s: seq<Pos>, keep: Pos -> bool): (r: seq<Pos>)
    ensures forall p :: p in r <==> p in s && keep(p)
    ensures Distinct(s) ==> Distinct(r)
  {
    if s == [] then []
    else
      var r := Filter(s[..|s| - 1], keep) + (if keep(s[|s| - 1]) then [s[|s| - 1]] else []);
      assert forall p :: p in s <==> p in s[..|s| - 1] || p == s[|s| - 1];
      r
  }

  /** All cells of the board in the order `itertools.product(range(width), range(height))` yields them. */
  function AllCells(b: Board): seq<Pos> {
    Scanned(b.height, b.width, 0)
  }

  lemma AllCellsMembers(b: Board)
    ensures Distinct(AllCells(b))
    ensures forall p :: p in AllCells(b) <==> b.InBounds(p)
  {
    ScannedMembers(b.height, b.width, 0);
  }

  /** The hidden, unflagged cells of the board, in scan order: the candidates of a blind guess. */
  function HiddenCells(b: Board): (r: seq<Pos>)
    ensures Distinct(r)
    ensures forall p {:trigger p in r} :: p in r <==> b.InBounds(p) && b.isHidden(p.0, p.1) && !b.isFlagged(p.0, p.1)
  {
    AllCellsMembers(b);
    Filter(AllCells(b), (p: Pos) => b.isHidden(p.0, p.1) && !b.isFlagged(p.0, p.1))
  }

  /** `random.choice(s)`, the random draw given as the index `draw`. */
  function Choice(s: seq<Pos>, draw: nat): (r: Pos)
    requires s != []
    ensures r in s
  {
    s[draw % |s|]
  }

  /** Python's `<=` on coordinate tuples. */
  predicate LexLe(p: Pos, q: Pos) {
    p.0 < q.0 || (p.0 == q.0 && p.1 <= q.1)
  }
}
