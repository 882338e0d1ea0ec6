/** The crossword structure the solver works on: slots (the variables), the
    grid they sit in, the overlaps between them and the vocabulary. The module
    that parses structure and word files is not part of this model; its result
    is taken as an immutable value whose invariants `WellFormed` states. */
module CrosswordGeometry {

  datatype Direction = Across | Down

  /** A slot of the grid: its first cell `(i, j)`, direction and length. */
  datatype Slot = Slot(i: int, j: int, direction: Direction, length: nat)

  type Word = string

  /** A word per slot (the source's `assignment` dict). */
  type Assignment = map<Slot, Word>

  /** A set of candidate words per slot (the source's `self.domains`). */
  type Domains = map<Slot, set<Word>>

  /** The cell holding letter `k` of slot `v`. */
  function CellOf(v: Slot, k: int): (int, int) {
    if v.direction == Down then (v.i + k, v.j) else (v.i, v.j + k)
  }

  /** One of the first `n` cells of slot `v` is `p`. */
  predicate Crosses(v: Slot, n: int, p: (int, int)) {
    exists k :: 0 <= k < n && CellOf(v, k) == p
  }

  /** No slot occurs twice in `vs`. */
  predicate Distinct(vs: seq<Slot>) {
    vs == [] || (vs[0] !in vs[1..] && Distinct(vs[1..]))
  }

  /** The letter at index `o.0` of `w` equals the letter at index `o.1` of `u`
      (the test `word[i] == item[j]` of the source, on indices in range). */
  predicate Agree(w: Word, u: Word, o: (nat, nat)) {
    o.0 < |w| && o.1 < |u| && w[o.0] == u[o.1]
  }

  datatype Crossword = Crossword(
    height: nat,
    width: nat,
    variables: seq<Slot>,
    overlaps: map<(Slot, Slot), (nat, nat)>,
    words: set<Word>)
  {
    /** The variables as a set. */
    function VarSet(): set<Slot> {
      set v | v in variables
    }

    /** Cell `p` lies inside the grid. */
    predicate HasCell(p: (int, int)) {
      0 <= p.0 < height && 0 <= p.1 < width
    }

    /** Every cell of slot `v` lies inside the grid. */
    predicate InGrid(v: Slot) {
      0 <= v.i && 0 <= v.j &&
      if v.direction == Down then v.i + v.length <= height && v.j < width
      else v.j + v.length <= width && v.i < height
    }

    /** What the structure parser guarantees: distinct slots inside the grid;
        overlaps only between two distinct slots, recorded both ways with the
        indices swapped, and each index within its slot. */
    ghost predicate WellFormed() {
      Distinct(variables) &&
      (forall v :: v in variables ==> InGrid(v)) &&
      (forall a, b :: (a, b) in overlaps ==>
        a in variables && b in variables && a != b &&
        overlaps[(a, b)].0 < a.length && overlaps[(a, b)].1 < b.length &&
        (b, a) in overlaps && overlaps[(b, a)] == (overlaps[(a, b)].1, overlaps[(a, b)].0))
    }

    /** `crossword.neighbors(x)`: the other slots that overlap `x`. */
    function Neighbors(x: Slot): (r: set<Slot>)
      ensures forall v :: v in r ==> v in variables && v != x && (v, x) in overlaps
    {
      set v | v in variables && v != x && (v, x) in overlaps
    }

    /** The neighbours of `x` outside `taken`, in the order of `vs`. */
    function OpenNeighbors(vs: seq<Slot>, x: Slot, taken: set<Slot>): (r: seq<Slot>)
      ensures forall k :: 0 <= k < |r| ==> r[k] in vs && r[k] in Neighbors(x) && r[k] !in taken
      ensures forall v :: v in vs && v in Neighbors(x) && v !in taken ==> v in r
    {
      if vs == [] then []
      else
        var rest := OpenNeighbors(vs[1..], x, taken);
        if vs[0] in Neighbors(x) && vs[0] !in taken then [vs[0]] + rest else rest
    }
  }

  /** On a well-formed crossword, `x` is a neighbour of `y` exactly when `y` is
      a neighbour of `x`, and the overlap of `(x, y)` is then recorded. */
  lemma NeighborsSymmetric(c: Crossword, x: Slot, y: Slot)
    requires c.WellFormed()
    ensures y in c.Neighbors(x) <==> x in c.Neighbors(y)
    ensures y in c.Neighbors(x) ==> (x, y) in c.overlaps && (y, x) in c.overlaps
  {
    if (y, x) in c.overlaps {
      assert (x, y) in c.overlaps;
    }
    if (x, y) in c.overlaps {
      assert (y, x) in c.overlaps;
    }
  }
}
