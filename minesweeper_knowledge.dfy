/** What the minesweeper player knows: a sentence says how many of a set of
    cells are mines. The lemmas here show that each update the player makes
    to a sentence keeps it true of the actual placement of the mines. */
module MinesweeperKnowledge {
  import opened Sets
  import opened MinesweeperGame

  /** The sentence "`count` of `cells` are mines" is true of the mine
      placement `placed`. */
  ghost predicate Holds(placed: set<Cell>, cells: set<Cell>, count: int) {
    |cells * placed| == count
  }

  /** When a true sentence has as many mines as cells, all of them are
      mines; when it has none, none of them is. */
  lemma KnownSound(placed: set<Cell>, cells: set<Cell>, count: int)
    requires Holds(placed, cells, count)
    ensures |cells| == count ==> cells <= placed
    ensures count == 0 ==> cells !! placed
  {
    if |cells| == count && !(cells <= placed) {
      ProperSubsetSmaller(cells * placed, cells);
    }
    if count == 0 {
      forall p | p in cells
        ensures p !in placed
      {
        assert p in placed ==> p in cells * placed;
      }
    }
  }

  /** The count a sentence keeps after `c` is struck out as a mine: one
      less when `c` was among its cells, but never below zero. */
  function MineStruck(cells: set<Cell>, count: int, c: Cell): int {
    if c in cells && count > 0 then count - 1 else count
  }

  /** Striking out a real mine keeps a true sentence true. */
  lemma MineStruckSound(placed: set<Cell>, cells: set<Cell>, count: int, c: Cell)
    requires Holds(placed, cells, count) && c in placed
    ensures Holds(placed, cells - {c}, MineStruck(cells, count, c))
  {
    if c in cells {
      assert c in cells * placed;
      assert (cells - {c}) * placed == cells * placed - {c};
    } else {
      assert cells - {c} == cells;
    }
  }

  /** The count a sentence keeps after `k` of its cells are struck out as
      mines one after another: each strike takes one off a positive count,
      as `MineStruck` does. */
  function Struck(count: int, k: nat): int {
    if k == 0 then count
    else var n := Struck(count, k - 1); if n > 0 then n - 1 else n
  }

  /** Striking `k` cells out of a sentence takes `k` off a count of at
      least `k`, leaves zero when the count was smaller, and leaves a
      negative count as it was. */
  lemma {:induction false} StruckClosed(count: int, k: nat)
    ensures Struck(count, k) == if count < 0 then count else if count >= k then count - k else 0
  {
    if k > 0 {
      StruckClosed(count, k - 1);
    }
  }

  /** Striking `a` cells and then `b` more is striking `a + b` cells. */
  lemma StruckTwice(count: int, a: nat, b: nat)
    ensures Struck(Struck(count, a), b) == Struck(count, a + b)
  {
    StruckClosed(count, a);
    StruckClosed(Struck(count, a), b);
    StruckClosed(count, a + b);
  }

  /** Striking one more cell of the sentence is one more strike. */
  lemma StruckStep(cells: set<Cell>, count: int, k: nat, c: Cell)
    requires c in cells
    ensures MineStruck(cells, Struck(count, k), c) == Struck(count, k + 1)
  {
  }

  /** Striking one more mine `c` out of a sentence that has had the mines
      `done` struck out of it is striking `done` and `c` together. */
  lemma StruckMore(cells: set<Cell>, count: int, done: set<Cell>, c: Cell)
    requires c !in done
    ensures cells - done - {c} == cells - (done + {c})
    ensures MineStruck(cells - done, Struck(count, |cells * done|), c) == Struck(count, |cells * (done + {c})|)
  {
    OverlapInsert(cells, done, c);
  }

  /** Striking out the mines `more` after the disjoint mines `done` is
      striking out both together. */
  lemma StruckUnion(cells: set<Cell>, count: int, done: set<Cell>, more: set<Cell>)
    requires done !! more
    ensures cells - done - more == cells - (done + more)
    ensures Struck(Struck(count, |cells * done|), |(cells - done) * more|) == Struck(count, |cells * (done + more)|)
  {
    OverlapUnion(cells, done, more);
    StruckTwice(count, |cells * done|, |(cells - done) * more|);
  }

  /** A sentence with not exactly as many mines as cells (or with none)
      stays so when mines are struck out of it. */
  lemma UnresolvedStays(cells: set<Cell>, count: int, more: set<Cell>)
    requires !(|cells| == count != 0)
    ensures !(|cells - more| == Struck(count, |cells * more|) != 0)
  {
    assert cells == (cells - more) + cells * more;
    assert (cells - more) !! cells * more;
    StruckClosed(count, |cells * more|);
  }

  /** A sentence with as many mines as cells, all struck out as mines, is
      left with no cells and no mines. */
  lemma ResolvedEmpty(cells: set<Cell>, count: int)
    requires |cells| == count != 0
    ensures cells - cells == {} && Struck(count, |cells * cells|) == 0
  {
    assert cells * cells == cells;
    StruckClosed(count, |cells|);
  }

  /** Striking out of a true sentence every cell of a set of real mines
      leaves a true sentence: each struck cell of the sentence is one of
      its mines. */
  lemma StruckSound(placed: set<Cell>, cells: set<Cell>, count: int, cs: set<Cell>)
    requires Holds(placed, cells, count) && cs <= placed
    ensures Holds(placed, cells - cs, Struck(count, |cells * cs|))
  {
    var hit := cells * cs;
    assert cells * placed == (cells - cs) * placed + hit;
    assert (cells - cs) * placed !! hit;
    CardinalityOfSubset(hit, cells * placed);
    StruckClosed(count, |hit|);
  }

  /** Striking out of a true sentence the cells rightly known to be safe
      and those rightly known to be mines, counting a cell in both as safe,
      leaves a true sentence. */
  lemma KnownStruckSound(placed: set<Cell>, cells: set<Cell>, count: int, safes: set<Cell>, mines: set<Cell>)
    requires Holds(placed, cells, count) && safes !! placed && mines <= placed
    ensures Holds(placed, cells - safes - mines, Struck(count, |cells * (mines - safes)|))
  {
    MinusOutside(cells, safes, placed);
    StruckSound(placed, cells - safes, count, mines - safes);
    MinusBoth(cells, safes, mines);
  }

  /** Striking out a safe cell keeps a true sentence true. */
  lemma SafeStruckSound(placed: set<Cell>, cells: set<Cell>, count: int, c: Cell)
    requires Holds(placed, cells, count) && c !in placed
    ensures Holds(placed, cells - {c}, count)
  {
    assert (cells - {c}) * placed == cells * placed;
  }

  /** The subset rule: if `inner` is part of `outer`, the cells of `outer`
      not in `inner` hold the difference of the two counts. */
  lemma SubsetSound(placed: set<Cell>, outer: set<Cell>, n: int, inner: set<Cell>, m: int)
    requires Holds(placed, outer, n) && Holds(placed, inner, m) && inner <= outer
    ensures Holds(placed, outer - inner, n - m)
  {
    var rest := (outer - inner) * placed;
    var part := inner * placed;
    assert outer * placed == rest + part;
    assert rest !! part;
  }

  /** A logical statement about the board: `count` of `cells` are mines. */
  class Sentence {
    var cells: set<Cell>
    var count: int

    constructor (cells: set<Cell>, count: int)
      ensures this.cells == cells && this.count == count
    {
      this.cells := cells;
      this.count := count;
    }

    /** Both sentences name the same cells and the same count. */
    predicate Equals(other: Sentence)
      reads this, other
      ensures this == other ==> Equals(other)
      ensures Equals(other) ==> KnownMines() == other.KnownMines() && KnownSafes() == other.KnownSafes()
    {
      cells == other.cells && count == other.count
    }

    /** The cells this sentence alone shows to be mines: all of them when
        there are as many mines as cells (and at least one), none otherwise. */
    function KnownMines(): (r: set<Cell>)
      reads this
      ensures r <= cells
      ensures r != {} <==> |cells| == count && count != 0
      ensures r != {} ==> r == cells
    {
      if |cells| == count && |cells| != 0 then cells else {}
    }

    /** The cells this sentence alone shows to be safe: all of them when the
        count is zero, none otherwise. */
    function KnownSafes(): (r: set<Cell>)
      reads this
      ensures r <= cells
      ensures count == 0 ==> r == cells
      ensures count != 0 ==> r == {}
    {
      if count == 0 then cells else {}
    }

    /** Strikes `cell` out as a mine: it leaves the cells and, if it was
        among them, the count drops by one unless it is already zero. */
    method MarkMine(cell: Cell)
      modifies this
      ensures cells == old(cells) - {cell}
      ensures count == MineStruck(old(cells), old(count), cell)
    {
      var entities := cells;
      while entities != {}
        invariant cell in entities ==> cell in old(cells) && cells == old(cells) && count == old(count)
        invariant cell !in entities ==> cells == old(cells) - {cell} && count == MineStruck(old(cells), old(count), cell)
        decreases entities
      {
        var entity :| entity in entities;
        if entity == cell {
          cells := cells - {entity};
          if count > 0 {
            count := count - 1;
          }
        }
        entities := entities - {entity};
      }
    }

    /** Strikes `cell` out as safe: it leaves the cells and the count stays. */
    method MarkSafe(cell: Cell)
      modifies this
      ensures cells == old(cells) - {cell}
      ensures count == old(count)
    {
      var entities := cells;
      while entities != {}
        invariant cell in entities ==> cells == old(cells)
        invariant cell !in entities ==> cells == old(cells) - {cell}
        invariant count == old(count)
        decreases entities
      {
        var entity :| entity in entities;
        if entity == cell {
          cells := cells - {entity};
        }
        entities := entities - {entity};
      }
    }
  }

  /** Each sentence of `ks` has lost the cells `done`, struck out as mines
      one by one, since the earlier state. */
  twostate predicate MinesStruck(ks: seq<Sentence>, new done: set<Cell>)
    reads ks
  {
    forall s :: s in ks ==>
      s.cells == old(s.cells) - done && s.count == Struck(old(s.count), |old(s.cells) * done|)
  }

  /** Each sentence of `ks` started with the cells `cells0` and the count
      `count0` give it, and has since lost the cells `done`, struck out as
      mines one by one. */
  ghost predicate StruckFrom(ks: seq<Sentence>, cells0: map<Sentence, set<Cell>>, count0: map<Sentence, int>,
                             done: set<Cell>)
    reads ks
  {
    forall s :: s in ks ==>
      s in cells0 && s in count0 && s.cells == cells0[s] - done && s.count == Struck(count0[s], |cells0[s] * done|)
  }

  /** Striking mines out of sentences never gives one that showed no
      known mines some. */
  twostate lemma UnresolvedKept(ks: seq<Sentence>, new more: set<Cell>)
    requires MinesStruck(ks, more)
    ensures forall k :: 0 <= k < |ks| && old(ks[k].KnownMines()) == {} ==> ks[k].KnownMines() == {}
  {
    forall k | 0 <= k < |ks| && old(ks[k].KnownMines()) == {}
      ensures ks[k].KnownMines() == {}
    {
      UnresolvedStays(old(ks[k].cells), old(ks[k].count), more);
    }
  }

  /** What a true sentence alone shows is right: its known mines are mines
      and its known safe cells are not. */
  lemma KnownAreTrue(s: Sentence, placed: set<Cell>)
    requires Holds(placed, s.cells, s.count)
    ensures s.KnownMines() <= placed && s.KnownSafes() !! placed
  {
    KnownSound(placed, s.cells, s.count);
  }
}
