/** The minesweeper player: it remembers the moves made, the cells known to
    be mines or safe, and a list of sentences, and infers from them which
    cell to open next. Each update is proved to keep the player's beliefs
    true of the actual mine placement whenever they were true before. */
module MinesweeperPlayer {
  import opened Wrappers
  import opened Sets
  import opened MinesweeperGame
  import opened MinesweeperKnowledge

  /** The cells `(a, b)` with `a0 <= a < a1` and `b0 <= b < b1`. */
  function Block(a0: int, a1: int, b0: int, b1: int): (r: set<Cell>)
    ensures forall p :: p in r <==> a0 <= p.0 < a1 && b0 <= p.1 < b1
  {
    set a, b | a0 <= a < a1 && b0 <= b < b1 :: (a, b)
  }

  class MinesweeperAI {
    const height: int
    const width: int
    /** The cells already opened. */
    var movesMade: set<Cell>
    /** The cells known to be mines. */
    var mines: set<Cell>
    /** The cells known to be safe. */
    var safes: set<Cell>
    /** The sentences known to be true. */
    var knowledge: seq<Sentence>

    /** No sentence still mentions a cell already known to be a mine or
        safe. */
    ghost predicate Valid()
      reads this, knowledge
    {
      forall s :: s in knowledge ==> s.cells !! mines && s.cells !! safes
    }

    /** Everything the player believes is true of the mine placement
        `placed`. */
    ghost predicate Sound(placed: set<Cell>)
      reads this, knowledge
    {
      mines <= placed && safes !! placed
      && forall s :: s in knowledge ==> Holds(placed, s.cells, s.count)
    }

    /** A player for a board of `height` rows and `width` columns that
        knows nothing yet. */
    constructor (height: int, width: int)
      ensures Valid() && forall placed :: Sound(placed)
      ensures this.height == height && this.width == width
      ensures movesMade == {} && mines == {} && safes == {} && knowledge == []
    {
      this.height := height;
      this.width := width;
      movesMade := {};
      mines := {};
      safes := {};
      knowledge := [];
    }

    /** Records `cell` as a mine and strikes it out of every sentence. */
    method MarkMine(cell: Cell, ghost placed: set<Cell>)
      requires Valid()
      modifies this, knowledge
      ensures Valid()
      ensures mines == old(mines) + {cell}
      ensures safes == old(safes) && movesMade == old(movesMade) && knowledge == old(knowledge)
      ensures forall s :: s in knowledge ==>
        s.cells == old(s.cells) - {cell} && s.count == MineStruck(old(s.cells), old(s.count), cell)
      ensures old(Sound(placed)) && cell in placed ==> Sound(placed)
    {
      mines := mines + {cell};
      var i := 0;
      while i < |knowledge|
        invariant 0 <= i <= |knowledge|
        invariant mines == old(mines) + {cell}
        invariant safes == old(safes) && movesMade == old(movesMade) && knowledge == old(knowledge)
        invariant forall s :: s in knowledge[..i] ==>
          s.cells == old(s.cells) - {cell} && s.count == MineStruck(old(s.cells), old(s.count), cell)
        invariant forall s :: s in knowledge && s !in knowledge[..i] ==>
          s.cells == old(s.cells) && s.count == old(s.count)
      {
        knowledge[i].MarkMine(cell);
        assert knowledge[..i + 1] == knowledge[..i] + [knowledge[i]];
        i := i + 1;
      }
      assert knowledge[..i] == knowledge;
      if old(Sound(placed)) && cell in placed {
        forall s | s in knowledge
          ensures Holds(placed, s.cells, s.count)
        {
          MineStruckSound(placed, old(s.cells), old(s.count), cell);
        }
      }
    }

    /** Records `cell` as safe and strikes it out of every sentence. */
    method MarkSafe(cell: Cell, ghost placed: set<Cell>)
      requires Valid()
      modifies this, knowledge
      ensures Valid()
      ensures safes == old(safes) + {cell}
      ensures mines == old(mines) && movesMade == old(movesMade) && knowledge == old(knowledge)
      ensures forall s :: s in knowledge ==> s.cells == old(s.cells) - {cell} && s.count == old(s.count)
      ensures old(Sound(placed)) && cell !in placed ==> Sound(placed)
    {
      safes := safes + {cell};
      var i := 0;
      while i < |knowledge|
        invariant 0 <= i <= |knowledge|
        invariant safes == old(safes) + {cell}
        invariant mines == old(mines) && movesMade == old(movesMade) && knowledge == old(knowledge)
        invariant forall s :: s in knowledge[..i] ==> s.cells == old(s.cells) - {cell} && s.count == old(s.count)
        invariant forall s :: s in knowledge && s !in knowledge[..i] ==>
          s.cells == old(s.cells) && s.count == old(s.count)
      {
        knowledge[i].MarkSafe(cell);
        assert knowledge[..i + 1] == knowledge[..i] + [knowledge[i]];
        i := i + 1;
      }
      assert knowledge[..i] == knowledge;
      if old(Sound(placed)) && cell !in placed {
        forall s | s in knowledge
          ensures Holds(placed, s.cells, s.count)
        {
          SafeStruckSound(placed, old(s.cells), old(s.count), cell);
        }
      }
    }

    /** The neighbours of `cell` as the nine cases of the source compute
        them: the block of rows and columns around `cell`, cut at the edges
        it lies on, without `cell`; `None` when no case applies or the block
        misses `cell`. */
    function Neighbors(cell: Cell): (r: Option<set<Cell>>)
      ensures r.Some? ==> forall p :: p in r.value ==>
        p != cell && cell.0 - 1 <= p.0 <= cell.0 + 1 && cell.1 - 1 <= p.1 <= cell.1 + 1
    {
      var (i, j) := cell;
      var block :=
        if 0 < i < height - 1 && 0 < j < width - 1 then Block(i - 1, i + 2, j - 1, j + 2)
        else if i == 0 && j == 0 then Block(0, i + 2, 0, j + 2)
        else if i == height - 1 && j == width - 1 then Block(i - 1, height, j - 1, width)
        else if i == 0 && j == width - 1 then Block(0, i + 2, j - 1, width)
        else if i == height - 1 && j == 0 then Block(i - 1, height, 0, j + 2)
        else if i == 0 && 0 < j < width - 1 then Block(0, i + 2, j - 1, j + 2)
        else if i == height - 1 && 0 < j < width - 1 then Block(i - 1, height, j - 1, j + 2)
        else if 0 < i < height - 1 && j == 0 then Block(i - 1, i + 2, 0, j + 2)
        else if 0 < i < height - 1 && j == width - 1 then Block(i - 1, i + 2, j - 1, width)
        else {};
      if cell in block then Some(block - {cell}) else None
    }

    /** The neighbours of `cell` that lie on the board; `None` for a cell
        off the board. */
    function BoardNeighbors(cell: Cell): (r: Option<set<Cell>>)
      ensures r.Some? <==> InBounds(height, width, cell)
      ensures r.Some? ==> forall p :: p in r.value <==> Adjacent(height, width, cell, p)
    {
      if InBounds(height, width, cell) then Some(Around(height, width, cell)) else None
    }

    /** The sentence "`count` of `cells` are mines" with the cells already
        known to be safe or mines struck out. */
    method NewSentence(cells: set<Cell>, count: int, ghost placed: set<Cell>) returns (s: Sentence)
      ensures fresh(s)
      ensures s.cells == cells - safes - mines
      ensures s.count == Struck(count, |cells * (mines - safes)|)
      ensures Sound(placed) && Holds(placed, cells, count) ==> Holds(placed, s.cells, s.count)
    {
      s := new Sentence(cells, count);
      s.count := count;
      ghost var truth := Sound(placed) && Holds(placed, cells, count);
      assert truth ==> safes !! placed && mines <= placed;
      StrikeKnown(s, safes, mines, placed);
    }

    /** Records every cell of `cs` as safe: each sentence loses those cells
        and keeps its count. */
    method MarkSafes(cs: set<Cell>, ghost placed: set<Cell>)
      requires Valid()
      modifies this, knowledge
      ensures Valid()
      ensures safes == old(safes) + cs
      ensures mines == old(mines) && movesMade == old(movesMade) && knowledge == old(knowledge)
      ensures forall s :: s in knowledge ==> s.cells == old(s.cells) - cs && s.count == old(s.count)
      ensures old(Sound(placed)) && cs !! placed ==> Sound(placed)
    {
      var rest := cs;
      while rest != {}
        invariant Valid() && rest <= cs
        invariant safes == old(safes) + (cs - rest)
        invariant mines == old(mines) && movesMade == old(movesMade) && knowledge == old(knowledge)
        invariant forall s :: s in knowledge ==> s.cells == old(s.cells) - (cs - rest) && s.count == old(s.count)
        invariant old(Sound(placed)) && cs !! placed ==> Sound(placed)
        decreases rest
      {
        var c :| c in rest;
        MarkSafe(c, placed);
        assert cs - (rest - {c}) == (cs - rest) + {c};
        rest := rest - {c};
      }
    }

    /** Records every cell of `cs` as a mine: each sentence loses those
        cells, and its count loses one for each of them it held, down to
        zero. */
    method MarkMines(cs: set<Cell>, ghost placed: set<Cell>)
      requires Valid()
      modifies this, knowledge
      ensures Valid()
      ensures mines == old(mines) + cs
      ensures safes == old(safes) && movesMade == old(movesMade) && knowledge == old(knowledge)
      ensures forall s :: s in knowledge ==>
        s.cells == old(s.cells) - cs && s.count == Struck(old(s.count), |old(s.cells) * cs|)
      ensures old(Sound(placed)) && cs <= placed ==> Sound(placed)
    {
      ghost var truth := Sound(placed) && cs <= placed;
      ghost var cells0, count0 := Snapshot();
      ghost var done: set<Cell> := {};
      var rest := cs;
      while rest != {}
        invariant Valid() && rest <= cs && done == cs - rest
        invariant mines == old(mines) + done
        invariant safes == old(safes) && movesMade == old(movesMade) && knowledge == old(knowledge)
        invariant StruckFrom(knowledge, cells0, count0, done)
        invariant truth ==> Sound(placed)
        decreases rest
      {
        var c :| c in rest;
        StrikeMine(c, cells0, count0, done, placed);
        done := done + {c};
        rest := rest - {c};
      }
      assert done == cs;
    }

    /** The cells and the count of every sentence, to compare later states
        with. */
    ghost method Snapshot() returns (cells0: map<Sentence, set<Cell>>, count0: map<Sentence, int>)
      ensures forall s :: s in knowledge ==> s in cells0 && s in count0 && cells0[s] == s.cells && count0[s] == s.count
      ensures StruckFrom(knowledge, cells0, count0, {})
    {
      cells0 := map s | s in knowledge :: s.cells;
      count0 := map s | s in knowledge :: s.count;
      forall s | s in knowledge
        ensures s.cells == cells0[s] - {} && s.count == Struck(count0[s], |cells0[s] * {}|)
      {
        assert cells0[s] * {} == {};
      }
    }

    /** One step of marking mines: marks `c` and extends what each sentence
        has lost since the snapshot `cells0`, `count0` by `c`. */
    method StrikeMine(c: Cell, ghost cells0: map<Sentence, set<Cell>>, ghost count0: map<Sentence, int>,
                      ghost done: set<Cell>, ghost placed: set<Cell>)
      requires Valid() && c !in done && StruckFrom(knowledge, cells0, count0, done)
      modifies this, knowledge
      ensures Valid()
      ensures mines == old(mines) + {c}
      ensures safes == old(safes) && movesMade == old(movesMade) && knowledge == old(knowledge)
      ensures StruckFrom(knowledge, cells0, count0, done + {c})
      ensures old(Sound(placed)) && c in placed ==> Sound(placed)
    {
      MarkMine(c, placed);
      forall s | s in knowledge
        ensures s.cells == cells0[s] - (done + {c}) && s.count == Struck(count0[s], |cells0[s] * (done + {c})|)
      {
        StruckMore(cells0[s], count0[s], done, c);
      }
    }

    /** When sentence `i` has as many mines as cells, marks all its cells
        as mines, which leaves it with no cells and a zero count. */
    method ResolveOne(i: nat, ghost placed: set<Cell>)
      requires i < |knowledge| && Valid()
      modifies this, knowledge
      ensures Valid()
      ensures safes == old(safes) && movesMade == old(movesMade) && knowledge == old(knowledge)
      ensures old(|knowledge[i].cells| == knowledge[i].count != 0) ==>
        mines == old(mines) + old(knowledge[i].cells) && knowledge[i].cells == {} && knowledge[i].count == 0
      ensures !old(|knowledge[i].cells| == knowledge[i].count != 0) ==> mines == old(mines)
      ensures MinesStruck(knowledge, mines - old(mines))
      ensures forall t :: t in knowledge ==> t.cells <= old(t.cells)
      ensures forall k :: 0 <= k < |knowledge| && old(knowledge[k].KnownMines()) == {} ==> knowledge[k].KnownMines() == {}
      ensures knowledge[i].KnownMines() == {}
      ensures old(Sound(placed)) ==> Sound(placed)
    {
      var s := knowledge[i];
      if |s.cells| == s.count != 0 {
        Resolve(s, placed);
      } else {
        assert mines - old(mines) == {};
        forall t | t in knowledge
          ensures t.cells == old(t.cells) - {} && t.count == Struck(old(t.count), |old(t.cells) * {}|)
        {
          assert old(t.cells) * {} == {};
        }
      }
    }

    /** The body of the resolution of a sentence `s` with as many mines as
        cells: marks its cells as mines and sets its count to zero. */
    method Resolve(s: Sentence, ghost placed: set<Cell>)
      requires s in knowledge && Valid() && |s.cells| == s.count != 0
      modifies this, knowledge
      ensures Valid()
      ensures safes == old(safes) && movesMade == old(movesMade) && knowledge == old(knowledge)
      ensures mines == old(mines) + old(s.cells) && s.cells == {} && s.count == 0
      ensures MinesStruck(knowledge, old(s.cells))
      ensures forall k :: 0 <= k < |knowledge| && old(knowledge[k].KnownMines()) == {} ==> knowledge[k].KnownMines() == {}
      ensures old(Sound(placed)) ==> Sound(placed)
    {
      if Sound(placed) {
        KnownSound(placed, s.cells, s.count);
      }
      ghost var known := s.cells;
      ResolvedEmpty(known, s.count);
      MarkCells(s.cells, placed);
      assert known - old(mines) == known && s.count == 0;
      s.count := 0;
      assert MinesStruck(knowledge, known);
      UnresolvedKept(knowledge, known);
    }

    /** Marks as a mine every cell of `cells` not yet known to be one:
        each sentence loses the cells newly marked, and its count loses one
        for each of them it held, down to zero. */
    method MarkCells(cells: set<Cell>, ghost placed: set<Cell>)
      requires Valid()
      modifies this, knowledge
      ensures Valid()
      ensures mines == old(mines) + cells
      ensures safes == old(safes) && movesMade == old(movesMade) && knowledge == old(knowledge)
      ensures MinesStruck(knowledge, cells - old(mines))
      ensures old(Sound(placed)) && cells <= placed ==> Sound(placed)
    {
      ghost var truth := Sound(placed) && cells <= placed;
      ghost var cells0, count0 := Snapshot();
      ghost var done: set<Cell> := {};
      var objects := cells;
      while objects != {}
        invariant Valid() && objects <= cells && done == cells - objects - old(mines)
        invariant mines == old(mines) + (cells - objects)
        invariant safes == old(safes) && movesMade == old(movesMade) && knowledge == old(knowledge)
        invariant StruckFrom(knowledge, cells0, count0, done)
        invariant truth ==> Sound(placed)
        decreases objects
      {
        var entity :| entity in objects;
        if entity !in mines {
          StrikeMine(entity, cells0, count0, done, placed);
          done := done + {entity};
        }
        objects := objects - {entity};
      }
      assert done == cells - old(mines);
    }

    /** Resolves every sentence that has as many mines as cells: afterwards
        no sentence has, and each has lost exactly the mines found. */
    method ResolveKnownMines(ghost placed: set<Cell>)
      requires Valid()
      modifies this, knowledge
      ensures Valid()
      ensures safes == old(safes) && movesMade == old(movesMade) && knowledge == old(knowledge)
      ensures old(mines) <= mines
      ensures forall s :: s in knowledge ==> s.cells <= old(s.cells)
      ensures forall s :: s in knowledge ==> s.KnownMines() == {}
      ensures old(Sound(placed)) ==> Sound(placed)
    {
      ghost var truth := Sound(placed);
      var i := 0;
      while i < |knowledge|
        invariant 0 <= i <= |knowledge| && Valid()
        invariant safes == old(safes) && movesMade == old(movesMade) && knowledge == old(knowledge)
        invariant old(mines) <= mines
        invariant forall t :: t in knowledge ==> t.cells <= old(t.cells)
        invariant forall k :: 0 <= k < i ==> knowledge[k].KnownMines() == {}
        invariant truth ==> Sound(placed)
      {
        ResolveStep(i, placed);
        i := i + 1;
      }
    }

    /** `ResolveOne` as the loop of `ResolveKnownMines` sees it: sentence `i`
        is left unresolvable, no sentence becomes resolvable and no sentence
        gains a cell. */
    method ResolveStep(i: nat, ghost placed: set<Cell>)
      requires i < |knowledge| && Valid()
      modifies this, knowledge
      ensures Valid()
      ensures safes == old(safes) && movesMade == old(movesMade) && knowledge == old(knowledge)
      ensures old(mines) <= mines
      ensures forall t :: t in knowledge ==> t.cells <= old(t.cells)
      ensures forall k :: 0 <= k < |knowledge| && old(knowledge[k].KnownMines()) == {} ==> knowledge[k].KnownMines() == {}
      ensures knowledge[i].KnownMines() == {}
      ensures old(Sound(placed)) ==> Sound(placed)
    {
      ResolveOne(i, placed);
    }

    /** The subset rule for sentences `i` and `j`: when the cells of `j` are
        a smaller part of the cells of `i`, sentence `i` becomes "the
        remaining cells hold the remaining mines". */
    method Subtract(i: nat, j: nat, ghost placed: set<Cell>) returns (fired: bool)
      requires i < |knowledge| && j < |knowledge| && Valid()
      modifies knowledge[i], knowledge[j]
      ensures Valid()
      ensures fired <==>
        |old(knowledge[j].cells)| < |old(knowledge[i].cells)| && old(knowledge[j].cells) <= old(knowledge[i].cells)
      ensures fired ==>
        knowledge[i].cells == old(knowledge[i].cells) - old(knowledge[j].cells)
        && knowledge[i].count == old(knowledge[i].count) - old(knowledge[j].count)
        && knowledge[j].cells == old(knowledge[j].cells) && knowledge[j].count == old(knowledge[j].count)
      ensures !fired ==> forall s :: s in knowledge ==> s.cells == old(s.cells) && s.count == old(s.count)
      ensures forall s :: s in knowledge ==> s.cells <= old(s.cells)
      ensures old(Sound(placed)) ==> Sound(placed)
    {
      var target := knowledge[i];
      var other := knowledge[j];
      fired := |other.cells| < |target.cells| && other.cells <= target.cells;
      if fired {
        other.cells := other.cells;
        var words := other.cells;
        while words != {}
          invariant words <= other.cells
          invariant target.cells == old(target.cells) - (other.cells - words)
          invariant other.cells == old(other.cells) && other.count == old(other.count)
          invariant target.count == old(target.count)
          decreases words
        {
          var word :| word in words;
          assert word in target.cells;
          target.cells := target.cells - {word};
          words := words - {word};
        }
        var newCount := target.count - other.count;
        other.count := target.count - newCount;
        target.count := newCount;
        if old(Sound(placed)) {
          SubsetSound(placed, old(target.cells), old(target.count), old(other.cells), old(other.count));
        }
      }
    }

    /** Marks what sentence `s` alone shows: first its known mines, then
        its known safe cells, read after the mines are marked. */
    method MarkKnown(s: Sentence, ghost placed: set<Cell>)
      requires s in knowledge && Valid()
      modifies this, knowledge
      ensures Valid()
      ensures mines == old(mines) + old(s.KnownMines()) && safes == old(safes) + old(s.KnownSafes())
      ensures movesMade == old(movesMade) && knowledge == old(knowledge)
      ensures forall t :: t in knowledge ==>
        t.cells == old(t.cells) - old(s.KnownMines()) - old(s.KnownSafes())
        && t.count == Struck(old(t.count), |old(t.cells) * old(s.KnownMines())|)
      ensures old(Sound(placed)) ==> Sound(placed)
    {
      var found := s.KnownMines();
      if Sound(placed) {
        KnownAreTrue(s, placed);
      }
      MarkMines(found, placed);
      var cleared := s.KnownSafes();
      assert cleared == old(s.KnownSafes()) by {
        if found == {} {
          assert s.cells == old(s.cells) - {} && old(s.cells) * {} == {};
        }
      }
      if Sound(placed) {
        KnownAreTrue(s, placed);
      }
      MarkSafes(cleared, placed);
    }

    /** Applies the subset rule to every ordered pair of sentences, marking
        what each changed pair shows. */
    method InferSubsets(ghost placed: set<Cell>)
      requires Valid()
      modifies this, knowledge
      ensures Valid()
      ensures old(mines) <= mines && old(safes) <= safes
      ensures movesMade == old(movesMade) && knowledge == old(knowledge)
      ensures forall s :: s in knowledge ==> s.cells <= old(s.cells)
      ensures old(Sound(placed)) ==> Sound(placed)
    {
      var count := |knowledge|;
      var i := 0;
      while i < count
        invariant Valid() && count == |knowledge|
        invariant old(mines) <= mines && old(safes) <= safes
        invariant movesMade == old(movesMade) && knowledge == old(knowledge)
        invariant forall s :: s in knowledge ==> s.cells <= old(s.cells)
        invariant old(Sound(placed)) ==> Sound(placed)
      {
        var j := 0;
        while j < count
          invariant Valid() && count == |knowledge|
          invariant old(mines) <= mines && old(safes) <= safes
          invariant movesMade == old(movesMade) && knowledge == old(knowledge)
          invariant forall s :: s in knowledge ==> s.cells <= old(s.cells)
          invariant old(Sound(placed)) ==> Sound(placed)
        {
          var fired := Subtract(i, j, placed);
          if fired {
            MarkKnown(knowledge[j], placed);
            MarkKnown(knowledge[i], placed);
          }
          j := j + 1;
        }
        i := i + 1;
      }
    }

    /** Drops every sentence equal to the empty sentence "0 of no cells". */
    method DropEmpty(ghost placed: set<Cell>)
      requires Valid()
      modifies this
      ensures Valid()
      ensures mines == old(mines) && safes == old(safes) && movesMade == old(movesMade)
      ensures forall s :: s in knowledge <==> s in old(knowledge) && !(s.cells == {} && s.count == 0)
      ensures old(Sound(placed)) ==> Sound(placed)
    {
      var empty := new Sentence({}, 0);
      var kept: seq<Sentence> := [];
      var k := 0;
      while k < |knowledge|
        invariant 0 <= k <= |knowledge|
        invariant forall s :: s in kept <==> s in knowledge[..k] && !(s.cells == {} && s.count == 0)
      {
        if !knowledge[k].Equals(empty) {
          kept := kept + [knowledge[k]];
        }
        assert knowledge[..k + 1] == knowledge[..k] + [knowledge[k]];
        k := k + 1;
      }
      assert knowledge[..k] == knowledge;
      knowledge := kept;
    }

    /** Learns that the safe cell `cell` has `count` mines around it:
        records the move and the safe cell, adds the sentence its neighbours
        make, and draws every conclusion the rules above allow. */
    method AddKnowledge(cell: Cell, count: int, ghost placed: set<Cell>)
      requires Valid() && InBounds(height, width, cell)
      modifies this, knowledge
      ensures Valid()
      ensures movesMade == old(movesMade) + {cell}
      ensures cell in safes && old(safes) <= safes && old(mines) <= mines
      ensures forall s :: s in knowledge ==> !(s.cells == {} && s.count == 0)
      ensures forall s :: s in knowledge ==> s in old(knowledge) || fresh(s)
      ensures forall s :: s in old(knowledge) ==> (s in knowledge <==> !(s.cells == {} && s.count == 0))
      ensures old(Sound(placed)) && cell !in placed && Holds(placed, Around(height, width, cell), count) ==>
        Sound(placed)
    {
      var sentence := AddSentence(cell, count, placed);
      Deduce(sentence, placed);
      DropEmpty(placed);
    }

    /** The inferences that follow a new sentence: what it shows alone, then
        every resolved sentence, then the subset rule. The list of sentences
        stays the same; only their contents shrink. */
    method Deduce(sentence: Sentence, ghost placed: set<Cell>)
      requires sentence in knowledge && Valid()
      modifies this, knowledge
      ensures Valid()
      ensures old(mines) <= mines && old(safes) <= safes
      ensures movesMade == old(movesMade) && knowledge == old(knowledge)
      ensures forall s :: s in knowledge ==> s.cells <= old(s.cells)
      ensures old(Sound(placed)) ==> Sound(placed)
    {
      MarkUpdates(sentence, placed);
      ResolveKnownMines(placed);
      InferSubsets(placed);
    }

    /** Records the move and the safe cell, and adds the sentence that the
        neighbours of `cell` hold `count` mines. */
    method AddSentence(cell: Cell, count: int, ghost placed: set<Cell>) returns (sentence: Sentence)
      requires Valid() && InBounds(height, width, cell)
      modifies this, knowledge
      ensures Valid()
      ensures fresh(sentence) && knowledge == old(knowledge) + [sentence]
      ensures sentence.cells == Around(height, width, cell) - safes - mines
      ensures sentence.count == Struck(count, |Around(height, width, cell) * (mines - safes)|)
      ensures movesMade == old(movesMade) + {cell}
      ensures safes == old(safes) + {cell} && mines == old(mines)
      ensures old(Sound(placed)) && cell !in placed && Holds(placed, Around(height, width, cell), count) ==>
        Sound(placed)
    {
      ghost var truth := Sound(placed) && cell !in placed && Holds(placed, Around(height, width, cell), count);
      movesMade := movesMade + {cell};
      MarkSafe(cell, placed);
      assert truth ==> Sound(placed);
      var neighbors := BoardNeighbors(cell).value;
      assert neighbors == Around(height, width, cell);
      sentence := NewSentence(neighbors, count, placed);
      assert truth ==> Holds(placed, sentence.cells, sentence.count);
      Append(sentence, placed);
    }

    /** Adds a sentence that mentions no known cell to the knowledge. */
    method Append(sentence: Sentence, ghost placed: set<Cell>)
      requires Valid() && sentence.cells !! mines && sentence.cells !! safes
      modifies this
      ensures Valid()
      ensures knowledge == old(knowledge) + [sentence]
      ensures mines == old(mines) && safes == old(safes) && movesMade == old(movesMade)
      ensures old(Sound(placed)) && Holds(placed, sentence.cells, sentence.count) ==> Sound(placed)
    {
      knowledge := knowledge + [sentence];
    }

    /** Marks what the new sentence alone shows, its known safe cells and
        its known mines, both read before either is marked. */
    method MarkUpdates(sentence: Sentence, ghost placed: set<Cell>)
      requires sentence in knowledge && Valid()
      modifies this, knowledge
      ensures Valid()
      ensures safes == old(safes) + old(sentence.KnownSafes()) && mines == old(mines) + old(sentence.KnownMines())
      ensures movesMade == old(movesMade) && knowledge == old(knowledge)
      ensures forall t :: t in knowledge ==>
        t.cells == old(t.cells) - old(sentence.KnownSafes()) - old(sentence.KnownMines())
        && t.count == Struck(old(t.count), |old(t.cells) * old(sentence.KnownMines())|)
      ensures old(Sound(placed)) ==> Sound(placed)
    {
      var safeUpdate := sentence.KnownSafes();
      var mineUpdate := sentence.KnownMines();
      if Sound(placed) {
        KnownAreTrue(sentence, placed);
      }
      MarkSafes(safeUpdate, placed);
      MarkMines(mineUpdate, placed);
      forall t | t in knowledge
        ensures |(old(t.cells) - safeUpdate) * mineUpdate| == |old(t.cells) * mineUpdate|
      {
        if mineUpdate == {} {
          assert (old(t.cells) - safeUpdate) * mineUpdate == {} == old(t.cells) * mineUpdate;
        } else {
          assert old(t.cells) - safeUpdate == old(t.cells);
        }
      }
    }

    /** A cell known to be safe that has not been opened, or `None` when
        there is none; the choice among several is left open. */
    method MakeSafeMove() returns (move: Option<Cell>)
      ensures move.None? <==> safes <= movesMade
      ensures move.Some? ==> move.value in safes && move.value !in movesMade
    {
      var candidates: seq<Cell> := [];
      var rest := safes;
      while rest != {}
        invariant rest <= safes
        invariant forall p :: p in candidates <==> p in safes && p !in rest
        decreases rest
      {
        var k :| k in rest;
        candidates := candidates + [k];
        rest := rest - {k};
      }
      var open: seq<Cell> := [];
      for n := 0 to |candidates|
        invariant forall p :: p in open <==> p in candidates[..n] && p !in movesMade
      {
        if candidates[n] !in movesMade {
          open := open + [candidates[n]];
        }
        assert candidates[..n + 1] == candidates[..n] + [candidates[n]];
      }
      assert candidates[..|candidates|] == candidates;
      if |open| == 0 {
        forall p | p in safes
          ensures p in movesMade
        {
          assert p in candidates;
          assert p !in open;
        }
        move := None;
      } else {
        var k :| 0 <= k < |open|;
        assert open[k] in open;
        move := Some(open[k]);
      }
    }

    /** A cell on the board that has not been opened and is not known to be
        a mine, or `None` when there is none; the choice among several is
        left open. */
    method MakeRandomMove() returns (move: Option<Cell>)
      ensures move.None? <==> forall p :: InBounds(height, width, p) ==> p in movesMade || p in mines
      ensures move.Some? ==> InBounds(height, width, move.value) && move.value !in movesMade && move.value !in mines
    {
      var allMoves := AllCells(height, width);
      var unplayed := Without(allMoves, movesMade);
      var open := Without(unplayed, mines);
      if |open| == 0 {
        forall p | InBounds(height, width, p) && p !in movesMade
          ensures p in mines
        {
          assert p in unplayed;
          assert p !in open;
        }
        move := None;
      } else {
        var k :| 0 <= k < |open|;
        assert open[k] in open;
        move := Some(open[k]);
      }
    }
  }

  /** The loop of `add_knowledge` that strikes out of a new sentence the
      cells already known to be safe or mines; a cell in both counts as
      safe. The count loses one for each mine struck, down to zero. When
      those cells are known rightly, a true sentence stays true. */
  method StrikeKnown(s: Sentence, safes: set<Cell>, mines: set<Cell>, ghost placed: set<Cell>)
    modifies s
    ensures s.cells == old(s.cells) - safes - mines
    ensures s.count == Struck(old(s.count), |old(s.cells) * (mines - safes)|)
    ensures old(Holds(placed, s.cells, s.count)) && safes !! placed && mines <= placed ==> Holds(placed, s.cells, s.count)
  {
    ghost var cells0, count0 := s.cells, s.count;
    ghost var known := cells0 - safes - mines;
    ghost var struck := mines - safes;
    ghost var done: set<Cell> := {};
    ghost var hits: nat := 0;
    var entities := s.cells;
    while entities != {}
      invariant s.cells == entities + known && entities <= cells0 && done == cells0 - entities
      invariant hits == |done * struck| && s.count == Struck(count0, hits)
      decreases entities
    {
      var entity :| entity in entities;
      OverlapInsert(struck, done, entity);
      MoveOne(cells0, entities, entity);
      DropOne(entities, known, entity);
      hits := StrikeOne(s, entity, safes, mines, count0, hits);
      done := done + {entity};
      entities := entities - {entity};
    }
    NothingLeft(cells0, entities);
    NothingLeft(known, entities);
    if Holds(placed, cells0, count0) && safes !! placed && mines <= placed {
      KnownStruckSound(placed, cells0, count0, safes, mines);
    }
  }

  /** One step of that loop: strikes `entity` out of `s` as safe when it is
      in `safes`, otherwise as a mine when it is in `mines`; `hits` counts
      the mines struck so far out of a sentence whose count started at
      `count0`. */
  method StrikeOne(s: Sentence, entity: Cell, safes: set<Cell>, mines: set<Cell>, ghost count0: int, ghost hits: nat)
    returns (ghost hits': nat)
    requires entity in s.cells && s.count == Struck(count0, hits)
    modifies s
    ensures s.cells == if entity in safes || entity in mines then old(s.cells) - {entity} else old(s.cells)
    ensures hits' == if entity in mines - safes then hits + 1 else hits
    ensures s.count == Struck(count0, hits')
  {
    hits' := hits;
    if entity in safes {
      s.MarkSafe(entity);
    } else if entity in mines {
      StruckStep(s.cells, count0, hits, entity);
      s.MarkMine(entity);
      hits' := hits + 1;
    }
  }

  /** Every cell of an `h`-by-`w` board, row by row. */
  method AllCells(h: int, w: int) returns (cells: seq<Cell>)
    ensures forall p :: p in cells <==> InBounds(h, w, p)
  {
    cells := [];
    var i := 0;
    while i < h
      invariant 0 <= i && (i <= h || i == 0)
      invariant forall p :: p in cells <==> InBounds(h, w, p) && p.0 < i
    {
      var row := RowCells(i, w);
      cells := cells + row;
      i := i + 1;
    }
  }

  /** The cells `(i, 0)` to `(i, w - 1)`. */
  method RowCells(i: int, w: int) returns (row: seq<Cell>)
    ensures forall p :: p in row <==> p.0 == i && 0 <= p.1 < w
  {
    row := [];
    var j := 0;
    while j < w
      invariant 0 <= j && (j <= w || j == 0)
      invariant forall p :: p in row <==> p.0 == i && 0 <= p.1 < j
    {
      row := row + [(i, j)];
      j := j + 1;
    }
  }

  /** The cells of `cells` not in `drop`, in their order: the removal loops
      of `make_random_move`. */
  method Without(cells: seq<Cell>, drop: set<Cell>) returns (kept: seq<Cell>)
    ensures forall p :: p in kept <==> p in cells && p !in drop
  {
    kept := [];
    for n := 0 to |cells|
      invariant forall p :: p in kept <==> p in cells[..n] && p !in drop
    {
      if cells[n] !in drop {
        kept := kept + [cells[n]];
      }
      assert cells[..n + 1] == cells[..n] + [cells[n]];
    }
    assert cells[..|cells|] == cells;
  }

  /** On a board of at least two rows and two columns, the nine cases of
      the source give exactly the neighbours on the board, and fail exactly
      for a cell off the board. */
  lemma NeighborsOnBoard(ai: MinesweeperAI, cell: Cell)
    requires ai.height >= 2 && ai.width >= 2
    ensures ai.Neighbors(cell) == ai.BoardNeighbors(cell)
  {
    var (i, j) := cell;
    var h, w := ai.height, ai.width;
    if InBounds(h, w, cell) {
      var block := Block(if i == 0 then 0 else i - 1, if i == h - 1 then h else i + 2,
                         if j == 0 then 0 else j - 1, if j == w - 1 then w else j + 2);
      assert cell in block;
      assert ai.Neighbors(cell) == Some(block - {cell});
      assert block - {cell} == Around(h, w, cell);
    }
  }

  /** On a board of one row, the cases of the source give a corner cell
      neighbours off the board: `(1, 0)` for the cell `(0, 0)` of a board of
      one row and three columns. */
  lemma NeighborsLeaveBoard(ai: MinesweeperAI)
    requires ai.height == 1 && ai.width == 3
    ensures ai.Neighbors((0, 0)).Some? && (1, 0) in ai.Neighbors((0, 0)).value
    ensures !InBounds(ai.height, ai.width, (1, 0))
  {
    assert (0, 0) in Block(0, 2, 0, 2);
  }
}
