/** The minesweeper board: where the mines are, how many mines surround a
    cell, and whether every mine has been flagged. The random placement of
    the mines is taken as an input: the board is built from a given set of
    mine cells. */
module MinesweeperGame {

  /** A board position `(row, column)`. */
  type Cell = (int, int)

  /** `p` lies on a board of `h` rows and `w` columns. */
  predicate InBounds(h: int, w: int, p: Cell) {
    0 <= p.0 < h && 0 <= p.1 < w
  }

  /** `p` is on the board, within one row and one column of `c`, and is not
      `c` itself. */
  predicate Adjacent(h: int, w: int, c: Cell, p: Cell) {
    c.0 - 1 <= p.0 <= c.0 + 1 && c.1 - 1 <= p.1 <= c.1 + 1 && p != c && InBounds(h, w, p)
  }

  /** The cells adjacent to `c` on an `h`-by-`w` board. */
  function Around(h: int, w: int, c: Cell): (r: set<Cell>)
    ensures forall p :: p in r <==> Adjacent(h, w, c, p)
  {
    set a, b | c.0 - 1 <= a <= c.0 + 1 && c.1 - 1 <= b <= c.1 + 1 && (a, b) != c && 0 <= a < h && 0 <= b < w
      :: (a, b)
  }

  /** Every cell of `near` lies in the 3-by-3 window around `c`. */
  predicate InWindow(c: Cell, near: set<Cell>) {
    forall p :: p in near ==> c.0 - 1 <= p.0 <= c.0 + 1 && c.1 - 1 <= p.1 <= c.1 + 1
  }

  /** The cells of `near` that a row-major scan has passed before reaching
      `(i, j)`. */
  ghost function Scanned(near: set<Cell>, i: int, j: int): set<Cell> {
    set p | p in near && (p.0 < i || (p.0 == i && p.1 < j))
  }

  /** One step of the scan adds `(i, j)` exactly when it is in `near`. */
  lemma ScannedStep(near: set<Cell>, i: int, j: int)
    ensures |Scanned(near, i, j + 1)| == |Scanned(near, i, j)| + (if (i, j) in near then 1 else 0)
  {
    var next := Scanned(near, i, j + 1);
    var prev := Scanned(near, i, j);
    var add := if (i, j) in near then {(i, j)} else {};
    forall p | p in next
      ensures p in prev + add
    {
      if p != (i, j) {
        assert p.0 < i || (p.0 == i && p.1 < j);
      }
    }
    assert next == prev + add;
    assert (i, j) !in prev;
  }

  /** Within the window, finishing a row of the scan is starting the next
      one. */
  lemma ScannedRow(c: Cell, near: set<Cell>, i: int)
    requires InWindow(c, near)
    ensures Scanned(near, i, c.1 + 2) == Scanned(near, i + 1, c.1 - 1)
  {
  }

  /** Past the last row of the window the scan has seen all of `near`. */
  lemma ScannedAll(c: Cell, near: set<Cell>)
    requires InWindow(c, near)
    ensures Scanned(near, c.0 + 2, c.1 - 1) == near
  {
  }

  class Minesweeper {
    const height: nat
    const width: nat
    /** The cells holding a mine. */
    const mines: set<Cell>
    /** `board[i][j]` holds exactly when `(i, j)` is a mine. */
    const board: seq<seq<bool>>
    /** The cells the player has flagged. */
    var minesFound: set<Cell>

    /** The board agrees with the set of mines, and every mine is on the board. */
    ghost predicate Valid() {
      |board| == height
      && (forall i :: 0 <= i < height ==> |board[i]| == width)
      && (forall i, j :: 0 <= i < height && 0 <= j < width ==> (board[i][j] <==> (i, j) in mines))
      && (forall p :: p in mines ==> InBounds(height, width, p))
    }

    /** A board of `height` rows and `width` columns with a mine at every
        cell of `mines` and no mine flagged yet. */
    constructor (height: nat, width: nat, mines: set<Cell>)
      requires forall p :: p in mines ==> InBounds(height, width, p)
      ensures Valid()
      ensures this.height == height && this.width == width && this.mines == mines
      ensures minesFound == {}
    {
      this.height := height;
      this.width := width;
      this.mines := mines;
      board := seq(height, i => seq(width, j => (i, j) in mines));
      minesFound := {};
    }

    /** Inside the window around `cell`, the board test of `nearby_mines`
        holds exactly at the adjacent mines. */
    lemma Hit(cell: Cell, i: int, j: int)
      requires Valid()
      requires cell.0 - 1 <= i <= cell.0 + 1 && cell.1 - 1 <= j <= cell.1 + 1
      ensures ((i, j) != cell && 0 <= i < height && 0 <= j < width && board[i][j])
          <==> (i, j) in Around(height, width, cell) * mines
    {
    }

    /** The number of mines within one row and one column of `cell`, not
        counting `cell` itself; `cell` need not be on the board. */
    method NearbyMines(cell: Cell) returns (count: nat)
      requires Valid()
      ensures count == |Around(height, width, cell) * mines|
    {
      ghost var near := Around(height, width, cell) * mines;
      assert InWindow(cell, near);
      count := 0;
      var i := cell.0 - 1;
      while i < cell.0 + 2
        invariant cell.0 - 1 <= i <= cell.0 + 2
        invariant count == |Scanned(near, i, cell.1 - 1)|
      {
        count := ScanRow(cell, i, count, near);
        ScannedRow(cell, near, i);
        i := i + 1;
      }
      ScannedAll(cell, near);
    }

    /** The inner loop of `nearby_mines`: scans row `i` of the window around
        `cell`, adding its adjacent mines to `count`. */
    method ScanRow(cell: Cell, i: int, count0: nat, ghost near: set<Cell>) returns (count: nat)
      requires Valid() && cell.0 - 1 <= i <= cell.0 + 1
      requires near == Around(height, width, cell) * mines
      requires count0 == |Scanned(near, i, cell.1 - 1)|
      ensures count == |Scanned(near, i, cell.1 + 2)|
    {
      count := count0;
      var j := cell.1 - 1;
      while j < cell.1 + 2
        invariant cell.1 - 1 <= j <= cell.1 + 2
        invariant count == |Scanned(near, i, j)|
      {
        ScannedStep(near, i, j);
        Hit(cell, i, j);
        if (i, j) != cell && 0 <= i < height && 0 <= j < width && board[i][j] {
          count := count + 1;
        }
        j := j + 1;
      }
    }

    /** Every mine, and nothing else, has been flagged. */
    predicate Won()
      reads this
      ensures Won() ==> |minesFound| == |mines|
      ensures Valid() && Won() ==> forall p :: p in minesFound ==> InBounds(height, width, p) && board[p.0][p.1]
    {
      minesFound == mines
    }
  }
}
