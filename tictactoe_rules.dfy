/** The rules of tic-tac-toe on a 3x3 board: whose turn it is, the legal moves,
    applying a move, the winner, the end of the game and its utility.
    The source's `EMPTY` is Python's `None`, so `Empty` also stands for
    "no player" (from `player`) and "no winner" (from `winner`). */
module TicTacToeRules {

  datatype Cell = Empty | X | O

  /** A board is a list of three rows of three cells. */
  type Board = b: seq<seq<Cell>> | |b| == 3 && |b[0]| == 3 && |b[1]| == 3 && |b[2]| == 3
    witness [[Empty, Empty, Empty], [Empty, Empty, Empty], [Empty, Empty, Empty]]

  /** An action `(i, j)`: row `i`, column `j`. */
  type Pos = (int, int)

  predicate InRange(p: Pos) {
    0 <= p.0 < 3 && 0 <= p.1 < 3
  }

  /** The cell at an in-range position. */
  function At(b: Board, p: Pos): Cell
    requires InRange(p)
  {
    b[p.0][p.1]
  }

  // ---------------------------------------------------------------------------
  // Winning lines, as an independent reference for `Winner`
  // ---------------------------------------------------------------------------

  /** The eight lines: three rows, three columns, two diagonals. */
  const Lines: seq<(Pos, Pos, Pos)> := [
    ((0, 0), (0, 1), (0, 2)), ((1, 0), (1, 1), (1, 2)), ((2, 0), (2, 1), (2, 2)),
    ((0, 0), (1, 0), (2, 0)), ((0, 1), (1, 1), (2, 1)), ((0, 2), (1, 2), (2, 2)),
    ((0, 0), (1, 1), (2, 2)), ((0, 2), (1, 1), (2, 0))
  ]

  /** Line `k` is filled with mark `m`. */
  predicate Filled(b: Board, k: int, m: Cell)
    requires 0 <= k < |Lines|
  {
    var l := Lines[k];
    InRange(l.0) && InRange(l.1) && InRange(l.2) &&
    At(b, l.0) == m && At(b, l.1) == m && At(b, l.2) == m
  }

  /** Mark `m` (a player, not `Empty`) fills some line. */
  predicate Wins(b: Board, m: Cell) {
    m != Empty && exists k :: 0 <= k < |Lines| && Filled(b, k, m)
  }

  /** No empty cell is left. */
  predicate Full(b: Board) {
    forall i, j :: 0 <= i < 3 && 0 <= j < 3 ==> b[i][j] != Empty
  }

  // ---------------------------------------------------------------------------
  // initial_state
  // ---------------------------------------------------------------------------

  function InitialState(): (b: Board)
    ensures forall i, j :: 0 <= i < 3 && 0 <= j < 3 ==> b[i][j] == Empty
  {
    [[Empty, Empty, Empty], [Empty, Empty, Empty], [Empty, Empty, Empty]]
  }

  // ---------------------------------------------------------------------------
  // actions
  // ---------------------------------------------------------------------------

  /** Python's tuple order on actions. */
  predicate Before(p: Pos, q: Pos) {
    p.0 < q.0 || (p.0 == q.0 && p.1 < q.1)
  }

  /** The empty cells at `(i, j)` or after it in row-major order, listed in
      the order of the nested `for i` / `for j` loops. */
  function EmptiesFrom(b: Board, i: nat, j: nat): (r: seq<Pos>)
    requires i <= 3 && j <= 3
    ensures forall n :: 0 <= n < |r| ==> InRange(r[n]) && At(b, r[n]) == Empty && (r[n].0 > i || (r[n].0 == i && r[n].1 >= j))
    ensures forall x, y :: 0 <= x < 3 && 0 <= y < 3 && b[x][y] == Empty && (x > i || (x == i && y >= j)) ==> (x, y) in r
    decreases 3 - i, 3 - j
  {
    if i == 3 then []
    else if j == 3 then EmptiesFrom(b, i + 1, 0)
    else if b[i][j] == Empty then [(i, j)] + EmptiesFrom(b, i, j + 1)
    else EmptiesFrom(b, i, j + 1)
  }

  /** The actions in the order the source visits them. */
  function ActionList(b: Board): (r: seq<Pos>)
    ensures forall n :: 0 <= n < |r| ==> InRange(r[n]) && At(b, r[n]) == Empty
    ensures forall x, y :: 0 <= x < 3 && 0 <= y < 3 && b[x][y] == Empty ==> (x, y) in r
  {
    EmptiesFrom(b, 0, 0)
  }

  /** `actions(board)`: the set of `(i, j)` whose cell is empty. */
  function Actions(b: Board): (r: set<Pos>)
    ensures forall p :: p in r <==> InRange(p) && At(b, p) == Empty
  {
    var l := ActionList(b);
    assert forall p :: InRange(p) && At(b, p) == Empty ==> p in l;
    set p | p in l
  }

  // ---------------------------------------------------------------------------
  // winner, terminal, utility
  // ---------------------------------------------------------------------------

  /** Three cells hold the same mark, and it is not `Empty`. */
  predicate Same(c0: Cell, c1: Cell, c2: Cell) {
    c0 != Empty && c0 == c1 && c1 == c2
  }

  /** `Wins` spelled out line by line. */
  lemma WinsCases(b: Board, m: Cell)
    ensures Wins(b, m) <==> (m != Empty && (
      (b[0][0] == m && b[0][1] == m && b[0][2] == m) ||
      (b[1][0] == m && b[1][1] == m && b[1][2] == m) ||
      (b[2][0] == m && b[2][1] == m && b[2][2] == m) ||
      (b[0][0] == m && b[1][0] == m && b[2][0] == m) ||
      (b[0][1] == m && b[1][1] == m && b[2][1] == m) ||
      (b[0][2] == m && b[1][2] == m && b[2][2] == m) ||
      (b[0][0] == m && b[1][1] == m && b[2][2] == m) ||
      (b[0][2] == m && b[1][1] == m && b[2][0] == m)))
  {
    if m != Empty {
      if b[0][0] == m && b[0][1] == m && b[0][2] == m { assert Filled(b, 0, m); }
      if b[1][0] == m && b[1][1] == m && b[1][2] == m { assert Filled(b, 1, m); }
      if b[2][0] == m && b[2][1] == m && b[2][2] == m { assert Filled(b, 2, m); }
      if b[0][0] == m && b[1][0] == m && b[2][0] == m { assert Filled(b, 3, m); }
      if b[0][1] == m && b[1][1] == m && b[2][1] == m { assert Filled(b, 4, m); }
      if b[0][2] == m && b[1][2] == m && b[2][2] == m { assert Filled(b, 5, m); }
      if b[0][0] == m && b[1][1] == m && b[2][2] == m { assert Filled(b, 6, m); }
      if b[0][2] == m && b[1][1] == m && b[2][0] == m { assert Filled(b, 7, m); }
    }
  }

  /** `winner(board)`: rows first, then columns, then the two diagonals, each
      reporting the mark that fills the line; `Empty` (None) when no line is filled. */
  function Winner(b: Board): Cell {
    if Same(b[0][0], b[0][1], b[0][2]) then b[0][0]
    else if Same(b[1][0], b[1][1], b[1][2]) then b[1][0]
    else if Same(b[2][0], b[2][1], b[2][2]) then b[2][0]
    else if Same(b[0][0], b[1][0], b[2][0]) then b[0][0]
    else if Same(b[0][1], b[1][1], b[2][1]) then b[0][1]
    else if Same(b[0][2], b[1][2], b[2][2]) then b[0][2]
    else if Same(b[0][0], b[1][1], b[2][2]) || Same(b[0][2], b[1][1], b[2][0]) then b[1][1]
    else Empty
  }

  /** `winner` reports a mark exactly when some line is filled, and then a
      mark that fills a line. */
  lemma WinnerSpec(b: Board)
    ensures Winner(b) != Empty ==> Wins(b, Winner(b))
    ensures Winner(b) == Empty <==> !Wins(b, X) && !Wins(b, O)
  {
    WinsCases(b, X);
    WinsCases(b, O);
  }

  /** `terminal(board)`: someone has won, or no action is left. */
  predicate Terminal(b: Board) {
    Winner(b) != Empty || Actions(b) == {}
  }

  /** `utility(board)`: 1 if X won, -1 if O won, 0 otherwise. */
  function Utility(b: Board): (r: int)
    ensures -1 <= r <= 1
  {
    if Winner(b) == X then 1
    else if Winner(b) == O then -1
    else 0
  }

  // ---------------------------------------------------------------------------
  // player
  // ---------------------------------------------------------------------------

  /** Number of cells of `row` holding `m`. */
  function CountRow(row: seq<Cell>, m: Cell): (n: nat)
    ensures n == multiset(row)[m] && n <= |row|
  {
    if row == [] then 0
    else
      assert row == [row[0]] + row[1..];
      (if row[0] == m then 1 else 0) + CountRow(row[1..], m)
  }

  /** Number of cells of the board holding `m` (the counters of `player`). */
  function Count(b: Board, m: Cell): (n: nat)
    ensures n == multiset(b[0] + b[1] + b[2])[m] && n <= 9
  {
    CountRow(b[0], m) + CountRow(b[1], m) + CountRow(b[2], m)
  }

  /** `player(board)`: `Empty` (None) on a terminal board; O when X has made
      more moves than O; X otherwise. */
  function Player(b: Board): Cell {
    if Terminal(b) then Empty
    else if Count(b, X) > Count(b, O) then O
    else X
  }

  /** The game is over exactly when a player fills a line or the board is full. */
  lemma TerminalSpec(b: Board)
    ensures Terminal(b) <==> Wins(b, X) || Wins(b, O) || Full(b)
  {
    WinnerSpec(b);
    if !Full(b) {
      var i, j :| 0 <= i < 3 && 0 <= j < 3 && b[i][j] == Empty;
      assert (i, j) in Actions(b);
    }
  }

  /** `player` names nobody exactly when the game is over; otherwise the
      player it names has an empty cell to mark. */
  lemma PlayerSpec(b: Board)
    ensures Player(b) == Empty <==> Wins(b, X) || Wins(b, O) || Full(b)
    ensures Player(b) != Empty ==> exists p :: p in Actions(b)
  {
    TerminalSpec(b);
  }

  /** `utility` is 1 only for a win of X, -1 only for a win of O, and 0
      exactly when neither player fills a line. */
  lemma UtilitySpec(b: Board)
    ensures Utility(b) == 1 ==> Wins(b, X)
    ensures Utility(b) == -1 ==> Wins(b, O)
    ensures Utility(b) == 0 <==> !Wins(b, X) && !Wins(b, O)
  {
    WinnerSpec(b);
  }

  // ---------------------------------------------------------------------------
  // result
  // ---------------------------------------------------------------------------

  /** The three ways `result` fails: Python's own IndexError for an index
      outside -3..2, and the two exceptions it raises for an occupied cell. */
  datatype MoveError = IndexError | OutOfRange | NotValidMove

  datatype Move = Moved(board: Board) | Failed(error: MoveError)

  /** Python's reading of a list index in -3..2 (negative indices count from the end). */
  function Wrap(k: int): int
    requires -3 <= k < 3
  {
    if k < 0 then k + 3 else k
  }

  /** The board with the cell at `p` replaced by `m`. */
  function Place(b: Board, p: Pos, m: Cell): (r: Board)
    requires InRange(p)
    ensures At(r, p) == m
    ensures forall i, j :: 0 <= i < 3 && 0 <= j < 3 && (i, j) != p ==> r[i][j] == b[i][j]
  {
    b[p.0 := b[p.0][p.1 := m]]
  }

  /** Marking an empty cell removes it, and only it, from the actions. */
  lemma PlaceActions(b: Board, p: Pos, m: Cell)
    requires InRange(p) && At(b, p) == Empty && m != Empty
    ensures Actions(Place(b, p, m)) == Actions(b) - {p}
  {
    var r := Place(b, p, m);
    forall q | InRange(q) ensures At(r, q) == Empty <==> q in Actions(b) - {p} {
      if q != p { assert r[q.0][q.1] == b[q.0][q.1]; }
    }
  }

  /** `result(board, action)`: a copy of the board with the action's cell set to
      `player(board)`; an exception when the cell is taken ("Out of range" when
      `action[0] or action[1] < 0` holds, "Not a valid move" otherwise). */
  function Result(b: Board, a: Pos): (r: Move)
    ensures !(-3 <= a.0 < 3 && -3 <= a.1 < 3) <==> r == Failed(IndexError)
    ensures InRange(a) && At(b, a) != Empty ==> r == Failed(if a.0 != 0 then OutOfRange else NotValidMove)
  {
    if !(-3 <= a.0 < 3 && -3 <= a.1 < 3) then Failed(IndexError)
    else
      var p := (Wrap(a.0), Wrap(a.1));
      assert InRange(a) ==> p == a;
      if At(b, p) == Empty then Moved(Place(b, p, Player(b)))
      else if a.0 != 0 || a.1 < 0 then Failed(OutOfRange)
      else Failed(NotValidMove)
  }

  /** `result` succeeds exactly on the actions, and then changes only the
      chosen cell, which it sets to the player to move. */
  lemma ResultOnAction(b: Board, a: Pos)
    requires InRange(a)
    ensures Result(b, a).Moved? <==> a in Actions(b)
    ensures var r := Result(b, a); r.Moved? ==>
      At(r.board, a) == Player(b) &&
      forall i, j :: 0 <= i < 3 && 0 <= j < 3 && (i, j) != a ==> r.board[i][j] == b[i][j]
  {
    assert (Wrap(a.0), Wrap(a.1)) == a;
    if At(b, a) == Empty {
      var m := Player(b);
      assert Result(b, a) == Moved(Place(b, a, m));
    }
  }

  /** The board after a legal action on a board still in play: one empty
      cell fewer, so play always ends. */
  function Next(b: Board, a: Pos): (r: Board)
    requires !Terminal(b) && a in Actions(b)
    ensures Count(r, Empty) == Count(b, Empty) - 1
  {
    CountPlace(b, a, Player(b), Empty);
    Place(b, a, Player(b))
  }

  /** `Next` is the board that `result` returns for an action. */
  lemma ResultIsNext(b: Board, a: Pos)
    requires !Terminal(b) && a in Actions(b)
    ensures Result(b, a) == Moved(Next(b, a))
  {
    assert (Wrap(a.0), Wrap(a.1)) == a;
  }

  // ---------------------------------------------------------------------------
  // Lemmas
  // ---------------------------------------------------------------------------

  /** X moves first on the empty board, and every cell is playable. */
  lemma InitialStateFacts()
    ensures forall p :: p in Actions(InitialState()) <==> InRange(p)
    ensures !Terminal(InitialState())
    ensures Player(InitialState()) == X
  {
    var b := InitialState();
    assert (0, 0) in Actions(b);
    WinsCases(b, X);
    WinsCases(b, O);
  }

  /** Counting a mark after one cell of a row changes. */
  lemma {:induction false} CountRowUpdate(row: seq<Cell>, c: nat, v: Cell, m: Cell)
    requires c < |row|
    ensures CountRow(row[c := v], m) ==
      CountRow(row, m) - (if row[c] == m then 1 else 0) + (if v == m then 1 else 0)
  {
    if c > 0 {
      assert row[c := v][1..] == row[1..][c - 1 := v];
      CountRowUpdate(row[1..], c - 1, v, m);
    } else {
      assert row[c := v][1..] == row[1..];
    }
  }

  /** Placing `v` on an empty cell adds one `v` and one fewer `Empty`, and
      leaves the count of the other mark alone. */
  lemma CountPlace(b: Board, p: Pos, v: Cell, m: Cell)
    requires InRange(p) && At(b, p) == Empty && v != Empty
    ensures Count(Place(b, p, v), m) ==
      Count(b, m) - (if m == Empty then 1 else 0) + (if v == m then 1 else 0)
  {
    CountRowUpdate(b[p.0], p.1, v, m);
  }

  /** Boards reachable by play have as many Xs as Os, or one X more. */
  predicate LegalCounts(b: Board) {
    Count(b, X) == Count(b, O) || Count(b, X) == Count(b, O) + 1
  }

  /** `result` keeps the counts legal: the players alternate. */
  lemma MovePreservesLegalCounts(b: Board, a: Pos)
    requires LegalCounts(b) && !Terminal(b) && a in Actions(b)
    ensures LegalCounts(Next(b, a))
    ensures Count(Next(b, a), X) + Count(Next(b, a), O) == Count(b, X) + Count(b, O) + 1
  {
    var p := Player(b);
    assert Next(b, a) == Place(b, a, p);
    CountPlace(b, a, p, X);
    CountPlace(b, a, p, O);
  }

  /** On a board reached by play, the player to move is X exactly when both
      have moved equally often, and after a move that does not end the game
      the other player is to move. */
  lemma PlayerAlternates(b: Board, a: Pos)
    requires LegalCounts(b) && !Terminal(b) && a in Actions(b)
    ensures Player(b) == X <==> Count(b, X) == Count(b, O)
    ensures Player(b) == O <==> Count(b, X) == Count(b, O) + 1
    ensures !Terminal(Next(b, a)) ==> Player(Next(b, a)) != Empty && Player(Next(b, a)) != Player(b)
  {
    var p := Player(b);
    var n := Next(b, a);
    var x, o := Count(b, X), Count(b, O);
    assert n == Place(b, a, p);
    CountPlace(b, a, p, X);
    CountPlace(b, a, p, O);
    if p == X {
      assert Count(n, X) == x + 1 && Count(n, O) == o;
    } else {
      assert Count(n, X) == x && Count(n, O) == o + 1;
    }
  }
}
