# CS50 AI projects: crossword solver, tic-tac-toe and minesweeper, modelled in Dafny

This project models three programs of a collection of CS50 "Introduction to AI
with Python" exercises and proves what they promise.

- **Crossword generator** (`Crossword/generate.py`, class `CrosswordCreator`).
  It solves a crossword as a constraint-satisfaction problem. Slots are the
  variables, and each slot keeps a set of candidate words (its domain) in
  `self.domains`, which the methods update in place:
  - node consistency drops words of the wrong length;
  - `revise` and `ac3` prune words that no word of a crossing slot agrees with;
  - `select_unassigned_variable` picks a slot by fewest remaining words, and
    then by most neighbours;
  - `order_domain_values` orders words by how many candidates of the open
    neighbours each rules out;
  - `backtrack` fills slots greedily (no undo) and re-runs `ac3` after each word.
    The model keeps this search as written, proves what it does promise, and
    exhibits a crossword on which it returns None although a solution exists.
    `solve` is modelled with the complete backtracking search its docstring
    describes, proved to return None only when no solution exists.

  The class is a Dafny `class` with the `domains` field, and the loops are
  methods proved against specification functions. These live in the modules
  `CrosswordGeometry` (slots, overlaps, neighbours) and `CrosswordCsp` (node and
  arc consistency, completeness, consistency, the counts that rank words).
  `ac3` terminates because every revise either shrinks the total domain size or
  drops an arc from the worklist.
- **Tic-tac-toe** (`Tic-Tac-Toe/tictactoe.py`). These are pure functions over a
  3x3 board: the player to move, legal actions, the result of a move, the
  winner, the terminal test, the utility, and minimax with `max_value` and
  `min_value`. The model consists of datatypes, functions and lemmas. The
  winner is compared with an independent list of the eight lines. Minimax is
  proved to pick an optimal action, with the source's tie-breaking by Python's
  `sorted`.
- **Minesweeper** (`Minesweeper/minesweeper.py`). The board (class
  `Minesweeper`) counts the mines around a cell. A sentence (class `Sentence`)
  says "`count` of these `cells` are mines". The player (class `MinesweeperAI`)
  keeps the moves made, the known mines and safe cells, and a list of
  sentences. It absorbs each clue by:
  - striking out known cells;
  - resolving sentences whose cells are all mines;
  - applying the subset rule to every pair of sentences;
  - dropping empty sentences.

  All of these are methods on classes with `modifies` frames. Beyond the
  bookkeeping properties, each update is proved sound. If everything the
  player believes is true of the actual mine placement, and the clue is the
  true count, then afterwards everything it believes is still true
  (`MinesweeperAI.Sound`).

## Model

| member | source | states |
|---|---|---|
| Generate.CrosswordCreator.constructor | Crossword/generate.py:10-18 | every slot, and nothing else, starts with the whole vocabulary as its domain |
| Generate.CrosswordCreator.LetterGrid | Crossword/generate.py:20-34 | a fresh height-by-width grid; a cell is empty exactly when no assigned word crosses it, and otherwise holds a letter some assigned word puts there |
| Generate.WriteWord | Crossword/generate.py:28-33 | writing one word sets letter `k` at the `k`-th cell of its slot and leaves every cell the slot does not cross unchanged |
| Generate.CrosswordCreator.Solve | Crossword/generate.py:90-96 | the domains end fitted, only shrink and keep every solution they admitted; a returned assignment is complete, consistent and takes every word from the original domains; None only when no complete, consistent assignment of words from the original domains exists |
| Generate.CrosswordCreator.EnforceNodeConsistency | Crossword/generate.py:98-109 | the new domains are `NodeConsistent` of the old ones: every word has its slot's length, only wrong-length words are removed |
| Generate.CrosswordCreator.FitDomain | Crossword/generate.py:106-109 | one slot's domain loses exactly its words of the wrong length; the other domains are unchanged |
| CrosswordCsp.NodeConsistent | Crossword/generate.py:98-109 | same slots, domains fitted, each a subset of the old one, and every word of the right length kept |
| CrosswordCsp.NodeConsistentIdempotent | Crossword/generate.py:98-109 | on fitted domains node consistency changes nothing, so a second call has no effect |
| CrosswordCsp.FittedShrink | Crossword/generate.py:146-149 | removing words from one domain keeps every domain fitted and the slots unchanged |
| Generate.CrosswordCreator.Revise | Crossword/generate.py:113-152 | a non-neighbour `y` gives False and no change; otherwise only `x`'s domain changes, to `Revised`, and the result is True exactly when that domain shrank |
| CrosswordCsp.Revised | Crossword/generate.py:126-150 | the revised domain of `x` is part of the old one, and `(x, y)` is an overlap |
| CrosswordCsp.RevisedMembers | Crossword/generate.py:134-150 | a word of `x` survives exactly when `y`'s domain is empty or some word of `y` agrees with it at the overlap |
| Generate.Compare | Crossword/generate.py:134-139 | `delete` holds the words of `x` that some word of `y` disagrees with, and `save` those that some word of `y` agrees with |
| Generate.CompareWith | Crossword/generate.py:135-139 | for one word of `y`: the words of `x` that disagree with it go to `delete`, the rest to `save` |
| CrosswordCsp.RevisedByComparison | Crossword/generate.py:141-150 | removing `delete` minus `save` from `x`'s domain gives exactly `Revised` |
| CrosswordCsp.RevisedConsistent | Crossword/generate.py:113-152 | after a revise the arc `(x, y)` is arc consistent, and a revise removes nothing exactly when the arc already was arc consistent |
| CrosswordCsp.ConsistentArcStays | Crossword/generate.py:113-152 | revising an arc that already is arc consistent changes no domain |
| CrosswordCsp.ShrinkPreservesArc | Crossword/generate.py:146-149 | shrinking `x`'s domain keeps every consistent arc whose target is not `x` |
| CrosswordCsp.RevisePreservesReverse | Crossword/generate.py:146-149 | revising `x` against `y` keeps the reverse arc `(y, x)` consistent |
| CrosswordCsp.ReviseStep | Crossword/generate.py:185-195 | after revising `(x, y)` an arc stays consistent unless it points into `x` from a neighbour other than `y`, which is queued again |
| CrosswordCsp.ShrinkingStep | Crossword/generate.py:186-194 | after a shrinking revise every seeded arc is queued or consistent, and the total domain size drops |
| CrosswordCsp.SizeDecreases | Crossword/generate.py:146-149 | strictly shrinking one slot's domain strictly lowers the sum of domain sizes |
| CrosswordCsp.SizeUnchanged | Crossword/generate.py:146-149 | changing the domain of a slot outside a list of slots leaves the list's total domain size unchanged |
| Generate.CrosswordCreator.AC3 | Crossword/generate.py:154-197 | domains only shrink, stay fitted and keep every solution they admitted; False exactly reports a domain that was non-empty and became empty; True keeps every non-empty domain non-empty and makes every seeded arc arc consistent; domains on which every seeded arc already is arc consistent come back unchanged with True |
| Generate.CrosswordCreator.Propagate | Crossword/generate.py:185-197 | the worklist loop of `ac3` from a queue of seeded arcs: domains only shrink, stay fitted and keep every solution; False exactly reports a domain that became empty; True keeps non-empty domains non-empty and makes every seeded arc arc consistent; when every seeded arc already was consistent it changes nothing and returns True |
| Generate.CrosswordCreator.ProcessArc | Crossword/generate.py:186-195 | one worklist step: the domains become those after revising the arc; it reports an emptied domain exactly when the revise emptied a non-empty one; otherwise the queue loses the arc and gains the arcs into `x` from its other neighbours after a shrinking revise, every seeded arc stays queued or consistent, and the domains shrink or the queue gets shorter; an arc that already is arc consistent changes nothing and the new queue holds only arcs of the old one |
| Generate.CrosswordCreator.ReviseArc | Crossword/generate.py:187 | the domains become those after revising `(x, y)`; it reports a revise exactly when they changed, and then `x`'s domain strictly shrank; every solution is kept |
| Generate.CrosswordCreator.Requeue | Crossword/generate.py:191-195 | the queue without the arc at position `k`, followed, after a shrinking revise, by each arc into `x` from its neighbours other than `y`, once |
| CrosswordCsp.AfterRevise | Crossword/generate.py:126-150 | the domains after `revise(x, y)`: only the domain of `x` changes, and only shrinks |
| CrosswordCsp.RequeuedUnrevised | Crossword/generate.py:191-195 | after a revise that removed nothing the new queue holds only arcs of the old one |
| CrosswordCsp.WorklistStep | Crossword/generate.py:185-195 | over all inputs: after one arc, every seeded arc is still queued or consistent, and either the total domain size drops or the domains stay and the queue gets shorter |
| CrosswordCsp.WorklistShrinks | Crossword/generate.py:187-194 | after a shrinking revise every seeded arc is in the new queue or consistent, and the total domain size drops |
| CrosswordCsp.WorklistKeeps | Crossword/generate.py:187-195 | after a revise that changed nothing every seeded arc is in the new queue or consistent, and the queue is one shorter |
| CrosswordCsp.RequeuedParts | Crossword/generate.py:191-195 | the new queue is the old one without the arc plus arcs into `x` from its neighbours |
| CrosswordCsp.RevisedKeeps | Crossword/generate.py:134-150 | a revise never removes a word of a solution: the solution's word for `y` supports it |
| CrosswordCsp.ReviseKeepsSolutions | Crossword/generate.py:113-152 | revising keeps every solution the starting domains admitted |
| CrosswordCsp.KeepsTransitive | Crossword/generate.py:94-96 | keeping solutions composes over successive updates of the domains |
| CrosswordCsp.NodeConsistentKeeps | Crossword/generate.py:98-109 | node consistency never removes a word of a solution |
| Generate.CrosswordCreator.Inbound | Crossword/generate.py:191-194 | contains `(z, x)` for every neighbour `z` of `x` other than `y`, and only such arcs, each once |
| Generate.CrosswordCreator.AllArcs | Crossword/generate.py:167-183 | the starting queue of `ac3(None)` is exactly the ordered pairs of distinct slots |
| Generate.CrosswordCreator.AssignmentComplete | Crossword/generate.py:200-209 | True exactly when every slot has a word |
| Generate.CrosswordCreator.Consistent | Crossword/generate.py:211-228 | True exactly when every assigned word has its slot's length and agrees with every assigned neighbour at their overlap |
| Generate.CrosswordCreator.SlotFits | Crossword/generate.py:216-226 | one slot's word agrees with its assigned neighbours and has the slot's length, exactly when the loop body finds no conflict |
| CrosswordCsp.ConsistentOverlaps | Crossword/generate.py:211-228 | consistency is the same as "lengths fit, and the two words agree at every overlap between two assigned slots" |
| CrosswordCsp.ConsistentRestrict | Crossword/generate.py:211-228 | dropping slots from a consistent assignment keeps it consistent |
| Generate.CrosswordCreator.SelectUnassignedVariable | Crossword/generate.py:274-333 | an unassigned slot with the fewest remaining words, and among those the most neighbours |
| Generate.CrosswordCreator.Fewest | Crossword/generate.py:282-302 | the unassigned slots whose domain size is the minimum over all unassigned slots |
| Generate.CrosswordCreator.Busiest | Crossword/generate.py:312-326 | the tied slots whose number of neighbours is the maximum among them |
| Generate.Smallest | Crossword/generate.py:297-298 | the least element of a non-empty set of counts |
| Generate.CrosswordCreator.OrderDomainValues | Crossword/generate.py:231-271 | words of the domain; with no open neighbour, all of them once each; otherwise strictly ascending in ruled-out count, one word for every count that occurs |
| CrosswordGeometry.Crossword.OpenNeighbors | Crossword/generate.py:243-247 | the neighbours of the slot that have no word yet, and only those |
| Generate.CrosswordCreator.Tally | Crossword/generate.py:252-258 | every word of the domain is mapped to the number of candidates of the open neighbours it rules out |
| Generate.AddConflicts | Crossword/generate.py:255-258 | each word's tally grows by the number of words of one neighbour it conflicts with |
| Generate.CountConflicts | Crossword/generate.py:256-258 | the number of words of a neighbour's domain that disagree with a word at the overlap |
| CrosswordCsp.RuledOutStep | Crossword/generate.py:252-258 | counting one more neighbour adds exactly that neighbour's conflicting words |
| CrosswordCsp.TallyStep | Crossword/generate.py:252-258 | a tally over the first `i` open neighbours, bumped by the conflicts with neighbour `i`, is the tally over the first `i + 1` |
| Generate.ByCount | Crossword/generate.py:261-263 | each count maps to a word with that count, and every count that occurs is a key |
| Generate.Ascending | Crossword/generate.py:265-269 | the words of `sort` in strictly increasing order of count, each one present |
| Generate.Enumerate | Crossword/generate.py:249-250 | the words of a set, each exactly once |
| Generate.CrosswordCreator.Backtrack | Crossword/generate.py:336-361 | as written (greedy, no undo): a returned assignment is complete and consistent, keeps the given words and takes every other word from the slot's domain; None only when some domain is empty or the search reached a complete, inconsistent assignment drawn from the domains; the domains only shrink and keep every solution |
| Generate.CrosswordCreator.Choose | Crossword/generate.py:347-354 | an unassigned slot with the fewest remaining words and, among those, the most neighbours; stuck exactly when its domain is empty, otherwise a word from that domain |
| Generate.CrosswordCreator.Verdict | Crossword/generate.py:357-361 | the assignment is returned exactly when it is complete and consistent |
| Generate.CrosswordCreator.Search | Crossword/generate.py:336-361 | complete backtracking, as the docstring describes: a returned assignment is complete and consistent and extends the given one with words from the domains; None only when no such assignment exists |
| Generate.CrosswordCreator.TryWords | Crossword/generate.py:349-354 | trying the words of one slot in turn: the first solution found, or None when no solution gives the slot any of those words |
| Generate.CrosswordCreator.TryWord | Crossword/generate.py:354-355 | one word for one slot: a solution extending the assignment with it, or None when there is none |
| CrosswordCsp.InconsistentUnsolvable | Crossword/generate.py:357-361 | an inconsistent assignment has no complete, consistent extension |
| CrosswordCsp.WordSet | Crossword/generate.py:349-350 | the words of a list, as a set |
| CrosswordCsp.RefutedMore | Crossword/generate.py:349-354 | a word from which no solution exists joins the words refuted for the slot |
| CrosswordCsp.RefutedAll | Crossword/generate.py:349-354 | when every word of an unassigned slot's domain is refuted, no solution extends the assignment |
| CrosswordCsp.ExtendsWeaken | Crossword/generate.py:354 | a solution extending the assignment with one more word extends the assignment itself |
| CrosswordCsp.CornerWellFormed | Crossword/generate.py:336-361 | the two-slot corner crossword is well formed and its domains cover its slots |
| CrosswordCsp.CornerFitted | Crossword/generate.py:98-109 | node consistency leaves the corner's domains unchanged |
| CrosswordCsp.CornerArcs | Crossword/generate.py:154-197 | both arcs of the corner are already arc consistent, so by the contract of `AC3` a run of `ac3` on those domains returns True and removes nothing |
| CrosswordCsp.CornerOffersAll | Crossword/generate.py:243-250 | once the across slot has a word the down slot has no open neighbour, so `order_domain_values` offers its whole domain |
| CrosswordCsp.GreedyMisses | Crossword/generate.py:346-361 | the greedy search can reach the complete, inconsistent assignment "AB"/"BA" and return None, although "AB"/"AB" is a solution from the same domains |
| CrosswordCsp.Extend | Crossword/generate.py:354 | giving an unassigned slot a fitted word keeps the overlaps indexable and leaves one slot fewer unassigned |
| CrosswordCsp.ExtendsStep | Crossword/generate.py:354 | the assignment still keeps the starting words and draws every other word from the domains |
| CrosswordCsp.CoversIndexable | Crossword/generate.py:221-223 | when every assigned word reaches its overlaps, every overlap index between assigned slots is in range |
| CrosswordGeometry.Crossword.Neighbors | Crossword/generate.py:124 | only slots of the crossword other than the slot itself that overlap it |
| CrosswordGeometry.NeighborsSymmetric | Crossword/generate.py:191-194 | overlapping is symmetric: `y` neighbours `x` exactly when `x` neighbours `y` |
| TicTacToeRules.InitialState | Tic-Tac-Toe/tictactoe.py:13-19 | every cell of the starting board is empty |
| TicTacToeRules.InitialStateFacts | Tic-Tac-Toe/tictactoe.py:13-42 | on the starting board every cell is an action, the game is not over, and X moves |
| TicTacToeRules.EmptiesFrom | Tic-Tac-Toe/tictactoe.py:54-57 | lists exactly the empty cells from a position onwards in row-major order |
| TicTacToeRules.ActionList | Tic-Tac-Toe/tictactoe.py:52-58 | lists exactly the empty cells |
| TicTacToeRules.Actions | Tic-Tac-Toe/tictactoe.py:49-58 | an action is in the set exactly when it is on the board and its cell is empty |
| TicTacToeRules.WinsCases | Tic-Tac-Toe/tictactoe.py:85-106 | a mark wins exactly when it fills one of the three rows, three columns or two diagonals |
| TicTacToeRules.WinnerSpec | Tic-Tac-Toe/tictactoe.py:85-106 | `winner` reports a mark only when that mark fills a line, and None exactly when neither player does |
| TicTacToeRules.TerminalSpec | Tic-Tac-Toe/tictactoe.py:114-121 | the game is over exactly when a player fills a line or the board is full |
| TicTacToeRules.Utility | Tic-Tac-Toe/tictactoe.py:129-136 | the utility is -1, 0 or 1 |
| TicTacToeRules.UtilitySpec | Tic-Tac-Toe/tictactoe.py:129-136 | 1 only when X wins, -1 only when O wins, 0 exactly when nobody does |
| TicTacToeRules.CountRow | Tic-Tac-Toe/tictactoe.py:29-38 | the count of a mark in a row is its multiplicity in the row, at most the row's length |
| TicTacToeRules.Count | Tic-Tac-Toe/tictactoe.py:29-38 | the number of cells holding a mark is its multiplicity among the nine cells, at most 9 |
| TicTacToeRules.PlayerSpec | Tic-Tac-Toe/tictactoe.py:22-42 | `player` names nobody exactly when a player fills a line or the board is full; otherwise an empty cell is left to mark |
| TicTacToeRules.PlayerAlternates | Tic-Tac-Toe/tictactoe.py:22-42 | on a board reached by play, X moves exactly when the counts are equal and O exactly when X has one more; after a move the other player moves |
| TicTacToeRules.MovePreservesLegalCounts | Tic-Tac-Toe/tictactoe.py:67-76 | a move keeps the X count equal to the O count or one more, and adds exactly one mark |
| TicTacToeRules.CountRowUpdate | Tic-Tac-Toe/tictactoe.py:69-71 | replacing one cell of a row changes the count of a mark by the cell's old and new contents |
| TicTacToeRules.CountPlace | Tic-Tac-Toe/tictactoe.py:69-71 | marking an empty cell adds one of the mark and removes one empty cell |
| TicTacToeRules.Place | Tic-Tac-Toe/tictactoe.py:69-71 | the copied board has the mark at the chosen cell and every other cell unchanged |
| TicTacToeRules.PlaceActions | Tic-Tac-Toe/tictactoe.py:69-71 | marking an empty cell removes it, and only it, from the actions |
| TicTacToeRules.Result | Tic-Tac-Toe/tictactoe.py:67-76 | an index outside -3..2 fails with IndexError; a taken cell of the board fails with "Out of range" outside row 0 (where `action[0] or action[1] < 0` holds) and with "Not a valid move" in row 0 |
| TicTacToeRules.ResultOnAction | Tic-Tac-Toe/tictactoe.py:67-76 | `result` succeeds exactly on the actions; it then sets that cell to the player to move and changes no other cell |
| TicTacToeRules.Next | Tic-Tac-Toe/tictactoe.py:67-76 | a move leaves one empty cell fewer, so play ends |
| TicTacToeRules.ResultIsNext | Tic-Tac-Toe/tictactoe.py:67-76 | on a board in play, `result` of an action is that successor board |
| TicTacToeMinimax.ActionListNonEmpty | Tic-Tac-Toe/tictactoe.py:182-183 | a board in play has at least one action |
| TicTacToeMinimax.MaxOfIsMax | Tic-Tac-Toe/tictactoe.py:181-184 | the running `max` from the start value is at least every element and equals the start value or one of them |
| TicTacToeMinimax.MinOfIsMin | Tic-Tac-Toe/tictactoe.py:196-199 | the running `min` from the start value is at most every element and equals the start value or one of them |
| TicTacToeMinimax.FoldsInRange | Tic-Tac-Toe/tictactoe.py:181-199 | folding a non-empty list of utilities from the sentinels -2 and 2 gives a value in -1..1 |
| TicTacToeMinimax.MaxValue | Tic-Tac-Toe/tictactoe.py:172-184 | the value is -1, 0 or 1 |
| TicTacToeMinimax.MinValue | Tic-Tac-Toe/tictactoe.py:187-199 | the value is -1, 0 or 1 |
| TicTacToeMinimax.MinAfter | Tic-Tac-Toe/tictactoe.py:183 | the value of a successor for the minimising player is -1, 0 or 1 |
| TicTacToeMinimax.MaxAfter | Tic-Tac-Toe/tictactoe.py:198 | the value of a successor for the maximising player is -1, 0 or 1 |
| TicTacToeMinimax.MaxValueIsBest | Tic-Tac-Toe/tictactoe.py:172-184 | the utility on a terminal board; otherwise the largest successor value, reached by some action |
| TicTacToeMinimax.MinValueIsBest | Tic-Tac-Toe/tictactoe.py:187-199 | the utility on a terminal board; otherwise the smallest successor value, reached by some action |
| TicTacToeMinimax.Options | Tic-Tac-Toe/tictactoe.py:153-157 | the `[score, action]` pairs in the order they are appended |
| TicTacToeMinimax.Greatest | Tic-Tac-Toe/tictactoe.py:159 | the first of the options sorted in reverse, that is an option every other option sorts below |
| TicTacToeMinimax.Least | Tic-Tac-Toe/tictactoe.py:169 | the first of the sorted options, that is an option every other option sorts above |
| TicTacToeMinimax.GreatestOption | Tic-Tac-Toe/tictactoe.py:159 | the chosen pair is one of the options, with the highest score and, among equal scores, the largest action |
| TicTacToeMinimax.LeastOption | Tic-Tac-Toe/tictactoe.py:169 | the chosen pair is one of the options, with the lowest score and, among equal scores, the smallest action |
| TicTacToeMinimax.Minimax | Tic-Tac-Toe/tictactoe.py:143-169 | None exactly on a terminal board |
| TicTacToeMinimax.MinimaxForX | Tic-Tac-Toe/tictactoe.py:152-159 | for X, an action whose value equals `max_value` of the board, and the largest such action |
| TicTacToeMinimax.MinimaxForO | Tic-Tac-Toe/tictactoe.py:161-169 | for O, an action whose value equals `min_value` of the board, and the smallest such action |
| MinesweeperGame.Around | Minesweeper/minesweeper.py:66-76 | the cells on the board within one row and one column of a cell, other than the cell itself |
| MinesweeperGame.ScannedStep | Minesweeper/minesweeper.py:66-76 | one step of the row-major scan adds one to the count of cells seen exactly when the current position is in the set |
| MinesweeperGame.ScannedRow | Minesweeper/minesweeper.py:66-76 | within the 3-by-3 window, finishing one row of the scan is starting the next |
| MinesweeperGame.ScannedAll | Minesweeper/minesweeper.py:66-76 | after the last row of the window the scan has seen every cell of the window |
| MinesweeperGame.Minesweeper.Hit | Minesweeper/minesweeper.py:69-76 | inside the window, the board test (not the cell itself, on the board, a mine) holds exactly at the adjacent mines |
| MinesweeperGame.Minesweeper.ScanRow | Minesweeper/minesweeper.py:67-76 | one row of the window adds exactly its adjacent mines to the count |
| MinesweeperGame.Minesweeper.constructor | Minesweeper/minesweeper.py:10-34 | the board marks exactly the given mine cells, and no mine is flagged yet |
| MinesweeperGame.Minesweeper.NearbyMines | Minesweeper/minesweeper.py:55-78 | the count is the number of mines among the on-board neighbours of the cell |
| MinesweeperGame.Minesweeper.Won | Minesweeper/minesweeper.py:80-84 | a won game has flagged as many cells as there are mines, and on a valid board every flagged cell is on the board and holds a mine |
| MinesweeperKnowledge.KnownSound | Minesweeper/minesweeper.py:104-123 | in a true sentence with as many mines as cells every cell is a mine, and with count 0 none is |
| MinesweeperKnowledge.MineStruckSound | Minesweeper/minesweeper.py:125-134 | striking a real mine out of a true sentence, as `mark_mine` does, leaves it true |
| MinesweeperKnowledge.SafeStruckSound | Minesweeper/minesweeper.py:136-143 | striking a safe cell out of a true sentence leaves it true |
| MinesweeperKnowledge.SubsetSound | Minesweeper/minesweeper.py:288-294 | when one true sentence's cells are part of another's, the difference of the cells holds the difference of the counts |
| MinesweeperKnowledge.StruckClosed | Minesweeper/minesweeper.py:125-134 | striking `k` mines leaves `count - k` when the count is at least `k`, 0 when it is smaller, and a negative count unchanged |
| MinesweeperKnowledge.StruckTwice | Minesweeper/minesweeper.py:125-134 | striking `a` mines and then `b` more is striking `a + b` |
| MinesweeperKnowledge.StruckStep | Minesweeper/minesweeper.py:130-134 | striking one more cell of the sentence is one more strike |
| MinesweeperKnowledge.StruckMore | Minesweeper/minesweeper.py:275-277 | striking one more mine after a set of them is striking the set grown by it |
| MinesweeperKnowledge.StruckUnion | Minesweeper/minesweeper.py:295-306 | striking two disjoint sets of mines one after the other is striking their union |
| MinesweeperKnowledge.UnresolvedStays | Minesweeper/minesweeper.py:272-280 | a sentence without as many mines as cells stays so when mines are struck out of it |
| MinesweeperKnowledge.ResolvedEmpty | Minesweeper/minesweeper.py:274-278 | a sentence with as many mines as cells, all struck out, has no cells and count 0 |
| MinesweeperKnowledge.StruckSound | Minesweeper/minesweeper.py:125-134 | striking real mines out of a true sentence leaves it true |
| MinesweeperKnowledge.KnownStruckSound | Minesweeper/minesweeper.py:250-254 | striking rightly known safe cells and mines out of a true sentence leaves it true |
| MinesweeperKnowledge.Sentence.constructor | Minesweeper/minesweeper.py:94-96 | the sentence holds the given cells and count |
| MinesweeperKnowledge.Sentence.Equals | Minesweeper/minesweeper.py:98-99 | `__eq__`: a sentence equals itself, and equal sentences show the same known mines and known safe cells |
| MinesweeperKnowledge.Sentence.KnownMines | Minesweeper/minesweeper.py:104-113 | part of the cells; non-empty exactly when there are as many mines as cells and at least one, and then all the cells |
| MinesweeperKnowledge.Sentence.KnownSafes | Minesweeper/minesweeper.py:115-123 | all the cells when the count is 0, none otherwise |
| MinesweeperKnowledge.Sentence.MarkMine | Minesweeper/minesweeper.py:125-134 | the cell leaves the cells; if it was there the count drops by one unless already 0; otherwise nothing changes |
| MinesweeperKnowledge.Sentence.MarkSafe | Minesweeper/minesweeper.py:136-143 | the cell leaves the cells and the count stays |
| MinesweeperKnowledge.KnownAreTrue | Minesweeper/minesweeper.py:104-123 | the known mines of a true sentence are mines and its known safe cells are not |
| MinesweeperPlayer.MinesweeperAI.constructor | Minesweeper/minesweeper.py:151-165 | no moves, no known mines or safe cells, no sentences; this empty knowledge is sound |
| MinesweeperPlayer.MinesweeperAI.MarkMine | Minesweeper/minesweeper.py:167-174 | the cell joins `mines`; every sentence loses it with `mark_mine`'s count rule, so none contains it; nothing else changes; soundness is kept when the cell is a mine |
| MinesweeperPlayer.MinesweeperAI.MarkSafe | Minesweeper/minesweeper.py:176-183 | the cell joins `safes`; every sentence loses it with its count kept; nothing else changes; soundness is kept when the cell is safe |
| MinesweeperPlayer.MinesweeperAI.Neighbors | Minesweeper/minesweeper.py:185-226 | the nine cases as written: every cell returned is within one row and one column of the cell and is not the cell; None for the KeyError case |
| MinesweeperPlayer.MinesweeperAI.BoardNeighbors | Minesweeper/minesweeper.py:185-226 | a value exactly for a cell on the board, holding exactly its on-board neighbours |
| MinesweeperPlayer.NeighborsOnBoard | Minesweeper/minesweeper.py:185-226 | on a board of at least 2 by 2 the nine cases give exactly the on-board neighbours, and fail exactly off the board |
| MinesweeperPlayer.NeighborsLeaveBoard | Minesweeper/minesweeper.py:193-196 | on a 1-by-3 board the cases give the corner `(0, 0)` the off-board neighbour `(1, 0)` |
| MinesweeperPlayer.MinesweeperAI.AddKnowledge | Minesweeper/minesweeper.py:228-311 | the cell joins `moves_made` and `safes`; mines and safes only grow; every old sentence is kept exactly when it is not empty; any other sentence is fresh; no empty sentence remains; a true clue about a safe cell keeps all knowledge true |
| MinesweeperPlayer.MinesweeperAI.AddSentence | Minesweeper/minesweeper.py:243-256 | records the move and the safe cell, and appends one fresh sentence: the cell's neighbours minus the known safe cells and mines, with the count lowered once per known mine struck (never below 0); a true clue keeps the knowledge true |
| MinesweeperPlayer.MinesweeperAI.Append | Minesweeper/minesweeper.py:256 | the sentence is appended and nothing else changes; a true sentence keeps the knowledge true |
| MinesweeperPlayer.MinesweeperAI.Deduce | Minesweeper/minesweeper.py:258-308 | the inferences after the new sentence: mines and safes only grow, sentences only lose cells, the list stays, soundness is kept |
| MinesweeperPlayer.MinesweeperAI.NewSentence | Minesweeper/minesweeper.py:247-254 | a fresh sentence over the cells not yet known safe or mine, whose count is lowered once for every known mine (not known safe) it loses, never below 0; true whenever the clue is |
| MinesweeperPlayer.StrikeKnown | Minesweeper/minesweeper.py:250-254 | the sentence loses exactly its cells known to be safe or mines, and its count drops once per mine struck (a cell in both counts as safe), never below 0; a true sentence stays true when those are known rightly |
| MinesweeperPlayer.StrikeOne | Minesweeper/minesweeper.py:251-254 | one cell of the loop: a safe cell leaves with the count kept, a known mine leaves with one more strike, any other cell stays |
| MinesweeperPlayer.MinesweeperAI.MarkUpdates | Minesweeper/minesweeper.py:258-266 | `safes` and `mines` grow by exactly the new sentence's known safe cells and known mines; every sentence loses those cells and one count per mine struck; the knowledge stays sound |
| MinesweeperPlayer.MinesweeperAI.MarkSafes | Minesweeper/minesweeper.py:261-263 | `safes` grows by exactly the given cells; every sentence loses them with its count kept; soundness is kept when they are all safe |
| MinesweeperPlayer.MinesweeperAI.MarkMines | Minesweeper/minesweeper.py:264-266 | `mines` grows by exactly the given cells; every sentence loses them and one count per cell struck, never below 0; soundness is kept when they are all mines |
| MinesweeperPlayer.MinesweeperAI.ResolveKnownMines | Minesweeper/minesweeper.py:272-280 | afterwards no sentence has as many mines as cells (and at least one); mines only grow, sentences only lose cells, the safe cells and the list stay, soundness is kept |
| MinesweeperPlayer.MinesweeperAI.ResolveOne | Minesweeper/minesweeper.py:273-279 | a sentence with as many mines as cells has them all marked as mines and is left with no cells and count 0, while every sentence loses the new mines with `mark_mine`'s count rule; any other sentence changes nothing; no sentence starts showing known mines |
| MinesweeperPlayer.MinesweeperAI.ResolveStep | Minesweeper/minesweeper.py:273-280 | one pass of the loop: sentence `i` shows no known mines afterwards, none that showed none starts to, mines only grow, cells only shrink, soundness is kept |
| MinesweeperPlayer.MinesweeperAI.Resolve | Minesweeper/minesweeper.py:274-278 | a sentence with as many mines as cells: its cells become mines, it is left with no cells and count 0, every sentence loses them with `mark_mine`'s count rule |
| MinesweeperPlayer.MinesweeperAI.StrikeMine | Minesweeper/minesweeper.py:276-277 | `mark_mine` on one more cell of the sentence: it joins `mines` and every sentence has lost one more struck mine |
| MinesweeperPlayer.MinesweeperAI.MarkCells | Minesweeper/minesweeper.py:275-277 | every given cell becomes a known mine, and every sentence loses the new ones with one count per cell struck; soundness is kept when they are mines |
| MinesweeperPlayer.MinesweeperAI.InferSubsets | Minesweeper/minesweeper.py:282-308 | mines and safes only grow, sentences only lose cells, the list of sentences stays, soundness is kept |
| MinesweeperPlayer.MinesweeperAI.Subtract | Minesweeper/minesweeper.py:288-294 | fires exactly when sentence `j`'s cells are a smaller part of sentence `i`'s; `i` then becomes the difference of cells and counts and `j` is unchanged; soundness is kept |
| MinesweeperPlayer.MinesweeperAI.MarkKnown | Minesweeper/minesweeper.py:295-306 | `mines` and `safes` grow by exactly the sentence's known mines and known safe cells; every sentence loses those cells and one count per mine struck; the knowledge stays sound |
| MinesweeperPlayer.MinesweeperAI.DropEmpty | Minesweeper/minesweeper.py:310-311 | keeps exactly the sentences not equal (by `__eq__`) to the empty sentence |
| MinesweeperPlayer.MinesweeperAI.MakeSafeMove | Minesweeper/minesweeper.py:314-339 | None exactly when every safe cell has been played, otherwise a safe cell not yet played; no state changes |
| MinesweeperPlayer.MinesweeperAI.MakeRandomMove | Minesweeper/minesweeper.py:344-373 | an on-board cell neither played nor a known mine; None exactly when no such cell exists |
| MinesweeperPlayer.AllCells | Minesweeper/minesweeper.py:357-359 | lists exactly the cells of the board |
| MinesweeperPlayer.RowCells | Minesweeper/minesweeper.py:358-359 | lists exactly the cells of one row |
| MinesweeperPlayer.Without | Minesweeper/minesweeper.py:361-369 | keeps exactly the listed cells that are not in the set removed |

## Left out

- Input and output are not modelled: `CrosswordCreator.print`, `save` (image rendering), `main`, `Minesweeper.print`, and the `print` calls in `add_knowledge`, `make_safe_move` and `make_random_move`.
- The crossword structure parser (`crossword.py`, with `Crossword` and `Variable`) is not part of this model. Its result is an immutable value: slots with position, direction and length, a partial overlap map, and the vocabulary. `WellFormed` states what that parser is taken to guarantee.
- Randomness is a free choice among the candidates: `random.choice` in `select_unassigned_variable`, `backtrack`, `make_safe_move` and `make_random_move`. Every candidate satisfies the contracts.
- `Minesweeper.__init__` picks mine positions at random. The model takes the mine set as a parameter instead.
- Generate.CrosswordCreator.AC3 and Generate.CrosswordCreator.Propagate: the source appends to and removes from `queue` while iterating it. The model takes each arc from any position of the worklist, so it does not capture the exact Python order.
- Generate.CrosswordCreator.Revise requires fitted domains (every word has its slot's length). Python would raise IndexError on a too-short word, which cannot happen after node consistency.
- Generate.CrosswordCreator.AC3, Generate.CrosswordCreator.Propagate and Generate.CrosswordCreator.ProcessArc require fitted domains for the same reason, and arcs that start at a slot of the crossword (Python raises KeyError otherwise).
- Generate.CrosswordCreator.Consistent requires every overlap index to be in range. Python would raise IndexError on a word too short for its overlap before reaching its length check.
- Generate.CrosswordCreator.Backtrack requires the starting assignment to reach its overlaps (`Covers`); `solve` starts from the empty assignment, which does.
- Generate.CrosswordCreator.LetterGrid requires every assigned word to stay inside the grid. Negative Python indices, which would wrap around, are not modelled.
- Generate.CrosswordCreator.SelectUnassignedVariable requires an unassigned slot. Python raises IndexError on `count[0]` otherwise, and `backtrack` only calls it while some slot is unassigned.
- Generate.CrosswordCreator.OrderDomainValues returns a list, where the source returns the domain set itself when no neighbour is open. When several words share a count, which word is kept is left open: the source keeps the last one in set order.
- Generate.CrosswordCreator.Solve calls Search, the complete backtracking the docstring of `backtrack` describes, where the source calls the greedy `backtrack`. Backtrack models the code as written; see Findings.
- Generate.CrosswordCreator.Search tries the words of the chosen slot in any order, not the order of `order_domain_values`, and does not re-run `ac3` after each word: neither changes which assignments it can return.
- MinesweeperPlayer.MinesweeperAI.ResolveKnownMines does not state the cells and counts each sentence is left with, only that it loses cells. It states that no sentence shows known mines afterwards, and soundness.
- MinesweeperPlayer.MinesweeperAI.InferSubsets does not state the cells and counts the pairs leave, which depend on the order of the double loop. Subtract and MarkKnown state them step by step; InferSubsets states that sentences only lose cells, that mines and safes only grow, and soundness.
- MinesweeperPlayer.MinesweeperAI.Deduce states no more than InferSubsets for the same reason.
- MinesweeperPlayer.MinesweeperAI.AddKnowledge does not state the cells and count the clue's own sentence ends with, or that it is kept unless it ends empty; it states that every sentence other than the old ones is fresh.
- Winner, Terminal and Player in TicTacToeRules carry no contract of their own: WinnerSpec, TerminalSpec and PlayerSpec state them. Their definitions are used in every minimax proof, and contracts on them put the winning-line quantifiers into each of those proofs.
- Tic-tac-toe `player`'s `board == EMPTY` branch (a list is never None) is unreachable and has no counterpart.
- `Minesweeper.is_mine` is not modelled; it is not used by the modelled code.
- MinesweeperPlayer.MinesweeperAI methods require `Valid()`: no sentence mentions a known mine or safe cell. This is the class invariant the constructor establishes and every method keeps.
- MinesweeperPlayer.MinesweeperAI.AddKnowledge requires an on-board cell (`neighbors` raises KeyError for an off-board cell on boards of at least 2 by 2). It uses the corrected neighbourhood; see Findings.
- MinesweeperPlayer.MinesweeperAI.MakeRandomMove returns None where Python's `random.choice` raises IndexError on an empty list.
- The assignment `self.knowledge[i].cell = set()` (minesweeper.py:279) sets an unused attribute. It is modelled as doing nothing; the sentence's cells are already empty at that point.
- `Sentence.__str__`, and the Heredity, PageRank, Shopping and Parser programs, are outside the modelled core. They consist of floating point, file input and foreign libraries.

## Findings

| source | as written | input that shows it | evidently intended | confidence | as-written member | corrected member |
|---|---|---|---|---|---|---|
| Minesweeper/minesweeper.py:185-226 | the nine cases clip the 3-by-3 block only at the edges they test, so on a board with one row or one column they return cells off the board | height 1, width 3, cell `(0, 0)`: the case `i == 0 and j == 0` gives `{(0, 1), (1, 0), (1, 1)}`, and `(1, 0)`, `(1, 1)` are off the board | the neighbours on the board within one row and one column | high; not executed | MinesweeperPlayer.NeighborsLeaveBoard | MinesweeperPlayer.MinesweeperAI.BoardNeighbors |
| Crossword/generate.py:336-361 | the loop gives each slot one word and never undoes a choice, so it can return None although a solution exists; the docstring promises None only when no assignment is possible | the corner crossword: two slots of length 2 crossing at their first letters, words "AB" and "BA". After "AB" across, the down slot has no open neighbour, so any word is offered; with "BA" the complete assignment is inconsistent and the result is None, although "AB"/"AB" is a solution | backtracking search that undoes a word when it leads nowhere | medium; not executed | CrosswordCsp.GreedyMisses | Generate.CrosswordCreator.Search |
