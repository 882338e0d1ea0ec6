/** Optimal play for tic-tac-toe: the mutually recursive `max_value` /
    `min_value` and the move chosen by `minimax`. The sentinels `-inf` and
    `+inf` of the source are replaced by -2 and 2, below and above every
    utility; on a board still in play at least one action exists, so the
    sentinel never survives the fold. */
module TicTacToeMinimax {
  import opened Wrappers
  import opened TicTacToeRules

  function Max(x: int, y: int): int { if x >= y then x else y }
  function Min(x: int, y: int): int { if x <= y then x else y }

  /** Every element of `acts` is an action of `b`. */
  predicate AllActions(b: Board, acts: seq<Pos>) {
    forall n :: 0 <= n < |acts| ==> acts[n] in Actions(b)
  }

  /** A board in play has at least one action, so the action list is not empty. */
  lemma ActionListNonEmpty(b: Board)
    requires !Terminal(b)
    ensures ActionList(b) != [] && AllActions(b, ActionList(b))
  {
    var a :| a in Actions(b);
    assert a in ActionList(b);
  }

  /** The loop `v = max(v, x)` over `s`, starting from `v`. */
  function MaxOf(s: seq<int>, v: int): int {
    if s == [] then v else MaxOf(s[1..], Max(v, s[0]))
  }

  /** The loop `v = min(v, x)` over `s`, starting from `v`. */
  function MinOf(s: seq<int>, v: int): int {
    if s == [] then v else MinOf(s[1..], Min(v, s[0]))
  }

  /** The max-fold keeps the largest value seen: at least `v` and every
      element, and equal to `v` or to some element. */
  lemma {:induction false} MaxOfIsMax(s: seq<int>, v: int)
    ensures v <= MaxOf(s, v)
    ensures forall n :: 0 <= n < |s| ==> s[n] <= MaxOf(s, v)
    ensures MaxOf(s, v) == v || exists n :: 0 <= n < |s| && MaxOf(s, v) == s[n]
  {
    if s != [] {
      MaxOfIsMax(s[1..], Max(v, s[0]));
      assert forall n :: 1 <= n < |s| ==> s[n] == s[1..][n - 1];
    }
  }

  /** The min-fold keeps the smallest value seen: at most `v` and every
      element, and equal to `v` or to some element. */
  lemma {:induction false} MinOfIsMin(s: seq<int>, v: int)
    ensures MinOf(s, v) <= v
    ensures forall n :: 0 <= n < |s| ==> MinOf(s, v) <= s[n]
    ensures MinOf(s, v) == v || exists n :: 0 <= n < |s| && MinOf(s, v) == s[n]
  {
    if s != [] {
      MinOfIsMin(s[1..], Min(v, s[0]));
      assert forall n :: 1 <= n < |s| ==> s[n] == s[1..][n - 1];
    }
  }

  /** A fold over a non-empty list of utilities, started at a sentinel beyond
      every utility, is itself a utility. */
  lemma FoldsInRange(s: seq<int>)
    requires s != [] && forall n :: 0 <= n < |s| ==> -1 <= s[n] <= 1
    ensures -1 <= MaxOf(s, -2) <= 1 && -1 <= MinOf(s, 2) <= 1
  {
    MaxOfIsMax(s, -2);
    MinOfIsMin(s, 2);
  }

  /** `max_value(board)`: the utility on a terminal board, otherwise the
      largest `min_value` over the boards one action away, folded from `-inf`. */
  function MaxValue(b: Board): (v: int)
    ensures -1 <= v <= 1
    decreases Count(b, Empty), 2
  {
    if Terminal(b) then Utility(b)
    else
      ActionListNonEmpty(b);
      var s := MinAfters(b, ActionList(b));
      FoldsInRange(s);
      MaxOf(s, -2)
  }

  /** `min_value(board)`: the utility on a terminal board, otherwise the
      smallest `max_value` over the boards one action away, folded from `+inf`. */
  function MinValue(b: Board): (v: int)
    ensures -1 <= v <= 1
    decreases Count(b, Empty), 2
  {
    if Terminal(b) then Utility(b)
    else
      ActionListNonEmpty(b);
      var s := MaxAfters(b, ActionList(b));
      FoldsInRange(s);
      MinOf(s, 2)
  }

  /** `min_value(result(board, action))`, the value X weighs an action by. */
  function MinAfter(b: Board, a: Pos): (v: int)
    requires !Terminal(b) && a in Actions(b)
    ensures -1 <= v <= 1
    decreases Count(b, Empty), 0
  {
    MinValue(Next(b, a))
  }

  /** `max_value(result(board, action))`, the value O weighs an action by. */
  function MaxAfter(b: Board, a: Pos): (v: int)
    requires !Terminal(b) && a in Actions(b)
    ensures -1 <= v <= 1
    decreases Count(b, Empty), 0
  {
    MaxValue(Next(b, a))
  }

  /** The values `max_value` folds: `MinAfter` of each action, in order. */
  function MinAfters(b: Board, acts: seq<Pos>): (s: seq<int>)
    requires !Terminal(b) && AllActions(b, acts)
    ensures |s| == |acts|
    decreases Count(b, Empty), 1
  {
    seq(|acts|, n requires 0 <= n < |acts| => MinAfter(b, acts[n]))
  }

  /** The values `min_value` folds: `MaxAfter` of each action, in order. */
  function MaxAfters(b: Board, acts: seq<Pos>): (s: seq<int>)
    requires !Terminal(b) && AllActions(b, acts)
    ensures |s| == |acts|
    decreases Count(b, Empty), 1
  {
    seq(|acts|, n requires 0 <= n < |acts| => MaxAfter(b, acts[n]))
  }

  /** `max_value` is the utility of a finished game, and otherwise the value of
      the best action for X: no action does better, and some action attains it. */
  lemma MaxValueIsBest(b: Board)
    ensures Terminal(b) ==> MaxValue(b) == Utility(b)
    ensures !Terminal(b) ==>
      (forall a :: a in Actions(b) ==> MinAfter(b, a) <= MaxValue(b)) &&
      (exists a :: a in Actions(b) && MinAfter(b, a) == MaxValue(b))
  {
    if !Terminal(b) {
      ActionListNonEmpty(b);
      var l := ActionList(b);
      var s := MinAfters(b, l);
      MaxOfIsMax(s, -2);
      var v := MaxOf(s, -2);
      assert MaxValue(b) == v;
      forall a | a in Actions(b) ensures MinAfter(b, a) <= v {
        var n :| 0 <= n < |l| && l[n] == a;
        assert s[n] == MinAfter(b, a);
      }
      var n :| 0 <= n < |l| && v == s[n];
      assert l[n] in Actions(b);
    }
  }

  /** `min_value` is the utility of a finished game, and otherwise the value of
      the best action for O: no action does better, and some action attains it. */
  lemma MinValueIsBest(b: Board)
    ensures Terminal(b) ==> MinValue(b) == Utility(b)
    ensures !Terminal(b) ==>
      (forall a :: a in Actions(b) ==> MinValue(b) <= MaxAfter(b, a)) &&
      (exists a :: a in Actions(b) && MaxAfter(b, a) == MinValue(b))
  {
    if !Terminal(b) {
      ActionListNonEmpty(b);
      var l := ActionList(b);
      var s := MaxAfters(b, l);
      MinOfIsMin(s, 2);
      var v := MinOf(s, 2);
      assert MinValue(b) == v;
      forall a | a in Actions(b) ensures v <= MaxAfter(b, a) {
        var n :| 0 <= n < |l| && l[n] == a;
        assert s[n] == MaxAfter(b, a);
      }
      var n :| 0 <= n < |l| && v == s[n];
      assert l[n] in Actions(b);
    }
  }

  // ---------------------------------------------------------------------------
  // minimax
  // ---------------------------------------------------------------------------

  /** `options`: the pairs `[score, action]` that `minimax` sorts. */
  function Options(s: seq<int>, acts: seq<Pos>): (o: seq<(int, Pos)>)
    requires |s| == |acts|
    ensures |o| == |acts| && forall n :: 0 <= n < |o| ==> o[n] == (s[n], acts[n])
  {
    seq(|acts|, n requires 0 <= n < |acts| => (s[n], acts[n]))
  }

  /** Python's order on the lists `[score, action]`: by score, then by action. */
  predicate Below(s: (int, Pos), t: (int, Pos)) {
    s.0 < t.0 || (s.0 == t.0 && Before(s.1, t.1))
  }

  /** `sorted(options, reverse=True)[0]`: the greatest option. */
  function Greatest(opts: seq<(int, Pos)>): (r: (int, Pos))
    requires opts != []
    ensures r in opts
    ensures forall o :: o in opts ==> o == r || Below(o, r)
  {
    if |opts| == 1 then opts[0]
    else
      var g := Greatest(opts[1..]);
      assert forall o :: o in opts ==> o == opts[0] || o in opts[1..];
      if Below(g, opts[0]) then opts[0] else g
  }

  /** `sorted(options)[0]`: the least option. */
  function Least(opts: seq<(int, Pos)>): (r: (int, Pos))
    requires opts != []
    ensures r in opts
    ensures forall o :: o in opts ==> o == r || Below(r, o)
  {
    if |opts| == 1 then opts[0]
    else
      var g := Least(opts[1..]);
      assert forall o :: o in opts ==> o == opts[0] || o in opts[1..];
      if Below(opts[0], g) then opts[0] else g
  }

  /** `minimax(board)`: None on a terminal board; for X the action of the
      greatest `[min_value(result), action]` option, for O the action of the
      least `[max_value(result), action]` option. */
  function Minimax(b: Board): (r: Option<Pos>)
    ensures r.None? <==> Terminal(b)
  {
    if Terminal(b) then None
    else
      ActionListNonEmpty(b);
      var l := ActionList(b);
      if Player(b) == X then Some(Greatest(Options(MinAfters(b, l), l)).1)
      else Some(Least(Options(MaxAfters(b, l), l)).1)
  }

  /** The greatest option carries the largest score, and among the actions
      with that score the greatest one. */
  lemma GreatestOption(s: seq<int>, l: seq<Pos>)
    requires |s| == |l| && l != []
    ensures exists k :: 0 <= k < |l| && Greatest(Options(s, l)) == (s[k], l[k])
    ensures forall n :: 0 <= n < |l| ==> s[n] <= Greatest(Options(s, l)).0
    ensures forall n :: 0 <= n < |l| && s[n] == Greatest(Options(s, l)).0 ==>
      l[n] == Greatest(Options(s, l)).1 || Before(l[n], Greatest(Options(s, l)).1)
  {
    var opts := Options(s, l);
    forall n | 0 <= n < |l| ensures opts[n] in opts { }
    var k :| 0 <= k < |opts| && opts[k] == Greatest(opts);
  }

  /** The least option carries the smallest score, and among the actions
      with that score the least one. */
  lemma LeastOption(s: seq<int>, l: seq<Pos>)
    requires |s| == |l| && l != []
    ensures exists k :: 0 <= k < |l| && Least(Options(s, l)) == (s[k], l[k])
    ensures forall n :: 0 <= n < |l| ==> Least(Options(s, l)).0 <= s[n]
    ensures forall n :: 0 <= n < |l| && s[n] == Least(Options(s, l)).0 ==>
      l[n] == Least(Options(s, l)).1 || Before(Least(Options(s, l)).1, l[n])
  {
    var opts := Options(s, l);
    forall n | 0 <= n < |l| ensures opts[n] in opts { }
    var k :| 0 <= k < |opts| && opts[k] == Least(opts);
  }

  /** When X is to move, `minimax` returns an action of greatest value for X,
      and the greatest such action in tuple order. */
  lemma MinimaxForX(b: Board)
    requires !Terminal(b) && Player(b) == X
    ensures Minimax(b).Some? && Minimax(b).value in Actions(b)
    ensures MinAfter(b, Minimax(b).value) == MaxValue(b)
    ensures forall a :: a in Actions(b) && MinAfter(b, a) == MaxValue(b) ==>
      a == Minimax(b).value || Before(a, Minimax(b).value)
  {
    ActionListNonEmpty(b);
    var l := ActionList(b);
    var s := MinAfters(b, l);
    var g := Greatest(Options(s, l));
    assert Minimax(b) == Some(g.1);
    GreatestOption(s, l);
    var k :| 0 <= k < |l| && g == (s[k], l[k]);
    assert g.0 == MinAfter(b, l[k]);
    MaxValueIsBest(b);
    forall a | a in Actions(b) ensures MinAfter(b, a) <= g.0 && (MinAfter(b, a) == g.0 ==> a == g.1 || Before(a, g.1)) {
      var n :| 0 <= n < |l| && l[n] == a;
      assert s[n] == MinAfter(b, a);
    }
  }

  /** When O is to move, `minimax` returns an action of least value for X,
      and the least such action in tuple order. */
  lemma MinimaxForO(b: Board)
    requires !Terminal(b) && Player(b) == O
    ensures Minimax(b).Some? && Minimax(b).value in Actions(b)
    ensures MaxAfter(b, Minimax(b).value) == MinValue(b)
    ensures forall a :: a in Actions(b) && MaxAfter(b, a) == MinValue(b) ==>
      a == Minimax(b).value || Before(Minimax(b).value, a)
  {
    ActionListNonEmpty(b);
    var l := ActionList(b);
    var s := MaxAfters(b, l);
    var g := Least(Options(s, l));
    assert Minimax(b) == Some(g.1);
    LeastOption(s, l);
    var k :| 0 <= k < |l| && g == (s[k], l[k]);
    assert g.0 == MaxAfter(b, l[k]);
    MinValueIsBest(b);
    forall a | a in Actions(b) ensures g.0 <= MaxAfter(b, a) && (MaxAfter(b, a) == g.0 ==> a == g.1 || Before(g.1, a)) {
      var n :| 0 <= n < |l| && l[n] == a;
      assert s[n] == MaxAfter(b, a);
    }
  }
}
