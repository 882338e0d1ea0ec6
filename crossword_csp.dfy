/** The constraint-satisfaction notions the crossword solver works with:
    node consistency, the revise step, arc consistency, completeness and
    consistency of an assignment, and the count that orders domain values.
    Each is a specification the methods of `CrosswordCreator` are proved
    against. */
module CrosswordCsp {
  import opened Wrappers
  import opened CrosswordGeometry
  import opened Sets

  // ---------------------------------------------------------------------------
  // Node consistency
  // ---------------------------------------------------------------------------

  /** Every word in every domain has its slot's length. */
  predicate Fitted(D: Domains) {
    forall v :: v in D ==> forall w :: w in D[v] ==> |w| == v.length
  }

  /** The words of `ws` that have the length of slot `v`. */
  function FitWords(v: Slot, ws: set<Word>): set<Word> {
    set w | w in ws && |w| == v.length
  }

  /** Removing words from one domain keeps the domains fitted. */
  lemma FittedShrink(D: Domains, x: Slot, r: set<Word>)
    requires Fitted(D) && x in D && r <= D[x]
    ensures Fitted(D[x := r]) && D[x := r].Keys == D.Keys
  {
  }

  /** The domains with every word of the wrong length removed. */
  function NodeConsistent(D: Domains): (r: Domains)
    ensures r.Keys == D.Keys && Fitted(r)
    ensures forall v :: v in r ==> r[v] <= D[v]
    ensures forall v, w :: v in D && w in D[v] && |w| == v.length ==> w in r[v]
  {
    map v | v in D :: FitWords(v, D[v])
  }

  /** Node consistency changes nothing on domains that already fit, so a
      second pass is a no-op. */
  lemma NodeConsistentIdempotent(D: Domains)
    ensures Fitted(D) ==> NodeConsistent(D) == D
    ensures NodeConsistent(NodeConsistent(D)) == NodeConsistent(D)
  {
    var r := NodeConsistent(D);
    if Fitted(D) {
      forall v | v in D ensures r[v] == D[v] { }
    }
    var s := NodeConsistent(r);
    forall v | v in r ensures s[v] == r[v] { }
  }

  // ---------------------------------------------------------------------------
  // revise and arc consistency
  // ---------------------------------------------------------------------------

  /** Some word of `ys` agrees with `w` where slots `x` and `y` cross. */
  predicate Supported(c: Crossword, x: Slot, y: Slot, w: Word, ys: set<Word>)
    requires (x, y) in c.overlaps
  {
    exists u :: u in ys && Agree(w, u, c.overlaps[(x, y)])
  }

  /** The domain of `x` after revising it against its neighbour `y`: unchanged
      when `y` has no candidate left, otherwise the words of `x` that some word
      of `y` supports. */
  function Revised(c: Crossword, D: Domains, x: Slot, y: Slot): (r: set<Word>)
    requires c.WellFormed() && y in c.Neighbors(x) && x in D && y in D
    ensures r <= D[x]
    ensures (x, y) in c.overlaps
  {
    NeighborsSymmetric(c, x, y);
    if D[y] == {} then D[x]
    else set w | w in D[x] && Supported(c, x, y, w, D[y])
  }

  /** A word of `x` survives the revise exactly when `y` has no candidate
      left or some candidate of `y` agrees with it at the overlap. */
  lemma RevisedMembers(c: Crossword, D: Domains, x: Slot, y: Slot)
    requires c.WellFormed() && y in c.Neighbors(x) && x in D && y in D
    ensures forall w :: w in D[x] ==>
      (w in Revised(c, D, x, y) <==> D[y] == {} || Supported(c, x, y, w, D[y]))
  {
  }

  /** What the loops of `revise` compute: the words some word of `y`
      disagrees with, less those some word of `y` agrees with, are exactly the
      words the revise removes. */
  lemma RevisedByComparison(c: Crossword, D: Domains, x: Slot, y: Slot, delete: set<Word>, save: set<Word>)
    requires c.WellFormed() && y in c.Neighbors(x) && x in D && y in D
    requires (x, y) in c.overlaps
    requires forall w :: w in delete <==> w in D[x] && exists u :: u in D[y] && !Agree(w, u, c.overlaps[(x, y)])
    requires forall w :: w in save <==> w in D[x] && exists u :: u in D[y] && Agree(w, u, c.overlaps[(x, y)])
    ensures D[x] - (delete - save) == Revised(c, D, x, y)
    ensures delete - save <= D[x]
  {
    var r := Revised(c, D, x, y);
    forall w | w in D[x] ensures w in delete - save <==> w !in r {
      if w !in save && D[y] != {} {
        var u :| u in D[y];
        assert !Agree(w, u, c.overlaps[(x, y)]);
      }
    }
  }

  /** The arc `(x, y)` is consistent: when `y` is a neighbour of `x` with some
      candidate left, every candidate of `x` has a supporting word in `y`. */
  predicate ArcConsistent(c: Crossword, D: Domains, x: Slot, y: Slot)
    requires c.WellFormed()
  {
    NeighborsSymmetric(c, x, y);
    x in D && y in D && y in c.Neighbors(x) ==>
      D[y] == {} || forall w :: w in D[x] ==> Supported(c, x, y, w, D[y])
  }

  /** Revising `x` against `y` makes the arc `(x, y)` consistent, and a revise
      removes nothing exactly when the arc already was consistent. */
  lemma RevisedConsistent(c: Crossword, D: Domains, x: Slot, y: Slot)
    requires c.WellFormed() && y in c.Neighbors(x) && x in D && y in D
    ensures ArcConsistent(c, D[x := Revised(c, D, x, y)], x, y)
    ensures Revised(c, D, x, y) == D[x] <==> ArcConsistent(c, D, x, y)
  {
    NeighborsSymmetric(c, x, y);
    assert x != y;
  }

  /** Shrinking the domain of `x` keeps every consistent arc that does not
      point into `x` consistent. */
  lemma ShrinkPreservesArc(c: Crossword, D: Domains, x: Slot, r: set<Word>, a: Slot, b: Slot)
    requires c.WellFormed() && x in D && r <= D[x] && b != x
    requires ArcConsistent(c, D, a, b)
    ensures ArcConsistent(c, D[x := r], a, b)
  {
    NeighborsSymmetric(c, a, b);
  }

  /** After revising `x` against `y`, the arc `(y, x)` is still consistent: a
      word of `x` that supported a word of `y` is supported by it in turn, so
      the revise keeps it. */
  lemma RevisePreservesReverse(c: Crossword, D: Domains, x: Slot, y: Slot)
    requires c.WellFormed() && y in c.Neighbors(x) && x in D && y in D
    requires ArcConsistent(c, D, y, x)
    ensures ArcConsistent(c, D[x := Revised(c, D, x, y)], y, x)
  {
    var r := Revised(c, D, x, y);
    var D' := D[x := r];
    NeighborsSymmetric(c, x, y);
    var o := c.overlaps[(x, y)];
    assert c.overlaps[(y, x)] == (o.1, o.0);
    if r != {} {
      assert x != y && D'[y] == D[y];
      forall v | v in D[y] ensures Supported(c, y, x, v, r) {
        var w :| w in D[x] && Agree(v, w, c.overlaps[(y, x)]);
        assert Agree(w, v, o);
        assert w in r;
      }
    }
  }

  /** One step of the worklist: after revising `x` against `y`, an arc is
      consistent if it is `(x, y)` itself, or was consistent and is not an
      arc into `x` from a neighbour other than `y` (those are queued again). */
  lemma ReviseStep(c: Crossword, D: Domains, x: Slot, y: Slot, e: (Slot, Slot))
    requires c.WellFormed() && y in c.Neighbors(x) && x in D && y in D
    requires e == (x, y) || ArcConsistent(c, D, e.0, e.1)
    requires e != (x, y) && e.1 == x ==> e.0 == y || e.0 !in c.Neighbors(x)
    ensures ArcConsistent(c, D[x := Revised(c, D, x, y)], e.0, e.1)
  {
    var r := Revised(c, D, x, y);
    if e == (x, y) {
      RevisedConsistent(c, D, x, y);
    } else if e.1 != x {
      ShrinkPreservesArc(c, D, x, r, e.0, e.1);
    } else if e.0 == y {
      RevisePreservesReverse(c, D, x, y);
    } else {
      NeighborsSymmetric(c, x, e.0);
    }
  }

  /** The arcs `ac3` starts from: every ordered pair of distinct slots when
      no list is given, otherwise the arcs listed. */
  function Seeded(c: Crossword, arcs: Option<seq<(Slot, Slot)>>): set<(Slot, Slot)> {
    match arcs
    case None => set x, y | x in c.variables && y in c.variables && x != y :: (x, y)
    case Some(s) => set e | e in s
  }

  /** Sum of the domain sizes of the slots in `vs`: the measure every
      successful revise lowers. */
  function Size(D: Domains, vs: seq<Slot>): nat {
    if vs == [] then 0
    else (if vs[0] in D then |D[vs[0]]| else 0) + Size(D, vs[1..])
  }

  /** A slot of a list without repeats does not occur before its own
      position. */
  lemma {:induction false} DistinctAt(vs: seq<Slot>, k: nat)
    requires Distinct(vs) && k < |vs|
    ensures vs[k] !in vs[..k]
  {
    if k > 0 {
      DistinctAt(vs[1..], k - 1);
      assert vs[..k] == [vs[0]] + vs[1..][..k - 1];
    }
  }

  /** Strictly shrinking the domain of one slot of `vs`, and no other,
      lowers `Size`. */
  lemma {:induction false} SizeDecreases(D: Domains, D': Domains, vs: seq<Slot>, x: Slot)
    requires forall v :: v in vs ==> v in D && v in D'
    requires Distinct(vs)
    requires x in vs && D'[x] < D[x]
    requires forall v :: v in vs && v != x ==> D'[v] == D[v]
    ensures Size(D', vs) < Size(D, vs)
  {
    if vs[0] == x {
      ProperSubsetSmaller(D'[x], D[x]);
      SizeUnchanged(D, D', vs[1..], x);
    } else {
      SizeDecreases(D, D', vs[1..], x);
    }
  }

  /** Domains that agree on every slot of `vs` have the same `Size`. */
  lemma {:induction false} SizeUnchanged(D: Domains, D': Domains, vs: seq<Slot>, x: Slot)
    requires forall v :: v in vs ==> v in D && v in D'
    requires x !in vs
    requires forall v :: v in vs && v != x ==> D'[v] == D[v]
    ensures Size(D', vs) == Size(D, vs)
  {
    if vs != [] {
      SizeUnchanged(D, D', vs[1..], x);
    }
  }

  /** What `revise(x, y)` needs: a well-formed crossword, `y` a neighbour
      of `x`, and both slots with a domain. */
  ghost predicate Revisable(c: Crossword, D: Domains, x: Slot, y: Slot) {
    c.WellFormed() && y in c.Neighbors(x) && x in D && y in D
  }

  /** The worklist step of `ac3` after a revise of `(x, y)` that shrank the
      domain of `x`: with the arc removed and the arcs into `x` from its
      other neighbours queued, every seeded arc is still queued or
      consistent, and the total size of the domains went down. */
  lemma ShrinkingStep(c: Crossword, D: Domains, x: Slot, y: Slot,
                      rest: seq<(Slot, Slot)>, inbound: seq<(Slot, Slot)>, seeded: set<(Slot, Slot)>)
    requires Revisable(c, D, x, y) && D.Keys == c.VarSet() && Revised(c, D, x, y) != D[x]
    requires forall e :: e in seeded ==> e == (x, y) || e in rest || ArcConsistent(c, D, e.0, e.1)
    requires forall z :: z in c.Neighbors(x) && z != y ==> (z, x) in inbound
    ensures forall e :: e in seeded ==> e in rest + inbound || ArcConsistent(c, D[x := Revised(c, D, x, y)], e.0, e.1)
    ensures Size(D[x := Revised(c, D, x, y)], c.variables) < Size(D, c.variables)
  {
    var r := Revised(c, D, x, y);
    forall e | e in seeded
      ensures e in rest + inbound || ArcConsistent(c, D[x := r], e.0, e.1)
    {
      if e !in rest + inbound {
        ReviseStep(c, D, x, y, e);
      }
    }
    var D' := D[x := r];
    assert D'[x] < D[x];
    assert forall v :: v in c.variables ==> v in D && v in D';
    SizeDecreases(D, D', c.variables, x);
  }

  /** The domains after `revise(x, y)`: the domain of `x` revised against
      `y` when `y` is a neighbour of `x`, otherwise the domains unchanged. */
  ghost function AfterRevise(c: Crossword, D: Domains, x: Slot, y: Slot): (r: Domains)
    requires c.WellFormed() && D.Keys == c.VarSet() && x in D
    ensures r.Keys == D.Keys && forall v :: v in r ==> r[v] <= D[v]
    ensures forall v :: v in r && v != x ==> r[v] == D[v]
  {
    if y in c.Neighbors(x) then D[x := Revised(c, D, x, y)] else D
  }

  /** Revising an arc that is already consistent changes no domain. */
  lemma ConsistentArcStays(c: Crossword, D: Domains, x: Slot, y: Slot)
    requires c.WellFormed() && D.Keys == c.VarSet() && x in D && ArcConsistent(c, D, x, y)
    ensures AfterRevise(c, D, x, y) == D
  {
    if y in c.Neighbors(x) {
      RevisedConsistent(c, D, x, y);
    }
  }

  /** The queue after the arc at position `k` is handled: the arc dropped
      and, after a revise that shrank the domain of its first slot `x`, the
      arcs `(z, x)` for the neighbours `z` of `x` other than its second slot
      appended. */
  ghost predicate Requeued(c: Crossword, queue: seq<(Slot, Slot)>, k: nat, revised: bool, next: seq<(Slot, Slot)>)
    requires k < |queue|
  {
    var (x, y) := queue[k];
    |queue| - 1 <= |next| && next[..|queue| - 1] == queue[..k] + queue[k + 1..] &&
    (!revised ==> |next| == |queue| - 1) &&
    (forall i :: |queue| - 1 <= i < |next| ==> next[i].1 == x && next[i].0 in c.Neighbors(x) && next[i].0 != y) &&
    (forall z :: z in c.Neighbors(x) && z != y && revised ==> (z, x) in next[|queue| - 1..])
  }

  /** One pass of the worklist loop, over all inputs: after the arc at
      position `k` is revised and the queue updated, every queued arc still
      starts at a slot, every arc of `seeded` is queued or consistent, and
      either the total size of the domains went down or the domains stayed
      the same and the queue got shorter. */
  lemma WorklistStep(c: Crossword, D: Domains, queue: seq<(Slot, Slot)>, k: nat,
                     next: seq<(Slot, Slot)>, seeded: set<(Slot, Slot)>)
    requires c.WellFormed() && D.Keys == c.VarSet() && k < |queue|
    requires forall e :: e in queue ==> e.0 in c.variables
    requires forall e :: e in seeded ==> e in queue || ArcConsistent(c, D, e.0, e.1)
    requires Requeued(c, queue, k, AfterRevise(c, D, queue[k].0, queue[k].1) != D, next)
    ensures forall e :: e in next ==> e.0 in c.variables
    ensures forall e :: e in seeded ==> e in next || ArcConsistent(c, AfterRevise(c, D, queue[k].0, queue[k].1), e.0, e.1)
    ensures Size(AfterRevise(c, D, queue[k].0, queue[k].1), c.variables) < Size(D, c.variables) ||
      (AfterRevise(c, D, queue[k].0, queue[k].1) == D && |next| < |queue|)
  {
    if AfterRevise(c, D, queue[k].0, queue[k].1) != D {
      WorklistShrinks(c, D, queue, k, next, seeded);
    } else {
      WorklistKeeps(c, D, queue, k, next, seeded);
    }
  }

  /** `WorklistStep` when the revise shrank the domain of `x`. */
  lemma WorklistShrinks(c: Crossword, D: Domains, queue: seq<(Slot, Slot)>, k: nat,
                        next: seq<(Slot, Slot)>, seeded: set<(Slot, Slot)>)
    requires c.WellFormed() && D.Keys == c.VarSet() && k < |queue|
    requires forall e :: e in queue ==> e.0 in c.variables
    requires forall e :: e in seeded ==> e in queue || ArcConsistent(c, D, e.0, e.1)
    requires AfterRevise(c, D, queue[k].0, queue[k].1) != D
    requires Requeued(c, queue, k, true, next)
    ensures forall e :: e in next ==> e.0 in c.variables
    ensures forall e :: e in seeded ==> e in next || ArcConsistent(c, AfterRevise(c, D, queue[k].0, queue[k].1), e.0, e.1)
    ensures Size(AfterRevise(c, D, queue[k].0, queue[k].1), c.variables) < Size(D, c.variables)
  {
    var (x, y) := queue[k];
    var rest := queue[..k] + queue[k + 1..];
    var added := next[|queue| - 1..];
    RequeuedParts(c, queue, k, true, next);
    ShrinkingStep(c, D, x, y, rest, added, seeded);
  }

  /** What `Requeued` says about membership: the queue less the arc at `k`
      comes first, and every appended arc leads into the slot `x` of that
      arc from one of its neighbours. */
  lemma RequeuedParts(c: Crossword, queue: seq<(Slot, Slot)>, k: nat, revised: bool, next: seq<(Slot, Slot)>)
    requires k < |queue| && Requeued(c, queue, k, revised, next)
    ensures next == queue[..k] + queue[k + 1..] + next[|queue| - 1..]
    ensures forall e :: e in queue ==> e == queue[k] || e in queue[..k] + queue[k + 1..]
    ensures forall e :: e in next ==> e in queue || (e.1 == queue[k].0 && e.0 in c.Neighbors(queue[k].0))
  {
    var rest := queue[..k] + queue[k + 1..];
    assert queue == queue[..k] + [queue[k]] + queue[k + 1..];
    forall e | e in next
      ensures e in queue || (e.1 == queue[k].0 && e.0 in c.Neighbors(queue[k].0))
    {
      var i :| 0 <= i < |next| && next[i] == e;
      if i < |rest| {
        assert e in rest;
      }
    }
  }

  /** After a revise that changed nothing the new queue holds only arcs
      of the old one. */
  lemma RequeuedUnrevised(c: Crossword, queue: seq<(Slot, Slot)>, k: nat, next: seq<(Slot, Slot)>)
    requires k < |queue| && Requeued(c, queue, k, false, next)
    ensures forall e :: e in next ==> e in queue
  {
    assert next == queue[..k] + queue[k + 1..];
    assert queue == queue[..k] + [queue[k]] + queue[k + 1..];
  }

  /** `WorklistStep` when the revise changed nothing. */
  lemma WorklistKeeps(c: Crossword, D: Domains, queue: seq<(Slot, Slot)>, k: nat,
                      next: seq<(Slot, Slot)>, seeded: set<(Slot, Slot)>)
    requires c.WellFormed() && D.Keys == c.VarSet() && k < |queue|
    requires forall e :: e in queue ==> e.0 in c.variables
    requires forall e :: e in seeded ==> e in queue || ArcConsistent(c, D, e.0, e.1)
    requires AfterRevise(c, D, queue[k].0, queue[k].1) == D
    requires Requeued(c, queue, k, false, next)
    ensures forall e :: e in next ==> e.0 in c.variables
    ensures forall e :: e in seeded ==> e in next || ArcConsistent(c, D, e.0, e.1)
    ensures |next| < |queue|
  {
    var (x, y) := queue[k];
    var rest := queue[..k] + queue[k + 1..];
    assert next == rest;
    assert forall e :: e in queue ==> e == (x, y) || e in rest;
    if y in c.Neighbors(x) {
      RevisedConsistent(c, D, x, y);
    }
  }

  // ---------------------------------------------------------------------------
  // Solutions survive revising
  // ---------------------------------------------------------------------------

  /** Every word of `a` is a candidate of its slot in `D`. */
  ghost predicate Admits(D: Domains, a: Assignment) {
    forall v :: v in a ==> v in D && a[v] in D[v]
  }

  /** Every solution (a complete, consistent assignment) the domains `D0`
      admit, the domains `D` admit too: nothing the solver removed could have
      been part of a solution. */
  ghost predicate KeepsSolutions(c: Crossword, D0: Domains, D: Domains) {
    forall a :: IsComplete(c, a) && IsConsistent(c, a) && Admits(D0, a) ==> Admits(D, a)
  }

  /** A revise never removes a word of a solution: the word the solution
      gives the neighbour `y` supports it. */
  lemma RevisedKeeps(c: Crossword, D: Domains, x: Slot, y: Slot, a: Assignment)
    requires Revisable(c, D, x, y) && D.Keys == c.VarSet()
    requires IsComplete(c, a) && IsConsistent(c, a) && Admits(D, a)
    ensures Admits(D[x := Revised(c, D, x, y)], a)
  {
    if x in a && D[y] != {} {
      NeighborsSymmetric(c, x, y);
      assert y in a && a[y] in D[y];
      assert SlotConsistent(c, a, x);
      assert Supported(c, x, y, a[x], D[y]);
    }
  }

  /** Revising keeps every solution the starting domains admitted. */
  lemma ReviseKeepsSolutions(c: Crossword, D0: Domains, D: Domains, x: Slot, y: Slot)
    requires Revisable(c, D, x, y) && D.Keys == c.VarSet()
    requires KeepsSolutions(c, D0, D)
    ensures KeepsSolutions(c, D0, D[x := Revised(c, D, x, y)])
  {
    forall a | IsComplete(c, a) && IsConsistent(c, a) && Admits(D0, a)
      ensures Admits(D[x := Revised(c, D, x, y)], a)
    {
      RevisedKeeps(c, D, x, y, a);
    }
  }

  /** Keeping the solutions composes: what the middle domains admit of the
      first domains' solutions, the last domains admit too. */
  lemma KeepsTransitive(c: Crossword, D0: Domains, D1: Domains, D2: Domains)
    requires KeepsSolutions(c, D0, D1) && KeepsSolutions(c, D1, D2)
    ensures KeepsSolutions(c, D0, D2)
  {
  }

  /** Node consistency never removes a word of a solution: a consistent
      assignment gives every slot a word of the slot's length. */
  lemma NodeConsistentKeeps(c: Crossword, D: Domains)
    ensures KeepsSolutions(c, D, NodeConsistent(D))
  {
    forall a | IsComplete(c, a) && IsConsistent(c, a) && Admits(D, a)
      ensures Admits(NodeConsistent(D), a)
    {
      forall v | v in a ensures a[v] in NodeConsistent(D)[v] {
        assert SlotConsistent(c, a, v);
      }
    }
  }

  // ---------------------------------------------------------------------------
  // Assignments
  // ---------------------------------------------------------------------------

  /** Every slot of the crossword has a word. */
  predicate IsComplete(c: Crossword, a: Assignment) {
    forall v :: v in c.variables ==> v in a
  }

  /** Every overlap between two assigned slots falls inside both words (the
      condition under which the source can index them at all). */
  predicate Indexable(c: Crossword, a: Assignment) {
    forall x, y :: (x, y) in c.overlaps && x in a && y in a ==>
      c.overlaps[(x, y)].0 < |a[x]| && c.overlaps[(x, y)].1 < |a[y]|
  }

  /** Every assigned word reaches each of its slot's overlaps, assigned
      neighbour or not: what keeps `Indexable` as more slots get words. */
  ghost predicate Covers(c: Crossword, a: Assignment) {
    forall x, y :: (x, y) in c.overlaps && x in a ==> c.overlaps[(x, y)].0 < |a[x]|
  }

  /** `Covers` gives `Indexable`. */
  lemma CoversIndexable(c: Crossword, a: Assignment)
    requires c.WellFormed() && Covers(c, a)
    ensures Indexable(c, a)
  {
    forall x, y | (x, y) in c.overlaps && x in a && y in a
      ensures c.overlaps[(x, y)].1 < |a[y]|
    {
      assert (y, x) in c.overlaps;
    }
  }

  /** Giving unassigned slot `v` a word of its fitted domain keeps `Covers`
      and leaves one slot fewer without a word. */
  lemma Extend(c: Crossword, D: Domains, a: Assignment, v: Slot, w: Word)
    requires c.WellFormed() && Fitted(D) && Covers(c, a)
    requires v in c.VarSet() && v in D && v !in a && w in D[v]
    ensures Covers(c, a[v := w])
    ensures |c.VarSet() - a[v := w].Keys| < |c.VarSet() - a.Keys|
  {
    var a' := a[v := w];
    forall x, y | (x, y) in c.overlaps && x in a'
      ensures c.overlaps[(x, y)].0 < |a'[x]|
    {
      if x == v {
        assert |w| == v.length;
      }
    }
    var before := c.VarSet() - a.Keys;
    var after := c.VarSet() - a'.Keys;
    assert v in before && v !in after && after <= before;
    ProperSubsetSmaller(after, before);
  }

  /** `a` keeps the words of `a0` and takes every other word from the
      domains `D`. */
  ghost predicate Extends(a0: Assignment, a: Assignment, D: Domains) {
    (forall v :: v in a0 ==> v in a && a[v] == a0[v]) &&
    (forall v :: v in a && v !in a0 ==> v in D && a[v] in D[v])
  }

  /** Giving a new slot a word of its domain keeps `Extends`. */
  lemma ExtendsStep(a0: Assignment, a: Assignment, D: Domains, v: Slot, w: Word)
    requires Extends(a0, a, D) && v !in a && v in D && w in D[v]
    ensures Extends(a0, a[v := w], D)
  {
  }

  /** Some assigned word puts letter `ch` in cell `p`; `keys` limits the
      slots looked at. */
  ghost predicate Written(a: Assignment, keys: set<Slot>, p: (int, int), ch: char) {
    exists v, k :: v in keys && v in a && 0 <= k < |a[v]| && CellOf(v, k) == p && a[v][k] == ch
  }

  /** Some assigned word of a slot in `keys` crosses cell `p`. */
  ghost predicate Covered(a: Assignment, keys: set<Slot>, p: (int, int)) {
    exists v, k :: v in keys && v in a && 0 <= k < |a[v]| && CellOf(v, k) == p
  }

  /** The word of `v` agrees with the word of every assigned neighbour, and
      has the length of `v`. */
  predicate SlotConsistent(c: Crossword, a: Assignment, v: Slot)
    requires v in a
  {
    (forall n :: n in c.Neighbors(v) && n in a ==>
      (v, n) in c.overlaps && Agree(a[v], a[n], c.overlaps[(v, n)])) &&
    |a[v]| == v.length
  }

  /** The words fit their slots and agree wherever two assigned slots cross. */
  predicate IsConsistent(c: Crossword, a: Assignment) {
    forall v :: v in a ==> SlotConsistent(c, a, v)
  }

  /** `IsConsistent`, stated over the overlaps themselves: the lengths fit and
      every recorded overlap between two assigned slots shows one letter. */
  lemma ConsistentOverlaps(c: Crossword, a: Assignment)
    requires c.WellFormed()
    ensures IsConsistent(c, a) <==>
      (forall v :: v in a ==> |a[v]| == v.length) &&
      (forall p :: p in c.overlaps && p.0 in a && p.1 in a ==> Agree(a[p.0], a[p.1], c.overlaps[p]))
  {
    if IsConsistent(c, a) {
      forall p | p in c.overlaps && p.0 in a && p.1 in a
        ensures Agree(a[p.0], a[p.1], c.overlaps[p])
      {
        assert p.1 in c.Neighbors(p.0) by {
          assert (p.1, p.0) in c.overlaps;
        }
        assert SlotConsistent(c, a, p.0);
      }
    }
  }

  /** Dropping slots from a consistent assignment keeps it consistent. */
  lemma ConsistentRestrict(c: Crossword, a: Assignment, b: Assignment)
    requires IsConsistent(c, a)
    requires b.Keys <= a.Keys && forall v :: v in b ==> b[v] == a[v]
    ensures IsConsistent(c, b)
  {
    forall v | v in b ensures SlotConsistent(c, b, v) {
      assert SlotConsistent(c, a, v);
    }
  }

  /** No complete, consistent assignment extends `a` with words of `D`. */
  ghost predicate Unsolvable(c: Crossword, D: Domains, a: Assignment) {
    forall b :: Extends(a, b, D) && IsComplete(c, b) ==> !IsConsistent(c, b)
  }

  /** An inconsistent assignment has no consistent extension. */
  lemma InconsistentUnsolvable(c: Crossword, D: Domains, a: Assignment)
    requires !IsConsistent(c, a)
    ensures Unsolvable(c, D, a)
  {
    forall b | Extends(a, b, D) && IsComplete(c, b)
      ensures !IsConsistent(c, b)
    {
      if IsConsistent(c, b) {
        ConsistentRestrict(c, b, a);
      }
    }
  }

  /** The words of a list, as a set. */
  function WordSet(ws: seq<Word>): (r: set<Word>)
    ensures forall w :: w in r <==> w in ws
  {
    set w | w in ws
  }

  /** No solution extending `a` gives slot `v` a word of `ws`. */
  ghost predicate Refuted(c: Crossword, D: Domains, a: Assignment, v: Slot, ws: set<Word>) {
    forall b :: Extends(a, b, D) && IsComplete(c, b) && v in b && b[v] in ws ==> !IsConsistent(c, b)
  }

  /** A word `w` for `v` from which there is no solution joins the refuted
      words. */
  lemma RefutedMore(c: Crossword, D: Domains, a: Assignment, v: Slot, ws: set<Word>, w: Word)
    requires v !in a && Refuted(c, D, a, v, ws) && Unsolvable(c, D, a[v := w])
    ensures Refuted(c, D, a, v, ws + {w})
  {
    forall b | Extends(a, b, D) && IsComplete(c, b) && v in b && b[v] in ws + {w}
      ensures !IsConsistent(c, b)
    {
      if b[v] == w {
        assert Extends(a[v := w], b, D);
      }
    }
  }

  /** Splitting on an unassigned slot `v`: when every word of `D[v]` is
      refuted, there is no solution extending `a`. */
  lemma RefutedAll(c: Crossword, D: Domains, a: Assignment, v: Slot)
    requires v in c.VarSet() && v !in a && v in D && Refuted(c, D, a, v, D[v])
    ensures Unsolvable(c, D, a)
  {
    forall b | Extends(a, b, D) && IsComplete(c, b)
      ensures !IsConsistent(c, b)
    {
      assert v in b && b[v] in D[v];
    }
  }

  /** A solution that extends `a` with `v` given a word of its domain
      extends `a`. */
  lemma ExtendsWeaken(a: Assignment, b: Assignment, D: Domains, v: Slot, w: Word)
    requires v !in a && v in D && w in D[v] && Extends(a[v := w], b, D)
    ensures Extends(a, b, D)
  {
  }

  // ---------------------------------------------------------------------------
  // A crossword the search of `backtrack` gets wrong
  // ---------------------------------------------------------------------------

  /** Two slots of length 2 that cross at their first letters. */
  function Across2(): Slot { Slot(0, 0, Across, 2) }
  function Down2(): Slot { Slot(0, 0, Down, 2) }

  /** The two slots with the words "AB" and "BA". */
  function Corner(): Crossword {
    Crossword(2, 2, [Across2(), Down2()],
      map[(Across2(), Down2()) := (0, 0), (Down2(), Across2()) := (0, 0)], {"AB", "BA"})
  }

  /** The domains `solve` starts `backtrack` from on `Corner`. */
  function CornerDomains(): Domains {
    map[Across2() := {"AB", "BA"}, Down2() := {"AB", "BA"}]
  }

  /** `Corner` is well formed and its domains give every slot both
      words. */
  lemma CornerWellFormed()
    ensures Corner().WellFormed() && CornerDomains().Keys == Corner().VarSet()
  {
    var c := Corner();
    assert Distinct(c.variables);
    assert forall v :: v in c.variables ==> c.InGrid(v);
  }

  /** Node consistency removes nothing from the domains of `Corner`. */
  lemma CornerFitted()
    ensures NodeConsistent(CornerDomains()) == CornerDomains()
  {
    var D := CornerDomains();
    assert Fitted(D);
    NodeConsistentIdempotent(D);
  }

  /** Arc consistency removes nothing from the domains of `Corner`: both
      arcs are consistent already. */
  lemma CornerArcs()
    ensures ArcConsistent(Corner(), CornerDomains(), Across2(), Down2())
    ensures ArcConsistent(Corner(), CornerDomains(), Down2(), Across2())
  {
    var c, D := Corner(), CornerDomains();
    CornerWellFormed();
    assert Agree("AB", "AB", (0, 0)) && Agree("BA", "BA", (0, 0));
    assert Supported(c, Across2(), Down2(), "AB", D[Down2()]);
    assert Supported(c, Across2(), Down2(), "BA", D[Down2()]);
    assert Supported(c, Down2(), Across2(), "AB", D[Across2()]);
    assert Supported(c, Down2(), Across2(), "BA", D[Across2()]);
  }

  /** Once the across slot has a word, the down slot has no unassigned
      neighbour, so `order_domain_values` offers its whole domain. */
  lemma CornerOffersAll()
    ensures Corner().OpenNeighbors(Corner().variables, Down2(), {Across2()}) == []
  {
  }

  /** The search of `backtrack` can miss a solution: "AB" across and "BA"
      down, a pick it can make, is complete and takes its words from the
      domains but is not consistent, so `backtrack` returns None, although
      "AB" in both slots is a solution. */
  lemma GreedyMisses()
    ensures IsComplete(Corner(), map[Across2() := "AB", Down2() := "BA"])
    ensures Extends(map[], map[Across2() := "AB", Down2() := "BA"], CornerDomains())
    ensures !IsConsistent(Corner(), map[Across2() := "AB", Down2() := "BA"])
    ensures IsComplete(Corner(), map[Across2() := "AB", Down2() := "AB"])
    ensures Admits(CornerDomains(), map[Across2() := "AB", Down2() := "AB"])
    ensures IsConsistent(Corner(), map[Across2() := "AB", Down2() := "AB"])
  {
    var c := Corner();
    var picked := map[Across2() := "AB", Down2() := "BA"];
    assert Down2() in c.Neighbors(Across2());
    assert !SlotConsistent(c, picked, Across2()) by {
      assert !Agree("AB", "BA", (0, 0));
    }
    var solution := map[Across2() := "AB", Down2() := "AB"];
    assert c.Neighbors(Across2()) == {Down2()} && c.Neighbors(Down2()) == {Across2()};
    assert SlotConsistent(c, solution, Across2());
    assert SlotConsistent(c, solution, Down2());
  }

  // ---------------------------------------------------------------------------
  // The count behind order_domain_values
  // ---------------------------------------------------------------------------

  /** The words of `ys` that disagree with `w` at overlap `o`. */
  function Conflicts(w: Word, ys: set<Word>, o: (nat, nat)): set<Word> {
    set u | u in ys && !Agree(w, u, o)
  }

  /** The number of candidate words of the slots `ns` (neighbours of `x`) that
      choosing `w` for `x` would rule out. */
  function RuledOut(c: Crossword, D: Domains, x: Slot, ns: seq<Slot>, w: Word): nat
    requires c.WellFormed() && forall n :: n in ns ==> n in D && n in c.Neighbors(x)
  {
    if ns == [] then 0
    else
      var n := ns[|ns| - 1];
      NeighborsSymmetric(c, x, n);
      RuledOut(c, D, x, ns[..|ns| - 1], w) + |Conflicts(w, D[n], c.overlaps[(x, n)])|
  }

  /** Counting one more neighbour adds the candidates it loses. */
  lemma RuledOutStep(c: Crossword, D: Domains, x: Slot, ns: seq<Slot>, i: nat)
    requires c.WellFormed() && forall n :: n in ns ==> n in D && n in c.Neighbors(x)
    requires i < |ns| && (x, ns[i]) in c.overlaps
    ensures forall w ::
      RuledOut(c, D, x, ns[..i + 1], w) ==
      RuledOut(c, D, x, ns[..i], w) + |Conflicts(w, D[ns[i]], c.overlaps[(x, ns[i])])|
  {
    assert ns[..i + 1][..i] == ns[..i];
  }

  /** A tally of ruled-out counts over the first `i` neighbours, bumped by
      the conflicts with neighbour `i`, is the tally over the first `i + 1`. */
  lemma TallyStep(c: Crossword, D: Domains, x: Slot, ns: seq<Slot>, i: nat,
                  prev: map<Word, nat>, next: map<Word, nat>)
    requires c.WellFormed() && forall n :: n in ns ==> n in D && n in c.Neighbors(x)
    requires i < |ns| && (x, ns[i]) in c.overlaps
    requires forall w :: w in prev ==> prev[w] == RuledOut(c, D, x, ns[..i], w)
    requires next.Keys == prev.Keys
    requires forall w :: w in next ==> next[w] == prev[w] + |Conflicts(w, D[ns[i]], c.overlaps[(x, ns[i])])|
    ensures forall w :: w in next ==> next[w] == RuledOut(c, D, x, ns[..i + 1], w)
  {
    RuledOutStep(c, D, x, ns, i);
  }
}
