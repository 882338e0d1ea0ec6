/** The crossword generator: a constraint-satisfaction solver whose state is
    the candidate words of every slot. */
module Generate {
  import opened Wrappers
  import opened CrosswordGeometry
  import opened CrosswordCsp
  import opened Sets

  /** The number of words of `ys` that disagree with `w` at overlap `o`: the
      innermost counting loop of `order_domain_values`. */
  method CountConflicts(w: Word, ys: set<Word>, o: (nat, nat)) returns (count: nat)
    requires o.0 < |w| && forall u :: u in ys ==> o.1 < |u|
    ensures count == |Conflicts(w, ys, o)|
  {
    count := 0;
    var rest := ys;
    while rest != {}
      invariant rest <= ys
      invariant count == |Conflicts(w, ys - rest, o)|
      decreases rest
    {
      var u :| u in rest;
      var before := Conflicts(w, ys - rest, o);
      var after := Conflicts(w, ys - (rest - {u}), o);
      if w[o.0] != u[o.1] {
        assert after == before + {u} && u !in before;
        count := count + 1;
      } else {
        assert after == before;
      }
      rest := rest - {u};
    }
    assert ys - rest == ys;
  }

  /** The smallest element of a non-empty set of counts (the first key of
      Python's `sorted`). */
  method Smallest(keys: set<nat>) returns (m: nat)
    requires keys != {}
    ensures m in keys && forall k :: k in keys ==> m <= k
  {
    m :| m in keys;
    var rest := keys - {m};
    while rest != {}
      invariant m in keys && rest <= keys
      invariant forall k :: k in keys && k !in rest ==> m <= k
      decreases rest
    {
      var k :| k in rest;
      if k < m {
        m := k;
      }
      rest := rest - {k};
    }
  }

  /** The two inner loops of `order_domain_values` for one neighbour: every
      word of `values` has its count raised by the words of `ys` it disagrees
      with at overlap `o`. */
  method AddConflicts(values: map<Word, nat>, ys: set<Word>, o: (nat, nat)) returns (next: map<Word, nat>)
    requires forall w :: w in values ==> o.0 < |w|
    requires forall u :: u in ys ==> o.1 < |u|
    ensures next.Keys == values.Keys
    ensures forall w :: w in next ==> next[w] == values[w] + |Conflicts(w, ys, o)|
  {
    next := values;
    var words := values.Keys;
    while words != {}
      invariant words <= values.Keys && next.Keys == values.Keys
      invariant forall w :: w in next ==> next[w] == values[w] + if w in words then 0 else |Conflicts(w, ys, o)|
      decreases words
    {
      var w :| w in words;
      var count := CountConflicts(w, ys, o);
      next := next[w := next[w] + count];
      words := words - {w};
    }
  }

  /** The inner loop of `letter_grid`: write the letters of `word` along
      slot `v`; every other cell keeps its content. */
  method WriteWord(letters: array2<Option<char>>, v: Slot, word: Word)
    requires forall k :: 0 <= k < |word| ==>
      0 <= CellOf(v, k).0 < letters.Length0 && 0 <= CellOf(v, k).1 < letters.Length1
    modifies letters
    ensures forall k :: 0 <= k < |word| ==> letters[CellOf(v, k).0, CellOf(v, k).1] == Some(word[k])
    ensures forall i, j :: 0 <= i < letters.Length0 && 0 <= j < letters.Length1 && !Crosses(v, |word|, (i, j)) ==>
      letters[i, j] == old(letters[i, j])
  {
    var k := 0;
    while k < |word|
      invariant 0 <= k <= |word|
      invariant forall m :: 0 <= m < k ==> letters[CellOf(v, m).0, CellOf(v, m).1] == Some(word[m])
      invariant forall i, j :: 0 <= i < letters.Length0 && 0 <= j < letters.Length1 && !Crosses(v, k, (i, j)) ==>
        letters[i, j] == old(letters[i, j])
    {
      var (i, j) := CellOf(v, k);
      letters[i, j] := Some(word[k]);
      k := k + 1;
    }
  }

  /** The `sort` dictionary of `order_domain_values`: each count of `values`
      keyed to a word with that count; a later word with the same count
      replaces an earlier one. */
  method ByCount(values: map<Word, nat>) returns (sort: map<nat, Word>)
    ensures forall k :: k in sort ==> sort[k] in values && values[sort[k]] == k
    ensures forall w :: w in values ==> values[w] in sort
  {
    sort := map[];
    var rest := values.Keys;
    while rest != {}
      invariant rest <= values.Keys
      invariant forall k :: k in sort ==> sort[k] in values && values[sort[k]] == k
      invariant forall w :: w in values && w !in rest ==> values[w] in sort
      decreases rest
    {
      var w :| w in rest;
      sort := sort[values[w] := w];
      rest := rest - {w};
    }
  }

  /** The words of `sort` in increasing order of their counts: Python's
      `sorted` on the items of `sort`, then its values. */
  method Ascending(values: map<Word, nat>, sort: map<nat, Word>) returns (r: seq<Word>)
    requires forall k :: k in sort ==> sort[k] in values && values[sort[k]] == k
    ensures forall i :: 0 <= i < |r| ==> r[i] in values && values[r[i]] in sort && sort[values[r[i]]] == r[i]
    ensures forall i, j :: 0 <= i < j < |r| ==> values[r[i]] < values[r[j]]
    ensures forall k :: k in sort ==> sort[k] in r
  {
    r := [];
    var keys := sort.Keys;
    while keys != {}
      invariant keys <= sort.Keys
      invariant forall i :: 0 <= i < |r| ==>
        r[i] in values && values[r[i]] in sort && values[r[i]] !in keys && sort[values[r[i]]] == r[i]
      invariant forall i, j :: 0 <= i < j < |r| ==> values[r[i]] < values[r[j]]
      invariant forall i, k :: 0 <= i < |r| && k in keys ==> values[r[i]] < k
      invariant forall k :: k in sort && k !in keys ==> sort[k] in r
      decreases keys
    {
      var k := Smallest(keys);
      r := r + [sort[k]];
      keys := keys - {k};
    }
  }

  /** The words of a set, each once, in an arbitrary order (Python's
      iteration over a set). */
  method Enumerate(ws: set<Word>) returns (r: seq<Word>)
    ensures forall w :: w in r <==> w in ws
    ensures forall i, j :: 0 <= i < j < |r| ==> r[i] != r[j]
  {
    r := [];
    var rest := ws;
    while rest != {}
      invariant rest <= ws
      invariant forall w :: w in r <==> w in ws && w !in rest
      invariant forall i, j :: 0 <= i < j < |r| ==> r[i] != r[j]
      decreases rest
    {
      var w :| w in rest;
      r := r + [w];
      rest := rest - {w};
    }
  }

  /** The loops of `revise` over the words `u` of `y` and `w` of `x`: `w` is
      listed in `delete` when some `u` disagrees with it at overlap `o`, and in
      `save` when some `u` agrees. */
  method Compare(xs: set<Word>, ys: set<Word>, o: (nat, nat)) returns (delete: set<Word>, save: set<Word>)
    requires forall w :: w in xs ==> o.0 < |w|
    requires forall u :: u in ys ==> o.1 < |u|
    ensures forall w :: w in delete <==> w in xs && exists u :: u in ys && !Agree(w, u, o)
    ensures forall w :: w in save <==> w in xs && exists u :: u in ys && Agree(w, u, o)
  {
    delete, save := {}, {};
    var items := ys;
    while items != {}
      invariant items <= ys
      invariant forall w :: w in delete <==> w in xs && exists u :: u in ys - items && !Agree(w, u, o)
      invariant forall w :: w in save <==> w in xs && exists u :: u in ys - items && Agree(w, u, o)
      decreases items
    {
      var item :| item in items;
      var d, s := CompareWith(xs, item, o);
      delete, save := delete + d, save + s;
      items := items - {item};
    }
  }

  /** The inner loop of `revise` for one word `u` of `y`: the words of `x` it
      disagrees with, and those it agrees with. */
  method CompareWith(xs: set<Word>, u: Word, o: (nat, nat)) returns (delete: set<Word>, save: set<Word>)
    requires forall w :: w in xs ==> o.0 < |w|
    requires o.1 < |u|
    ensures forall w :: w in delete <==> w in xs && !Agree(w, u, o)
    ensures forall w :: w in save <==> w in xs && Agree(w, u, o)
  {
    delete, save := {}, {};
    var words := xs;
    while words != {}
      invariant words <= xs
      invariant forall w :: w in delete <==> w in xs - words && !Agree(w, u, o)
      invariant forall w :: w in save <==> w in xs - words && Agree(w, u, o)
      decreases words
    {
      var word :| word in words;
      if word[o.0] != u[o.1] {
        delete := delete + {word};
      } else {
        save := save + {word};
      }
      words := words - {word};
    }
  }

  class CrosswordCreator {
    const crossword: Crossword
    var domains: Domains

    /** The crossword is well formed and every slot, and nothing else, has a
        domain. */
    ghost predicate Valid()
      reads this
    {
      crossword.WellFormed() && domains.Keys == crossword.VarSet()
    }

    /** `__init__`: every slot starts with the whole vocabulary. */
    constructor (c: Crossword)
      requires c.WellFormed()
      ensures Valid() && crossword == c
      ensures forall v :: v in domains <==> v in c.variables
      ensures forall v :: v in domains ==> domains[v] == c.words
    {
      crossword := c;
      domains := map v | v in c.variables :: c.words;
    }

    /** `enforce_node_consistency`: drop from every domain the words whose
        length differs from the slot's. */
    method EnforceNodeConsistency()
      requires Valid()
      modifies this
      ensures Valid()
      ensures domains == NodeConsistent(old(domains))
    {
      ghost var D0 := domains;
      var vars := crossword.variables;
      var k := 0;
      while k < |vars|
        invariant 0 <= k <= |vars|
        invariant Valid()
        invariant forall v :: v in domains ==> domains[v] == if v in vars[..k] then FitWords(v, D0[v]) else D0[v]
      {
        var v := vars[k];
        DistinctAt(vars, k);
        FitDomain(v);
        assert vars[..k + 1] == vars[..k] + [v];
        k := k + 1;
      }
      assert vars[..k] == vars;
    }

    /** The body of the loop of `enforce_node_consistency` for one slot: remove,
        one at a time, the words of the wrong length. */
    method FitDomain(v: Slot)
      requires Valid() && v in domains
      modifies this
      ensures Valid()
      ensures domains == old(domains)[v := FitWords(v, old(domains)[v])]
    {
      ghost var D0 := domains;
      var words := domains[v];
      while words != {}
        invariant words <= D0[v]
        invariant domains.Keys == D0.Keys && forall u :: u in domains && u != v ==> domains[u] == D0[u]
        invariant forall w :: w in domains[v] <==> w in D0[v] && (w in words || |w| == v.length)
        decreases words
      {
        var w :| w in words;
        if |w| != v.length {
          domains := domains[v := domains[v] - {w}];
        }
        words := words - {w};
      }
      assert domains[v] == FitWords(v, D0[v]);
      assert domains == D0[v := FitWords(v, D0[v])];
    }

    /** `revise(x, y)`: remove from the domain of `x` every word that no word of
        `y` agrees with at their overlap; nothing happens when `y` is not a
        neighbour of `x`, and nothing is removed when `y` has no word left. */
    method Revise(x: Slot, y: Slot) returns (revised: bool)
      requires Valid() && Fitted(domains)
      modifies this
      ensures Valid() && Fitted(domains)
      ensures domains.Keys == old(domains).Keys && forall v :: v in domains ==> domains[v] <= old(domains)[v]
      ensures !revised ==> domains == old(domains)
      ensures y !in crossword.Neighbors(x) ==> !revised
      ensures y in crossword.Neighbors(x) ==>
        domains == old(domains)[x := Revised(crossword, old(domains), x, y)] &&
        (revised <==> Revised(crossword, old(domains), x, y) != old(domains)[x])
    {
      revised := false;
      if y !in crossword.Neighbors(x) {
        return;
      }
      NeighborsSymmetric(crossword, x, y);
      var o := crossword.overlaps[(x, y)];
      assert o.0 < x.length && o.1 < y.length;
      var delete, save := Compare(domains[x], domains[y], o);
      RevisedByComparison(crossword, domains, x, y, delete, save);
      delete := delete - save;
      ghost var kept := Revised(crossword, old(domains), x, y);
      if delete != {} {
        ghost var w :| w in delete;
        assert w in domains[x] && w !in kept;
        FittedShrink(domains, x, domains[x] - delete);
        domains := domains[x := domains[x] - delete];
        revised := true;
        assert domains == old(domains)[x := kept];
      } else {
        assert kept == domains[x];
        assert domains == old(domains)[x := kept];
      }
    }

    /** `ac3(arcs)`: the worklist propagation. The queue starts with every
        ordered pair of distinct slots, or with the arcs given; an arc is taken
        from the queue and revised, and when that shrinks the domain of `x`, the
        arcs into `x` from its other neighbours are queued again. Returns
        False as soon as a revise empties a domain, True once the queue is
        empty. The arc is taken from any position of the queue. */
    method AC3(arcs: Option<seq<(Slot, Slot)>>) returns (ok: bool)
      requires Valid() && Fitted(domains)
      requires arcs.Some? ==> forall e :: e in arcs.value ==> e.0 in crossword.variables
      modifies this
      ensures Valid() && Fitted(domains)
      ensures domains.Keys == old(domains).Keys && forall v :: v in domains ==> domains[v] <= old(domains)[v]
      ensures KeepsSolutions(crossword, old(domains), domains)
      ensures !ok ==> exists v :: v in domains && domains[v] == {} && old(domains)[v] != {}
      ensures ok ==> forall v :: v in domains && old(domains)[v] != {} ==> domains[v] != {}
      ensures ok ==> forall e :: e in Seeded(crossword, arcs) ==> ArcConsistent(crossword, domains, e.0, e.1)
      ensures (forall e :: e in Seeded(crossword, arcs) ==> ArcConsistent(crossword, old(domains), e.0, e.1)) ==>
        ok && domains == old(domains)
    {
      var queue: seq<(Slot, Slot)> := [];
      if arcs.Some? && arcs.value != [] {
        queue := arcs.value;
      }
      if arcs.None? {
        queue := AllArcs();
      }
      ghost var seeded := set e | e in queue;
      assert seeded == Seeded(crossword, arcs);
      ok := Propagate(queue, seeded);
    }

    /** The worklist loop of `ac3`, started on `queue` whose arcs are `seeded`:
        returns False as soon as a revise empties a domain, True once the queue
        is empty, and when every seeded arc already was arc consistent, it
        changes nothing. */
    method Propagate(queue0: seq<(Slot, Slot)>, ghost seeded: set<(Slot, Slot)>) returns (ok: bool)
      requires Valid() && Fitted(domains)
      requires forall e :: e in queue0 ==> e.0 in crossword.variables
      requires forall e :: e in seeded <==> e in queue0
      modifies this
      ensures Valid() && Fitted(domains)
      ensures domains.Keys == old(domains).Keys && forall v :: v in domains ==> domains[v] <= old(domains)[v]
      ensures KeepsSolutions(crossword, old(domains), domains)
      ensures !ok ==> exists v :: v in domains && domains[v] == {} && old(domains)[v] != {}
      ensures ok ==> forall v :: v in domains && old(domains)[v] != {} ==> domains[v] != {}
      ensures ok ==> forall e :: e in seeded ==> ArcConsistent(crossword, domains, e.0, e.1)
      ensures (forall e :: e in seeded ==> ArcConsistent(crossword, old(domains), e.0, e.1)) ==>
        ok && domains == old(domains)
    {
      ghost var D0 := domains;
      var queue := queue0;
      ghost var settled := forall e :: e in seeded ==> ArcConsistent(crossword, D0, e.0, e.1);
      while queue != []
        invariant Valid() && Fitted(domains)
        invariant domains.Keys == old(domains).Keys && forall v :: v in domains ==> domains[v] <= old(domains)[v]
        invariant KeepsSolutions(crossword, D0, domains)
        invariant forall v :: v in domains && old(domains)[v] != {} ==> domains[v] != {}
        invariant forall e :: e in queue ==> e.0 in crossword.variables
        invariant forall e :: e in seeded ==> e in queue || ArcConsistent(crossword, domains, e.0, e.1)
        invariant settled ==> domains == D0 && forall e :: e in queue ==> e in seeded
        decreases Size(domains, crossword.variables), |queue|
      {
        var k :| 0 <= k < |queue|;
        ghost var x, D := queue[k].0, domains;
        var emptied;
        emptied, queue := ProcessArc(queue, k, seeded, D0);
        if emptied {
          assert !settled;
          assert x in domains && domains[x] == {} && D[x] != {} && D[x] <= old(domains)[x];
          return false;
        }
      }
      return true;
    }

    /** One pass of the worklist loop of `ac3` on the arc `(x, y)` at position
        `k`: revise it; report when that empties the domain of `x`; otherwise
        drop the arc and, when the domain of `x` shrank, queue the arcs into
        `x` from its other neighbours. Either the domains shrink, or they stay
        the same and the queue gets shorter; every arc of `seeded` stays queued
        or consistent, and every solution the domains `D0` admit stays
        admitted. */
    method ProcessArc(queue: seq<(Slot, Slot)>, k: nat, ghost seeded: set<(Slot, Slot)>, ghost D0: Domains)
      returns (emptied: bool, next: seq<(Slot, Slot)>)
      requires Valid() && Fitted(domains) && KeepsSolutions(crossword, D0, domains)
      requires k < |queue| && forall e :: e in queue ==> e.0 in crossword.variables
      requires forall e :: e in seeded ==> e in queue || ArcConsistent(crossword, domains, e.0, e.1)
      modifies this
      ensures Valid() && Fitted(domains)
      ensures domains == AfterRevise(crossword, old(domains), queue[k].0, queue[k].1)
      ensures KeepsSolutions(crossword, D0, domains)
      ensures emptied <==> old(domains)[queue[k].0] != {} && domains[queue[k].0] == {}
      ensures !emptied ==> forall v :: v in domains && old(domains)[v] != {} ==> domains[v] != {}
      ensures !emptied ==> Requeued(crossword, queue, k, domains != old(domains), next)
      ensures !emptied ==> forall e :: e in next ==> e.0 in crossword.variables
      ensures !emptied ==> forall e :: e in seeded ==> e in next || ArcConsistent(crossword, domains, e.0, e.1)
      ensures !emptied ==>
        Size(domains, crossword.variables) < old(Size(domains, crossword.variables)) ||
        (domains == old(domains) && |next| < |queue|)
      ensures ArcConsistent(crossword, old(domains), queue[k].0, queue[k].1) ==>
        !emptied && domains == old(domains) && forall e :: e in next ==> e in queue
    {
      var (x, y) := queue[k];
      ghost var D := domains;
      var revised := ReviseArc(x, y, D0);
      ghost var settled := ArcConsistent(crossword, D, x, y);
      if settled {
        ConsistentArcStays(crossword, D, x, y);
      }
      if revised && |domains[x]| == 0 {
        return true, [];
      }
      emptied := false;
      next := Requeue(queue, k, revised);
      WorklistStep(crossword, D, queue, k, next, seeded);
      if settled {
        RequeuedUnrevised(crossword, queue, k, next);
      }
    }

    /** `revise(x, y)` inside `ac3`: the domains change exactly when it
        reports a revise, and keep every solution the domains `D0` admit. */
    method ReviseArc(x: Slot, y: Slot, ghost D0: Domains) returns (revised: bool)
      requires Valid() && Fitted(domains) && x in crossword.variables && KeepsSolutions(crossword, D0, domains)
      modifies this
      ensures Valid() && Fitted(domains)
      ensures domains == AfterRevise(crossword, old(domains), x, y)
      ensures revised <==> domains != old(domains)
      ensures revised ==> domains[x] < old(domains)[x]
      ensures KeepsSolutions(crossword, D0, domains)
    {
      ghost var D := domains;
      revised := Revise(x, y);
      if y in crossword.Neighbors(x) {
        ReviseKeepsSolutions(crossword, D0, D, x, y);
      }
    }

    /** The queue after the arc `(x, y)` at position `k` is handled: the arc
        dropped and, after a revise that shrank `x`, the arcs into `x` from
        its other neighbours appended, each once. */
    method Requeue(queue: seq<(Slot, Slot)>, k: nat, revised: bool) returns (next: seq<(Slot, Slot)>)
      requires Valid() && k < |queue|
      ensures Requeued(crossword, queue, k, revised, next)
      ensures forall i, j :: |queue| - 1 <= i < j < |next| ==> next[i] != next[j]
    {
      var rest := queue[..k] + queue[k + 1..];
      next := rest;
      if revised {
        var inbound := Inbound(queue[k].0, queue[k].1);
        next := rest + inbound;
        assert next[..|rest|] == rest && next[|rest|..] == inbound;
        forall i | |rest| <= i < |next|
          ensures next[i].1 == queue[k].0 && next[i].0 in crossword.Neighbors(queue[k].0) && next[i].0 != queue[k].1
        {
          assert next[i] == inbound[i - |rest|];
        }
      }
    }

    /** The arcs `(z, x)` for every neighbour `z` of `x` other than `y`, each
        once, which `ac3` queues again after revising `x` against `y`. */
    method Inbound(x: Slot, y: Slot) returns (added: seq<(Slot, Slot)>)
      requires Valid()
      ensures forall z :: z in crossword.Neighbors(x) && z != y ==> (z, x) in added
      ensures forall e :: e in added ==> e.1 == x && e.0 in crossword.Neighbors(x) && e.0 != y
      ensures forall i, j :: 0 <= i < j < |added| ==> added[i] != added[j]
    {
      added := [];
      var zs := crossword.Neighbors(x) - {y};
      while zs != {}
        invariant zs <= crossword.Neighbors(x) - {y}
        invariant forall z :: z in crossword.Neighbors(x) - {y} - zs ==> (z, x) in added
        invariant forall e :: e in added ==> e.1 == x && e.0 in crossword.Neighbors(x) - {y} - zs
        invariant forall i, j :: 0 <= i < j < |added| ==> added[i] != added[j]
        decreases zs
      {
        var z :| z in zs;
        added := added + [(z, x)];
        zs := zs - {z};
      }
    }

    /** The starting queue of `ac3(None)`: the pairs `(x, y)` of distinct
        slots, `x` in the outer loop and `y` in the inner one. */
    method AllArcs() returns (queue: seq<(Slot, Slot)>)
      requires Valid()
      ensures (set e | e in queue) == Seeded(crossword, None)
      ensures forall e :: e in queue ==> e.0 in crossword.variables
    {
      var vars := crossword.variables;
      queue := [];
      var xc := 0;
      while xc < |vars|
        invariant 0 <= xc <= |vars|
        invariant forall e :: e in queue <==> e.0 in vars[..xc] && e.1 in vars && e.0 != e.1
      {
        var yc := 0;
        while yc < |vars|
          invariant 0 <= yc <= |vars|
          invariant forall e :: e in queue <==>
            (e.0 in vars[..xc] && e.1 in vars && e.0 != e.1) ||
            (e.0 == vars[xc] && e.1 in vars[..yc] && e.0 != e.1)
        {
          if vars[xc] != vars[yc] {
            queue := queue + [(vars[xc], vars[yc])];
          }
          assert vars[..yc + 1] == vars[..yc] + [vars[yc]];
          yc := yc + 1;
        }
        assert vars[..yc] == vars;
        assert vars[..xc + 1] == vars[..xc] + [vars[xc]];
        xc := xc + 1;
      }
      assert vars[..xc] == vars;
    }

    /** `assignment_complete`: every slot with a domain has a word. */
    method AssignmentComplete(a: Assignment) returns (ok: bool)
      requires Valid()
      ensures ok <==> IsComplete(crossword, a)
    {
      var vs := domains.Keys;
      while vs != {}
        invariant vs <= domains.Keys
        invariant forall v :: v in domains.Keys - vs ==> v in a
        decreases vs
      {
        var v :| v in vs;
        if v !in a {
          return false;
        }
        vs := vs - {v};
      }
      return true;
    }

    /** `consistent`: every assigned word agrees with the words of its
        assigned neighbours and has its slot's length. */
    method Consistent(a: Assignment) returns (ok: bool)
      requires Valid() && Indexable(crossword, a)
      ensures ok <==> IsConsistent(crossword, a)
    {
      var vs := a.Keys;
      while vs != {}
        invariant vs <= a.Keys
        invariant forall v :: v in a.Keys - vs ==> SlotConsistent(crossword, a, v)
        decreases vs
      {
        var v :| v in vs;
        var fits := SlotFits(a, v);
        if !fits {
          return false;
        }
        vs := vs - {v};
      }
      return true;
    }

    /** The body of the loop of `consistent` for one assigned slot `v`: its
        assigned neighbours first, then its length. */
    method SlotFits(a: Assignment, v: Slot) returns (ok: bool)
      requires Valid() && Indexable(crossword, a) && v in a
      ensures ok <==> SlotConsistent(crossword, a, v)
    {
      var ns := crossword.Neighbors(v);
      while ns != {}
        invariant ns <= crossword.Neighbors(v)
        invariant forall n :: n in crossword.Neighbors(v) - ns && n in a ==>
          (v, n) in crossword.overlaps && Agree(a[v], a[n], crossword.overlaps[(v, n)])
        decreases ns
      {
        var n :| n in ns;
        if n in a {
          NeighborsSymmetric(crossword, v, n);
          var o := crossword.overlaps[(v, n)];
          assert o.0 < |a[v]| && o.1 < |a[n]|;
          if a[v][o.0] != a[n][o.1] {
            return false;
          }
        }
        ns := ns - {n};
      }
      return |a[v]| == v.length;
    }

    /** `select_unassigned_variable`: among the slots without a word, one
        with the fewest remaining candidates, ties broken by the most
        neighbours, remaining ties by a random choice. With no slot left to
        choose, the source fails on `count[0]`. */
    method SelectUnassignedVariable(a: Assignment) returns (v: Slot)
      requires Valid() && exists u :: u in crossword.variables && u !in a
      ensures v in domains && v !in a
      ensures forall u :: u in domains && u !in a ==> |domains[v]| <= |domains[u]|
      ensures forall u :: u in domains && u !in a && |domains[u]| == |domains[v]| ==>
        |crossword.Neighbors(u)| <= |crossword.Neighbors(v)|
    {
      var fewest, least := Fewest(a);
      if |fewest| == 1 {
        v :| v in fewest;
        SingleElement(fewest, v);
        return;
      }
      var busiest, most := Busiest(fewest);
      v :| v in busiest;
    }

    /** The first half of `select_unassigned_variable`: the slots without a
        word whose domain size is the least, `count[0]` after sorting. */
    method Fewest(a: Assignment) returns (fewest: set<Slot>, least: nat)
      requires Valid() && exists u :: u in crossword.variables && u !in a
      ensures fewest != {}
      ensures forall u :: u in fewest <==> u in domains && u !in a && |domains[u]| == least
      ensures forall u :: u in domains && u !in a ==> least <= |domains[u]|
    {
      var possible := domains.Keys - a.Keys;
      var u0 :| u0 in crossword.variables && u0 !in a;
      least := |domains[u0]|;
      var rest := possible - {u0};
      while rest != {}
        invariant rest <= possible
        invariant exists u :: u in possible && |domains[u]| == least
        invariant forall u :: u in possible && u !in rest ==> least <= |domains[u]|
        decreases rest
      {
        var u :| u in rest;
        if |domains[u]| < least {
          least := |domains[u]|;
        }
        rest := rest - {u};
      }
      fewest := set u | u in possible && |domains[u]| == least;
    }

    /** The second half of `select_unassigned_variable`: the slots of
        `fewest` with the most neighbours, `count_degree[-1]` after sorting. */
    method Busiest(fewest: set<Slot>) returns (busiest: set<Slot>, most: nat)
      requires Valid() && fewest != {}
      ensures busiest != {}
      ensures forall u :: u in busiest <==> u in fewest && |crossword.Neighbors(u)| == most
      ensures forall u :: u in fewest ==> |crossword.Neighbors(u)| <= most
    {
      var u0 :| u0 in fewest;
      most := |crossword.Neighbors(u0)|;
      var rest := fewest - {u0};
      while rest != {}
        invariant rest <= fewest
        invariant exists u :: u in fewest && |crossword.Neighbors(u)| == most
        invariant forall u :: u in fewest && u !in rest ==> |crossword.Neighbors(u)| <= most
        decreases rest
      {
        var u :| u in rest;
        if |crossword.Neighbors(u)| > most {
          most := |crossword.Neighbors(u)|;
        }
        rest := rest - {u};
      }
      busiest := set u | u in fewest && |crossword.Neighbors(u)| == most;
    }

    /** The count `order_domain_values` ranks a word `w` of `x` by: the
        candidates of the unassigned neighbours of `x` that `w` rules out. */
    ghost function Rank(x: Slot, a: Assignment, w: Word): nat
      reads this
      requires Valid() && x in domains
    {
      RuledOut(crossword, domains, x, crossword.OpenNeighbors(crossword.variables, x, a.Keys), w)
    }

    /** `order_domain_values`: with no unassigned neighbour, the domain of
        `x` itself; otherwise one word of the domain for each distinct count
        of ruled-out candidates, fewest first (words that tie on the count
        collapse into one entry of the source's `sort` dictionary). */
    method OrderDomainValues(x: Slot, a: Assignment) returns (r: seq<Word>)
      requires Valid() && Fitted(domains) && x in domains
      ensures forall k :: 0 <= k < |r| ==> r[k] in domains[x]
      ensures crossword.OpenNeighbors(crossword.variables, x, a.Keys) == [] ==>
        (forall w :: w in domains[x] ==> w in r) && (forall i, j :: 0 <= i < j < |r| ==> r[i] != r[j])
      ensures crossword.OpenNeighbors(crossword.variables, x, a.Keys) != [] ==>
        (forall i, j :: 0 <= i < j < |r| ==> Rank(x, a, r[i]) < Rank(x, a, r[j])) &&
        (forall w :: w in domains[x] ==> exists k :: 0 <= k < |r| && Rank(x, a, r[k]) == Rank(x, a, w))
    {
      var ns := crossword.OpenNeighbors(crossword.variables, x, a.Keys);
      if ns == [] {
        r := Enumerate(domains[x]);
        return;
      }
      var values := Tally(x, ns);
      var sort := ByCount(values);
      r := Ascending(values, sort);
      forall w | w in domains[x]
        ensures exists k :: 0 <= k < |r| && Rank(x, a, r[k]) == Rank(x, a, w)
      {
        var k :| 0 <= k < |r| && r[k] == sort[values[w]];
      }
    }

    /** The counting loops of `order_domain_values`: for every word of `x`,
        the candidates of the neighbours `ns` it disagrees with. */
    method Tally(x: Slot, ns: seq<Slot>) returns (values: map<Word, nat>)
      requires Valid() && Fitted(domains) && x in domains
      requires forall n :: n in ns ==> n in domains && n in crossword.Neighbors(x)
      ensures values.Keys == domains[x]
      ensures forall w :: w in values ==> values[w] == RuledOut(crossword, domains, x, ns, w)
    {
      values := map w | w in domains[x] :: 0;
      var i := 0;
      while i < |ns|
        invariant 0 <= i <= |ns|
        invariant values.Keys == domains[x]
        invariant forall w :: w in values ==> values[w] == RuledOut(crossword, domains, x, ns[..i], w)
      {
        var n := ns[i];
        NeighborsSymmetric(crossword, x, n);
        var o := crossword.overlaps[(x, n)];
        var prev := values;
        values := AddConflicts(values, domains[n], o);
        TallyStep(crossword, domains, x, ns, i, prev, values);
        i := i + 1;
      }
      assert ns[..i] == ns;
    }

    /** `letter_grid`: a `height` by `width` grid holding, in every cell
        some assigned word crosses, a letter one of those words puts there,
        and nothing elsewhere. */
    method LetterGrid(a: Assignment) returns (letters: array2<Option<char>>)
      requires forall v, k :: v in a && 0 <= k < |a[v]| ==> crossword.HasCell(CellOf(v, k))
      ensures fresh(letters)
      ensures letters.Length0 == crossword.height && letters.Length1 == crossword.width
      ensures forall i, j :: 0 <= i < crossword.height && 0 <= j < crossword.width ==>
        (letters[i, j].None? <==> !Covered(a, a.Keys, (i, j)))
      ensures forall i, j :: 0 <= i < crossword.height && 0 <= j < crossword.width && letters[i, j].Some? ==>
        Written(a, a.Keys, (i, j), letters[i, j].value)
    {
      letters := new Option<char>[crossword.height, crossword.width]((i, j) => None);
      ghost var done: set<Slot> := {};
      var rest := a.Keys;
      while rest != {}
        invariant rest <= a.Keys && done == a.Keys - rest
        invariant forall i, j :: 0 <= i < crossword.height && 0 <= j < crossword.width ==>
          (letters[i, j].None? <==> !Covered(a, done, (i, j)))
        invariant forall i, j :: 0 <= i < crossword.height && 0 <= j < crossword.width && letters[i, j].Some? ==>
          Written(a, done, (i, j), letters[i, j].value)
        decreases rest
      {
        var v :| v in rest;
        WriteWord(letters, v, a[v]);
        rest := rest - {v};
        done := done + {v};
      }
    }

    /** `backtrack`: despite its name, a greedy search. While some slot has
        no word, pick one with `select_unassigned_variable`, give it a random
        word of `order_domain_values` (stopping when there is none) and run
        `ac3` on every arc, ignoring its verdict. The assignment is returned
        when it is complete and consistent, otherwise nothing: either some
        slot was left with no candidate, or the search reached a complete
        assignment from the domains that is not consistent. */
    method Backtrack(a0: Assignment) returns (r: Option<Assignment>)
      requires Valid() && Fitted(domains) && Covers(crossword, a0)
      modifies this
      ensures Valid() && Fitted(domains)
      ensures domains.Keys == old(domains).Keys && forall v :: v in domains ==> domains[v] <= old(domains)[v]
      ensures KeepsSolutions(crossword, old(domains), domains)
      ensures r.Some? ==> IsComplete(crossword, r.value) && IsConsistent(crossword, r.value)
      ensures r.Some? ==> Extends(a0, r.value, old(domains))
      ensures r.None? ==>
        (exists v :: v in domains && domains[v] == {}) ||
        (exists a :: Extends(a0, a, old(domains)) && IsComplete(crossword, a) && !IsConsistent(crossword, a))
    {
      var a := a0;
      ghost var dead: Option<Slot> := None;
      var done := AssignmentComplete(a);
      while !done
        invariant Valid() && Fitted(domains)
        invariant domains.Keys == old(domains).Keys && forall v :: v in domains ==> domains[v] <= old(domains)[v]
        invariant KeepsSolutions(crossword, old(domains), domains)
        invariant Covers(crossword, a) && Extends(a0, a, old(domains))
        invariant done <==> IsComplete(crossword, a)
        invariant dead == None
        decreases |crossword.VarSet() - a.Keys|
      {
        var stuck, v, w := Choose(a);
        if stuck {
          dead := Some(v);
          break;
        }
        Extend(crossword, domains, a, v, w);
        ExtendsStep(a0, a, old(domains), v, w);
        a := a[v := w];
        ghost var D := domains;
        var _ := AC3(None);
        KeepsTransitive(crossword, old(domains), D, domains);
        done := AssignmentComplete(a);
      }
      assert dead.Some? ==> dead.value in domains && domains[dead.value] == {};
      r := Verdict(a);
    }

    /** The end of `backtrack`: the assignment when it is complete and
        consistent, otherwise nothing. */
    method Verdict(a: Assignment) returns (r: Option<Assignment>)
      requires Valid() && Covers(crossword, a)
      ensures r.Some? <==> IsComplete(crossword, a) && IsConsistent(crossword, a)
      ensures r.Some? ==> r.value == a
    {
      var complete := AssignmentComplete(a);
      if complete {
        CoversIndexable(crossword, a);
        var ok := Consistent(a);
        if ok {
          return Some(a);
        }
      }
      return None;
    }

    /** The first half of the body of the loop of `backtrack`: the slot
        `select_unassigned_variable` picks and a random word of its
        `order_domain_values`; `stuck` when there is none, which is exactly
        when that slot has no candidate left. */
    method Choose(a: Assignment) returns (stuck: bool, v: Slot, w: Word)
      requires Valid() && Fitted(domains) && !IsComplete(crossword, a)
      ensures v in domains && v !in a
      ensures forall u :: u in domains && u !in a ==> |domains[v]| <= |domains[u]|
      ensures forall u :: u in domains && u !in a && |domains[u]| == |domains[v]| ==>
        |crossword.Neighbors(u)| <= |crossword.Neighbors(v)|
      ensures stuck <==> domains[v] == {}
      ensures !stuck ==> w in domains[v]
    {
      v := SelectUnassignedVariable(a);
      var dom := OrderDomainValues(v, a);
      if |dom| == 0 {
        return true, v, "";
      }
      assert dom[0] in dom;
      w :| w in dom;
      stuck := false;
    }

    /** The search `backtrack` sets out to be: complete backtracking. Give an
        unassigned slot each word of its domain in turn, keep only consistent
        assignments, and search on from each; undo and try the next word when
        that fails. It finds a solution extending `a` exactly when there is
        one. */
    method Search(a: Assignment) returns (r: Option<Assignment>)
      requires Valid() && Fitted(domains) && Covers(crossword, a)
      ensures r.Some? ==> IsComplete(crossword, r.value) && IsConsistent(crossword, r.value)
      ensures r.Some? ==> Extends(a, r.value, domains)
      ensures r.None? ==> Unsolvable(crossword, domains, a)
      decreases |crossword.VarSet() - a.Keys|, 2
    {
      var complete := AssignmentComplete(a);
      if complete {
        r := Verdict(a);
        if r.None? {
          InconsistentUnsolvable(crossword, domains, a);
        }
        return;
      }
      var v := SelectUnassignedVariable(a);
      var words := Enumerate(domains[v]);
      r := TryWords(a, v, words);
      if r.None? {
        assert WordSet(words) == domains[v];
        RefutedAll(crossword, domains, a, v);
      }
    }

    /** The loop of `Search` over the words of slot `v`: the first word from
        which the search finds a solution, or nothing when none does. */
    method TryWords(a: Assignment, v: Slot, words: seq<Word>) returns (r: Option<Assignment>)
      requires Valid() && Fitted(domains) && Covers(crossword, a)
      requires v in domains && v !in a && forall w :: w in words ==> w in domains[v]
      ensures r.Some? ==> IsComplete(crossword, r.value) && IsConsistent(crossword, r.value)
      ensures r.Some? ==> Extends(a, r.value, domains)
      ensures r.None? ==> Refuted(crossword, domains, a, v, WordSet(words))
      decreases |crossword.VarSet() - a.Keys|, 1
    {
      var i := 0;
      while i < |words|
        invariant 0 <= i <= |words|
        invariant Refuted(crossword, domains, a, v, WordSet(words[..i]))
      {
        r := TryWord(a, v, words[i]);
        if r.Some? {
          return;
        }
        RefutedMore(crossword, domains, a, v, WordSet(words[..i]), words[i]);
        assert WordSet(words[..i + 1]) == WordSet(words[..i]) + {words[i]} by {
          assert words[..i + 1] == words[..i] + [words[i]];
        }
        i := i + 1;
      }
      assert words[..i] == words;
      return None;
    }

    /** One word `w` for slot `v` in `Search`: search on from `a` with `v`
        given `w` when that is consistent. */
    method TryWord(a: Assignment, v: Slot, w: Word) returns (r: Option<Assignment>)
      requires Valid() && Fitted(domains) && Covers(crossword, a)
      requires v in domains && v !in a && w in domains[v]
      ensures r.Some? ==> IsComplete(crossword, r.value) && IsConsistent(crossword, r.value)
      ensures r.Some? ==> Extends(a, r.value, domains)
      ensures r.None? ==> Unsolvable(crossword, domains, a[v := w])
      decreases |crossword.VarSet() - a.Keys|, 0
    {
      Extend(crossword, domains, a, v, w);
      var b := a[v := w];
      CoversIndexable(crossword, b);
      var ok := Consistent(b);
      if !ok {
        InconsistentUnsolvable(crossword, domains, b);
        return None;
      }
      r := Search(b);
      if r.Some? {
        ExtendsWeaken(a, r.value, domains, v, w);
      }
    }

    /** `solve`: node consistency, then `ac3` on every arc (its verdict
        unused), then the search from the empty assignment; the complete
        `Search` stands in for `backtrack`. A solution fills every slot with a
        word of its starting domain, consistently; no solution means there is
        none. */
    method Solve() returns (r: Option<Assignment>)
      requires Valid()
      modifies this
      ensures Valid() && Fitted(domains)
      ensures domains.Keys == old(domains).Keys && forall v :: v in domains ==> domains[v] <= old(domains)[v]
      ensures KeepsSolutions(crossword, old(domains), domains)
      ensures r.Some? ==> IsComplete(crossword, r.value) && IsConsistent(crossword, r.value)
      ensures r.Some? ==> Admits(old(domains), r.value)
      ensures r.None? ==> forall b :: IsComplete(crossword, b) && Admits(old(domains), b) ==> !IsConsistent(crossword, b)
    {
      EnforceNodeConsistency();
      NodeConsistentKeeps(crossword, old(domains));
      ghost var D := domains;
      var _ := AC3(None);
      KeepsTransitive(crossword, old(domains), D, domains);
      r := Search(map[]);
    }
  }
}
