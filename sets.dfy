/** Cardinality facts about finite sets used by both the crossword solver
    and the minesweeper knowledge base. */
module Sets {
  /** A proper subset is smaller. */
  lemma ProperSubsetSmaller<T>(a: set<T>, b: set<T>)
    requires a < b
    ensures |a| < |b|
  {
    var w :| w in b && w !in a;
    var rest := b - a;
    assert w in rest;
    assert a * rest == {} && a + rest == b;
    assert |a + rest| + |a * rest| == |a| + |rest|;
  }

  /** A subset is no larger. */
  lemma CardinalityOfSubset<T>(a: set<T>, b: set<T>)
    requires a <= b
    ensures |a| <= |b|
  {
    if a != b {
      ProperSubsetSmaller(a, b);
    }
  }

  /** A set of one element is that element's singleton. */
  lemma SingleElement<T>(s: set<T>, v: T)
    requires |s| == 1 && v in s
    ensures s == {v}
  {
    var rest := s - {v};
    assert |s| == |rest| + 1;
    assert |rest| == 0;
  }

  /** Adding one element outside `q` to `q` adds one to its overlap with
      `a` exactly when the element is in `a`. */
  lemma OverlapInsert<T>(a: set<T>, q: set<T>, c: T)
    requires c !in q
    ensures |a * (q + {c})| == |a * q| + (if c in a then 1 else 0)
    ensures |(q + {c}) * a| == |q * a| + (if c in a then 1 else 0)
  {
    assert a * (q + {c}) == (q + {c}) * a && a * q == q * a;
    if c in a {
      assert a * (q + {c}) == a * q + {c};
    } else {
      assert a * (q + {c}) == a * q;
    }
  }

  /** The overlap of `a` with the union of disjoint `m` and `s` splits into
      its overlap with `m` and the overlap of the rest of `a` with `s`. */
  lemma OverlapUnion<T>(a: set<T>, m: set<T>, s: set<T>)
    requires m !! s
    ensures |a * (m + s)| == |a * m| + |(a - m) * s|
  {
    assert a * (m + s) == a * m + (a - m) * s;
    assert a * m !! (a - m) * s;
  }

  /** Taking away `m0` and then what `m` adds to it is taking away `m`. */
  lemma MinusGrown<T>(a: set<T>, m0: set<T>, m: set<T>)
    requires m0 <= m
    ensures a - m0 - (m - m0) == a - m
  {
  }

  /** Moving `e` out of `todo`, a part of `all`, adds it to what `all` has
      beyond `todo`. */
  lemma MoveOne<T>(all: set<T>, todo: set<T>, e: T)
    requires e in todo && todo <= all
    ensures (all - todo) + {e} == all - (todo - {e})
  {
  }

  /** Taking `e` out of `todo` leaves `todo + keep` as it is when `e` is in
      `keep`, and takes `e` out of it otherwise. */
  lemma DropOne<T>(todo: set<T>, keep: set<T>, e: T)
    requires e in todo
    ensures e in keep ==> todo + keep == (todo - {e}) + keep
    ensures e !in keep ==> (todo + keep) - {e} == (todo - {e}) + keep
  {
  }

  /** Removing `s` and then what `m` has beyond `s` is removing both. */
  lemma MinusBoth<T>(a: set<T>, s: set<T>, m: set<T>)
    ensures (a - s) - (m - s) == a - s - m
    ensures (a - s) * (m - s) == a * (m - s)
  {
  }

  /** Removing from `a` elements outside `p` leaves its overlap with `p`. */
  lemma MinusOutside<T>(a: set<T>, s: set<T>, p: set<T>)
    requires s !! p
    ensures (a - s) * p == a * p
  {
  }

  /** What is left of `a` beside an empty set is `a` itself. */
  lemma NothingLeft<T>(a: set<T>, e: set<T>)
    requires e == {}
    ensures a - e == a && e + a == a
  {
  }
}
