/**
 * The Kotlin collection operations the model relies on: `filter`, `count`,
 * and the map built by `associate` / `hashMapOf(*pairs)`, where a later pair
 * overwrites an earlier one with the same key.
 */
module Collections {

  /** `xs.filter(p)`: the elements satisfying `p`, in their original order. */
  function Filter<T>(xs: seq<T>, p: T -> bool): (r: seq<T>)
    ensures |r| <= |xs|
  {
    if xs == [] then [] else Filter(xs[..|xs| - 1], p) + (if p(xs[|xs| - 1]) then [xs[|xs| - 1]] else [])
  }

  /** An element is kept exactly when it is in the list and satisfies the predicate. */
  lemma {:induction false} FilterMembers<T>(xs: seq<T>, p: T -> bool)
    ensures forall x :: x in Filter(xs, p) <==> x in xs && p(x)
  {
    if xs != [] {
      var init := xs[..|xs| - 1];
      FilterMembers(init, p);
      assert xs == init + [xs[|xs| - 1]];
    }
  }

  /** Filtering a list with a first element decides that element, then filters the rest. */
  lemma FilterCons<T>(x: T, xs: seq<T>, p: T -> bool)
    ensures Filter([x] + xs, p) == (if p(x) then [x] else []) + Filter(xs, p)
  {
    assert [x][..0] == [];
    FilterAppend([x], xs, p);
  }

  /**
   * Moving the kept elements `h` of a list past a front element `y` that is
   * not kept along with them leaves the filtered list's order unchanged.
   */
  lemma FilterPast<T>(y: T, rest: seq<T>, h: seq<T>, ys: seq<T>, p: T -> bool)
    requires Filter(rest, p) == h + Filter(ys, p)
    requires h == [] || !p(y)
    ensures Filter([y] + rest, p) == h + Filter([y] + ys, p)
  {
    var head: seq<T> := if p(y) then [y] else [];
    var kept := Filter(ys, p);
    calc {
      Filter([y] + rest, p);
      { FilterCons(y, rest, p); }
      head + (h + kept);
      { if p(y) { assert h == []; } else { assert head == []; } }
      h + (head + kept);
      { FilterCons(y, ys, p); }
      h + Filter([y] + ys, p);
    }
  }

  /** Filtering works piecewise: the kept elements of `a + b` are those of `a` followed by those of `b`. */
  lemma {:induction false} FilterAppend<T>(a: seq<T>, b: seq<T>, p: T -> bool)
    ensures Filter(a + b, p) == Filter(a, p) + Filter(b, p)
    decreases |b|
  {
    if b == [] {
      assert a + b == a;
    } else {
      var init := b[..|b| - 1];
      var x := b[|b| - 1];
      assert (a + b)[..|a + b| - 1] == a + init;
      assert (a + b)[|a + b| - 1] == x;
      FilterAppend(a, init, p);
    }
  }

  /** Filtering a list that satisfies the predicate throughout keeps all of it. */
  lemma {:induction false} FilterAll<T>(xs: seq<T>, p: T -> bool)
    requires forall i :: 0 <= i < |xs| ==> p(xs[i])
    ensures Filter(xs, p) == xs
  {
    if xs != [] {
      FilterAll(xs[..|xs| - 1], p);
    }
  }

  /** `xs.count(p)`. */
  function Count<T>(xs: seq<T>, p: T -> bool): (n: nat)
    ensures n <= |xs|
  {
    if xs == [] then 0 else Count(xs[..|xs| - 1], p) + (if p(xs[|xs| - 1]) then 1 else 0)
  }

  /** Counting is filtering and taking the length. */
  lemma {:induction false} CountIsFilterLength<T>(xs: seq<T>, p: T -> bool)
    ensures Count(xs, p) == |Filter(xs, p)|
  {
    if xs != [] {
      CountIsFilterLength(xs[..|xs| - 1], p);
    }
  }

  /** Filtering around one kept element. */
  lemma FilterSplit<T>(a: seq<T>, x: T, b: seq<T>, p: T -> bool)
    requires p(x)
    ensures Filter(a + [x] + b, p) == Filter(a, p) + [x] + Filter(b, p)
  {
    FilterAppend(a + [x], b, p);
    FilterAppend(a, [x], p);
    assert [x][..0] == [];
  }

  /**
   * The map `associate { f(it) }` / `hashMapOf(*xs.map(f))` builds: the pairs
   * put in order, so later pairs win.
   */
  function AssociateBy<T, K, V>(xs: seq<T>, f: T -> (K, V)): map<K, V> {
    if xs == [] then map[] else AssociateBy(xs[..|xs| - 1], f)[f(xs[|xs| - 1]).0 := f(xs[|xs| - 1]).1]
  }

  /** The keys of the map are the keys of the pairs. */
  lemma {:induction false} AssociateByKeys<T, K, V>(xs: seq<T>, f: T -> (K, V))
    ensures forall k :: k in AssociateBy(xs, f) ==> exists i :: 0 <= i < |xs| && f(xs[i]).0 == k
    ensures forall i :: 0 <= i < |xs| ==> f(xs[i]).0 in AssociateBy(xs, f)
  {
    if xs != [] {
      var init := xs[..|xs| - 1];
      AssociateByKeys(init, f);
      forall k | k in AssociateBy(xs, f) ensures exists i :: 0 <= i < |xs| && f(xs[i]).0 == k {
        if k != f(xs[|xs| - 1]).0 {
          assert k in AssociateBy(init, f);
          var i :| 0 <= i < |init| && f(init[i]).0 == k;
          assert xs[i] == init[i];
        }
      }
      forall i | 0 <= i < |xs| ensures f(xs[i]).0 in AssociateBy(xs, f) {
        if i < |init| {
          assert init[i] == xs[i];
        }
      }
    }
  }

  /** A pair that no later pair overrides gives the value of its key: the last pair with a key wins. */
  lemma {:induction false} AssociateByLastWins<T, K, V>(a: seq<T>, x: T, b: seq<T>, f: T -> (K, V))
    requires forall i :: 0 <= i < |b| ==> f(b[i]).0 != f(x).0
    ensures f(x).0 in AssociateBy(a + [x] + b, f) && AssociateBy(a + [x] + b, f)[f(x).0] == f(x).1
    decreases |b|
  {
    if b == [] {
      assert a + [x] + b == a + [x];
      assert (a + [x])[..|a|] == a;
    } else {
      var init := b[..|b| - 1];
      var s := a + [x] + b;
      assert s[..|s| - 1] == a + [x] + init;
      assert s[|s| - 1] == b[|b| - 1];
      AssociateByLastWins(a, x, init, f);
    }
  }

  /** The keys of the map built from the kept elements are the keys of the elements that satisfy the predicate. */
  lemma AssociateByFilterKeys<T, K, V>(xs: seq<T>, p: T -> bool, f: T -> (K, V))
    ensures forall k :: k in AssociateBy(Filter(xs, p), f) <==> exists x :: x in xs && p(x) && f(x).0 == k
  {
    var kept := Filter(xs, p);
    FilterMembers(xs, p);
    AssociateByKeys(kept, f);
    forall k | k in AssociateBy(kept, f) ensures exists x :: x in xs && p(x) && f(x).0 == k {
      var i :| 0 <= i < |kept| && f(kept[i]).0 == k;
      assert kept[i] in kept;
    }
    forall k | exists x :: x in xs && p(x) && f(x).0 == k ensures k in AssociateBy(kept, f) {
      var x :| x in xs && p(x) && f(x).0 == k;
      assert x in kept;
      var i :| 0 <= i < |kept| && kept[i] == x;
    }
  }
}
