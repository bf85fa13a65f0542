/** Sums of a weight over finite sets, and the sizes of sets listed by sequences. */
module Sets {

  ghost function Sum(s: set<nat>, w: nat -> nat): nat {
    if s == {} then 0
    else
      var x :| x in s;
      w(x) + Sum(s - {x}, w)
  }

  /** The sum does not depend on the order in which the elements are taken. */
  lemma {:induction false} SumRemove(s: set<nat>, w: nat -> nat, x: nat)
    requires x in s
    ensures Sum(s, w) == w(x) + Sum(s - {x}, w)
  {
    var y :| y in s && Sum(s, w) == w(y) + Sum(s - {y}, w);
    if y != x {
      SumRemove(s - {y}, w, x);
      SumRemove(s - {x}, w, y);
      assert s - {y} - {x} == s - {x} - {y};
    }
  }

  lemma SumAdd(s: set<nat>, w: nat -> nat, x: nat)
    requires x !in s
    ensures Sum(s + {x}, w) == Sum(s, w) + w(x)
  {
    SumRemove(s + {x}, w, x);
    assert s + {x} - {x} == s;
  }

  lemma {:induction false} SumDisjoint(a: set<nat>, b: set<nat>, w: nat -> nat)
    requires a !! b
    ensures Sum(a + b, w) == Sum(a, w) + Sum(b, w)
  {
    if a == {} {
      assert a + b == b;
    } else {
      var x :| x in a;
      SumRemove(a, w, x);
      SumDisjoint(a - {x}, b, w);
      SumRemove(a + b, w, x);
      assert a + b - {x} == (a - {x}) + b;
    }
  }

  lemma SumSplit(s: set<nat>, t: set<nat>, w: nat -> nat)
    ensures Sum(s, w) == Sum(s * t, w) + Sum(s - t, w)
  {
    assert s == s * t + (s - t);
    SumDisjoint(s * t, s - t, w);
  }

  lemma SumMonotone(s: set<nat>, t: set<nat>, w: nat -> nat)
    requires s <= t
    ensures Sum(s, w) <= Sum(t, w)
  {
    SumSplit(t, s, w);
    assert t * s == s;
  }

  predicate Distinct(q: seq<nat>) {
    forall i, j | 0 <= i < j < |q| :: q[i] != q[j]
  }

  function AsSet(q: seq<nat>): set<nat> {
    set x | x in q
  }

  lemma {:induction false} DistinctSize(q: seq<nat>)
    requires Distinct(q)
    ensures |AsSet(q)| == |q|
  {
    if q != [] {
      var init, last := q[..|q| - 1], q[|q| - 1];
      DistinctSize(init);
      assert AsSet(q) == AsSet(init) + {last};
      assert last !in AsSet(init);
    }
  }

  lemma SubsetSize(a: set<nat>, b: set<nat>)
    requires a <= b
    ensures |a| <= |b|
    ensures a != b ==> |a| < |b|
  {
    assert b == a + (b - a);
  }

  lemma AsSetEmpty()
    ensures AsSet([]) == {}
  {
  }

  lemma AsSetAppend(q: seq<nat>, x: nat)
    ensures AsSet(q + [x]) == AsSet(q) + {x}
  {
  }
}
