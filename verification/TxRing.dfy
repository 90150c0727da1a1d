/** The order that a std::map keyed by TxSequence gives to a send window that may
    wrap around zero: successor of a key, the arc from the first key to the last
    assigned number, and the walk along that arc. */
module TxRing {
  import opened Basics

  predicate IsLeast(s: set<Seq64>, m: Seq64) {
    m in s && forall x :: x in s ==> m <= x
  }

  lemma {:induction false} LeastExists(s: set<Seq64>)
    requires s != {}
    ensures exists m :: IsLeast(s, m)
  {
    var a :| a in s;
    var rest := s - {a};
    assert forall x :: x in s <==> x == a || x in rest;
    if rest == {} {
      assert IsLeast(s, a);
    } else {
      LeastExists(rest);
      var b :| IsLeast(rest, b);
      assert IsLeast(s, if a < b then a else b);
    }
  }

  /** begin() of a non-empty ordered map. */
  function Least(s: set<Seq64>): (m: Seq64)
    requires s != {}
    ensures IsLeast(s, m)
  {
    LeastExists(s);
    var m :| m in s && IsLeast(s, m);
    m
  }

  /** The key after `k` in map order, continuing with begin() after the last one. */
  function NextKey(keys: set<Seq64>, k: Seq64): (n: Seq64)
    requires keys != {}
    ensures n in keys
  {
    var above := set x | x in keys && k < x;
    if above != {} then Least(above) else Least(keys)
  }

  /** Map order with the jump to begin() is circular order: no other key lies
      strictly between a key and its successor. */
  lemma NextKeyIsNearest(keys: set<Seq64>, k: Seq64)
    requires keys - {k} != {}
    ensures NextKey(keys, k) != k
    ensures forall x :: x in keys && x != k ==> Dist(k, NextKey(keys, k)) <= Dist(k, x)
  {
    var above := set x | x in keys && k < x;
    var other :| other in keys - {k};
    if above == {} {
      assert other !in above;
    }
    var n := NextKey(keys, k);
    assert n == if above != {} then Least(above) else Least(keys);
    forall x | x in keys && x != k
      ensures Dist(k, n) <= Dist(k, x)
    {
      if k < x {
        assert x in above;
      } else if above == {} {
        assert n <= x;
      } else {
        assert n in above;
      }
    }
  }

  /** The send window: `first` is end() exactly when nothing is outstanding, otherwise it
      names an outstanding TxSequence and every outstanding one lies on the arc from it
      to the last assigned number. */
  ghost predicate OnArc(keys: set<Seq64>, first: Option<Seq64>, last: Seq64) {
    && (first.None? <==> keys == {})
    && (first.Some? ==>
          && first.value in keys
          && forall x :: x in keys ==> Dist(first.value, x) <= Dist(first.value, last))
  }

  /** Comparing the next number with the first outstanding one alone decides whether it
      is unused, however many numbers are outstanding. */
  lemma FreshUnlessFirst(keys: set<Seq64>, first: Option<Seq64>, last: Seq64)
    requires OnArc(keys, first, last)
    ensures Plus(last, 1) in keys <==> first == Some(Plus(last, 1))
  {
    var next := Plus(last, 1);
    if next in keys {
      assert Dist(first.value, next) <= Dist(first.value, last);
    }
  }

  lemma AssignKeepsArc(keys: set<Seq64>, first: Option<Seq64>, last: Seq64)
    requires OnArc(keys, first, last)
    requires first != Some(Plus(last, 1))
    ensures OnArc(keys + {Plus(last, 1)},
                  if keys == {} then Some(Plus(last, 1)) else first,
                  Plus(last, 1))
  {
    var next := Plus(last, 1);
    if keys != {} {
      forall x | x in keys + {next}
        ensures Dist(first.value, x) <= Dist(first.value, next)
      {
        if x != next {
          assert Dist(first.value, x) <= Dist(first.value, last);
        }
      }
    }
  }

  /** m_firstUnackedFrag after the fragment at `k` has been erased. */
  function FirstAfterErase(keys: set<Seq64>, first: Option<Seq64>, k: Seq64): (r: Option<Seq64>) {
    var left := keys - {k};
    if left == {} then None
    else if first == Some(k) then Some(NextKey(left, k))
    else first
  }

  lemma EraseKeepsArc(keys: set<Seq64>, first: Option<Seq64>, last: Seq64, k: Seq64)
    requires OnArc(keys, first, last)
    requires k in keys
    ensures OnArc(keys - {k}, FirstAfterErase(keys, first, k), last)
  {
    var left := keys - {k};
    if left != {} && first == Some(k) {
      assert left - {k} == left;
      NextKeyIsNearest(left, k);
      var n := NextKey(left, k);
      forall x | x in left
        ensures Dist(n, x) <= Dist(n, last)
      {
        assert Dist(k, x) <= Dist(k, last);
        assert Dist(k, n) <= Dist(k, x);
      }
    }
  }

  lemma NextKeyApproaches(keys: set<Seq64>, cur: Seq64, stop: Seq64)
    requires cur in keys && stop in keys && cur != stop
    ensures Dist(NextKey(keys, cur), stop) < Dist(cur, stop)
    ensures Dist(cur, NextKey(keys, cur)) <= Dist(cur, stop)
    ensures Dist(cur, stop) == Dist(cur, NextKey(keys, cur)) + Dist(NextKey(keys, cur), stop)
  {
    assert stop in keys - {cur};
    NextKeyIsNearest(keys, cur);
  }

  /** The keys met when iterating from `cur`, wrapping at end(), until `stop`. */
  function Walk(keys: set<Seq64>, cur: Seq64, stop: Seq64): (r: seq<Seq64>)
    requires cur in keys && stop in keys
    decreases Dist(cur, stop)
  {
    if cur == stop then []
    else
      NextKeyApproaches(keys, cur, stop);
      [cur] + Walk(keys, NextKey(keys, cur), stop)
  }

  lemma WalkStep(keys: set<Seq64>, cur: Seq64, stop: Seq64)
    requires cur in keys && stop in keys && cur != stop
    ensures Walk(keys, cur, stop) == [cur] + Walk(keys, NextKey(keys, cur), stop)
  {
  }

  /** The iteration ends, and what it meets are exactly the keys circularly older
      than `stop`. */
  lemma {:induction false} WalkMeetsOlderKeys(keys: set<Seq64>, cur: Seq64, stop: Seq64, x: Seq64)
    requires cur in keys && stop in keys
    ensures x in Walk(keys, cur, stop) <==> x in keys && Dist(cur, x) < Dist(cur, stop)
    decreases Dist(cur, stop)
  {
    if cur != stop {
      NextKeyApproaches(keys, cur, stop);
      var n := NextKey(keys, cur);
      WalkMeetsOlderKeys(keys, n, stop, x);
      if x in keys && x != cur {
        assert x in keys - {cur};
        NextKeyIsNearest(keys, cur);
        assert Dist(cur, n) <= Dist(cur, x);
      }
    }
  }

  /** It meets them oldest first, and so none of them twice. */
  lemma {:induction false} WalkIsOrdered(keys: set<Seq64>, cur: Seq64, stop: Seq64, i: nat, j: nat)
    requires cur in keys && stop in keys
    requires i < j < |Walk(keys, cur, stop)|
    ensures Dist(cur, Walk(keys, cur, stop)[i]) < Dist(cur, Walk(keys, cur, stop)[j])
    decreases Dist(cur, stop)
  {
    NextKeyApproaches(keys, cur, stop);
    var n := NextKey(keys, cur);
    var w, rest := Walk(keys, cur, stop), Walk(keys, n, stop);
    assert w[j] == rest[j - 1] && w[j] in rest;
    WalkMeetsOlderKeys(keys, n, stop, w[j]);
    if i > 0 {
      WalkIsOrdered(keys, n, stop, i - 1, j - 1);
      assert w[i] == rest[i - 1] && w[i] in rest;
      WalkMeetsOlderKeys(keys, n, stop, w[i]);
    }
  }

  lemma WalkNoDup(keys: set<Seq64>, cur: Seq64, stop: Seq64)
    requires cur in keys && stop in keys
    ensures NoDup(Walk(keys, cur, stop))
  {
    var w := Walk(keys, cur, stop);
    forall i, j | 0 <= i < j < |w|
      ensures w[i] != w[j]
    {
      WalkIsOrdered(keys, cur, stop, i, j);
    }
  }
}
