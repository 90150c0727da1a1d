/** The Routing Information Base: the routes of each name, what names inherit from their
    ancestors, and the next hops that follow from the whole table. */
module Ribs {
  import opened Basics
  import P = PitEntries

  type Name = P.Name

  type FaceId = nat

  datatype Route = Route(face: FaceId, origin: nat, cost: nat, childInherit: bool, capture: bool)

  /** The names that have an entry, with their routes in the order of insertion. */
  type Rib = map<Name, seq<Route>>

  // ---------------------------------------------------------------- the routes of one entry

  /** The route is on the face and, if asked for, inherited by children. */
  predicate On(r: Route, f: FaceId, inherit: bool) {
    r.face == f && (inherit ==> r.childInherit)
  }

  predicate Has(rs: seq<Route>, f: FaceId, inherit: bool) {
    exists i :: 0 <= i < |rs| && On(rs[i], f, inherit)
  }

  predicate HasFace(rs: seq<Route>, f: FaceId) {
    Has(rs, f, false)
  }

  predicate HasInherit(rs: seq<Route>, f: FaceId) {
    Has(rs, f, true)
  }

  predicate HasCapture(rs: seq<Route>) {
    exists i :: 0 <= i < |rs| && rs[i].capture
  }

  function Lower(a: Option<nat>, cost: nat): (r: Option<nat>) {
    if a.Some? && a.value <= cost then a else Some(cost)
  }

  /** The lowest cost on the face, of all routes or of those that children inherit. */
  function LowestOf(rs: seq<Route>, f: FaceId, inherit: bool): (r: Option<nat>)
    ensures r.Some? <==> Has(rs, f, inherit)
  {
    if rs == [] then None
    else
      var r := LowestOf(rs[..|rs| - 1], f, inherit);
      if On(rs[|rs| - 1], f, inherit) then Lower(r, rs[|rs| - 1].cost) else r
  }

  /** It is the cost of a route, and no route costs less. */
  lemma {:induction false} LowestIsMinimal(rs: seq<Route>, f: FaceId, inherit: bool)
    ensures var r := LowestOf(rs, f, inherit);
      && (r.Some? ==> exists i :: 0 <= i < |rs| && On(rs[i], f, inherit) && rs[i].cost == r.value)
      && (forall i :: 0 <= i < |rs| && On(rs[i], f, inherit) ==> r.Some? && r.value <= rs[i].cost)
  {
    if rs != [] {
      var n := |rs| - 1;
      LowestIsMinimal(rs[..n], f, inherit);
      var was := LowestOf(rs[..n], f, inherit);
      if was.Some? {
        var i :| 0 <= i < n && On(rs[..n][i], f, inherit) && rs[..n][i].cost == was.value;
        assert On(rs[i], f, inherit) && rs[i].cost == was.value;
      }
      forall i | 0 <= i < n && On(rs[i], f, inherit)
        ensures was.Some? && was.value <= rs[i].cost
      {
        assert On(rs[..n][i], f, inherit);
      }
    }
  }

  function Lowest(rs: seq<Route>, f: FaceId): (r: Option<nat>) {
    LowestOf(rs, f, false)
  }

  function LowestInherit(rs: seq<Route>, f: FaceId): (r: Option<nat>) {
    LowestOf(rs, f, true)
  }

  /** The cost of the first route on the face that children inherit. */
  function FirstInherit(rs: seq<Route>, f: FaceId): (r: Option<nat>)
    ensures r.Some? <==> HasInherit(rs, f)
  {
    if rs == [] then None
    else
      var r := FirstInherit(rs[..|rs| - 1], f);
      if r.Some? then r else if On(rs[|rs| - 1], f, true) then Some(rs[|rs| - 1].cost) else None
  }

  /** The routes without the one at `i`.  Replacing or appending a route is described by what is
      left without it. */
  function Without(rs: seq<Route>, i: nat): (r: seq<Route>)
    requires i < |rs|
    ensures |r| == |rs| - 1
  {
    rs[..i] + rs[i + 1..]
  }

  lemma {:induction false} LowestWithout(rs: seq<Route>, i: nat, f: FaceId, inherit: bool)
    requires i < |rs|
    ensures LowestOf(rs, f, inherit) ==
            if On(rs[i], f, inherit) then Lower(LowestOf(Without(rs, i), f, inherit), rs[i].cost)
            else LowestOf(Without(rs, i), f, inherit)
    decreases |rs|
  {
    hide Has;
    var n, w := |rs| - 1, Without(rs, i);
    if i == n {
      assert w == rs[..n];
    } else {
      LowestWithout(rs[..n], i, f, inherit);
      assert w[..n - 1] == Without(rs[..n], i) && w[n - 1] == rs[n];
    }
  }

  lemma CaptureWithout(rs: seq<Route>, i: nat)
    requires i < |rs|
    ensures HasCapture(rs) <==> HasCapture(Without(rs, i)) || rs[i].capture
  {
    var w := Without(rs, i);
    if j :| 0 <= j < |w| && w[j].capture {
      assert rs[if j < i then j else j + 1].capture;
    }
    if j :| 0 <= j < |rs| && rs[j].capture && j != i {
      assert w[if j < i then j else j - 1].capture;
    }
  }

  // ---------------------------------------------------------------- ancestors

  /** findParent: the longest proper prefix that has an entry, among those shorter than `i`. */
  function ParentFrom(rib: Rib, n: Name, i: nat): (r: Option<Name>)
    requires i <= |n|
    ensures r.Some? ==> r.value in rib && r.value < n && |r.value| < i
    ensures forall q :: q in rib && q < n && |q| < i ==> r.Some? && |q| <= |r.value|
  {
    if i == 0 then None
    else if n[..i - 1] in rib then Some(n[..i - 1])
    else
      assert forall q :: q in rib && q < n && |q| < i ==> |q| < i - 1 by {
        forall q | q in rib && q < n && |q| < i
          ensures |q| < i - 1
        {
          assert q == n[..|q|];
        }
      }
      ParentFrom(rib, n, i - 1)
  }

  function Parent(rib: Rib, n: Name): (r: Option<Name>)
    ensures r.Some? ==> r.value in rib && r.value < n
  {
    ParentFrom(rib, n, |n|)
  }

  lemma PrefixesNest(a: Name, b: Name, n: Name)
    requires a <= n && b <= n && |a| <= |b|
    ensures a <= b && (|a| < |b| ==> a < b) && (|a| == |b| ==> a == b)
  {
    assert a == n[..|a|] && b == n[..|b|];
  }

  lemma ParentIsNearest(rib: Rib, n: Name, q: Name)
    requires q in rib && q < n
    ensures Parent(rib, n).Some? && q <= Parent(rib, n).value
  {
    PrefixesNest(q, Parent(rib, n).value, n);
  }

  /** The cost at which a name is offered a next hop by its ancestors: the nearest one with a route
      for children on that face, unless a nearer one captures. */
  function Offer(rib: Rib, n: Name, f: FaceId): (r: Option<nat>)
    decreases |n|, 0
  {
    var p := Parent(rib, n);
    if p.Some? then Passes(rib, p.value, f) else None
  }

  /** What an entry passes on to its children. */
  function Passes(rib: Rib, p: Name, f: FaceId): (r: Option<nat>)
    requires p in rib
    decreases |p|, 1
  {
    var own := LowestInherit(rib[p], f);
    if own.Some? then own else if HasCapture(rib[p]) then None else Offer(rib, p, f)
  }

  /** getAncestorRoutes, which takes the first route of an entry on each face. */
  function Ancestor(rib: Rib, n: Name, f: FaceId): (r: Option<nat>)
    decreases |n|
  {
    var p := Parent(rib, n);
    if p.None? then None
    else
      var own := FirstInherit(rib[p.value], f);
      if own.Some? then own else if HasCapture(rib[p.value]) then None else Ancestor(rib, p.value, f)
  }

  /** It finds a route exactly if one is offered, though maybe not the cheapest. */
  lemma {:induction false} AncestorIsOffered(rib: Rib, n: Name, f: FaceId)
    ensures Ancestor(rib, n, f).Some? <==> Offer(rib, n, f).Some?
    decreases |n|
  {
    var p := Parent(rib, n);
    if p.Some? {
      AncestorIsOffered(rib, p.value, f);
    }
  }

  // ---------------------------------------------------------------- the FIB of a RIB

  predicate InheritsFrom(rib: Rib, n: Name, f: FaceId) {
    n in rib && !HasFace(rib[n], f) && !HasCapture(rib[n])
  }

  /** The FIB computed from the whole RIB: own routes first, at the lowest cost, and inherited
      ones on the other faces. */
  function NextHop(rib: Rib, n: Name, f: FaceId): (r: Option<nat>) {
    if n !in rib then None
    else if HasFace(rib[n], f) then Lowest(rib[n], f)
    else if HasCapture(rib[n]) then None
    else Offer(rib, n, f)
  }

  predicate Inherits(rib: Rib, n: Name, f: FaceId) {
    InheritsFrom(rib, n, f) && Offer(rib, n, f).Some?
  }

  // ---------------------------------------------------------------- one entry changes

  /** The tables differ at most in the entry of `x`. */
  ghost predicate DifferAt(rib: Rib, rib': Rib, x: Name) {
    forall n :: n != x ==> (n in rib <==> n in rib') && (n in rib ==> rib[n] == rib'[n])
  }

  /** Between `x` and its descendant `m`, nothing holds up a route on the face. */
  ghost predicate Below(rib: Rib, x: Name, m: Name, f: FaceId)
    requires x < m
    decreases |m|
  {
    var p := Parent(rib, m);
    if p.Some? && |p.value| > |x| then
      PrefixesNest(x, p.value, m);
      !HasCapture(rib[p.value]) && !HasInherit(rib[p.value], f) && Below(rib, x, p.value, f)
    else true
  }

  /** What the descendants nearest to `x` are offered. */
  function Top(rib: Rib, x: Name, f: FaceId): (r: Option<nat>) {
    if x in rib then Passes(rib, x, f) else Offer(rib, x, f)
  }

  /** The descendant `m` would take a route on the face from `x`. */
  ghost predicate Reaches(rib: Rib, x: Name, m: Name, f: FaceId) {
    x < m && InheritsFrom(rib, m, f) && Below(rib, x, m, f)
  }

  /** Without an entry nearer than `x`, a descendant has the parent of `x`, or `x` itself. */
  lemma ParentAbove(rib: Rib, x: Name, m: Name)
    requires x < m && (Parent(rib, m).Some? ==> |Parent(rib, m).value| <= |x|)
    ensures Parent(rib, m) == if x in rib then Some(x) else Parent(rib, x)
  {
    var p := Parent(rib, m);
    if x in rib {
      ParentIsNearest(rib, m, x);
      PrefixesNest(x, p.value, m);
    } else {
      var q := Parent(rib, x);
      if p.Some? {
        PrefixesNest(p.value, x, m);
        ParentIsNearest(rib, x, p.value);
      }
      if q.Some? {
        ParentIsNearest(rib, m, q.value);
        PrefixesNest(q.value, p.value, m);
      }
    }
  }

  lemma {:induction false} OfferBelow(rib: Rib, x: Name, m: Name, f: FaceId)
    requires x < m && Below(rib, x, m, f)
    ensures Offer(rib, m, f) == Top(rib, x, f)
    decreases |m|
  {
    var p := Parent(rib, m);
    if p.Some? && |p.value| > |x| {
      PrefixesNest(x, p.value, m);
      OfferBelow(rib, x, p.value, f);
    } else {
      ParentAbove(rib, x, m);
    }
  }

  lemma ParentOutside(rib: Rib, rib': Rib, x: Name, m: Name)
    requires DifferAt(rib, rib', x) && !(x < m)
    ensures Parent(rib, m) == Parent(rib', m)
  {
    if Parent(rib, m).Some? {
      ParentIsNearest(rib', m, Parent(rib, m).value);
    }
    if Parent(rib', m).Some? {
      ParentIsNearest(rib, m, Parent(rib', m).value);
      PrefixesNest(Parent(rib, m).value, Parent(rib', m).value, m);
    }
  }

  lemma {:induction false} OfferOutside(rib: Rib, rib': Rib, x: Name, m: Name, f: FaceId)
    requires DifferAt(rib, rib', x) && !(x < m)
    ensures Offer(rib, m, f) == Offer(rib', m, f)
    decreases |m|
  {
    ParentOutside(rib, rib', x, m);
    var p := Parent(rib, m);
    if p.Some? {
      OfferOutside(rib, rib', x, p.value, f);
    }
  }

  lemma ParentInside(rib: Rib, rib': Rib, x: Name, m: Name)
    requires DifferAt(rib, rib', x) && Parent(rib, m).Some? && |Parent(rib, m).value| > |x|
    ensures Parent(rib', m) == Parent(rib, m)
  {
    ParentIsNearest(rib', m, Parent(rib, m).value);
    ParentIsNearest(rib, m, Parent(rib', m).value);
    PrefixesNest(Parent(rib, m).value, Parent(rib', m).value, m);
  }

  lemma {:induction false} BelowSame(rib: Rib, rib': Rib, x: Name, m: Name, f: FaceId)
    requires DifferAt(rib, rib', x) && x < m
    ensures Below(rib, x, m, f) <==> Below(rib', x, m, f)
    decreases |m|
  {
    var p, p' := Parent(rib, m), Parent(rib', m);
    if p.Some? && |p.value| > |x| {
      ParentInside(rib, rib', x, m);
      PrefixesNest(x, p.value, m);
      BelowSame(rib, rib', x, p.value, f);
    } else if p'.Some? && |p'.value| > |x| {
      ParentInside(rib', rib, x, m);
    }
  }

  /** A descendant that is cut off from `x` is offered the same as before. */
  lemma {:induction false} OfferBlocked(rib: Rib, rib': Rib, x: Name, m: Name, f: FaceId)
    requires DifferAt(rib, rib', x) && x < m && !Below(rib, x, m, f)
    ensures Offer(rib, m, f) == Offer(rib', m, f)
    decreases |m|
  {
    var p := Parent(rib, m).value;
    ParentInside(rib, rib', x, m);
    PrefixesNest(x, p, m);
    if !HasInherit(rib[p], f) && !HasCapture(rib[p]) {
      OfferBlocked(rib, rib', x, p, f);
    }
  }

  /** The next hops of all other names after a change of the entry of `x`. */
  lemma NextHopAfter(rib: Rib, rib': Rib, x: Name, m: Name, f: FaceId)
    requires DifferAt(rib, rib', x) && m != x
    ensures NextHop(rib', m, f) == if Reaches(rib, x, m, f) then Top(rib', x, f) else NextHop(rib, m, f)
    ensures Inherits(rib', m, f) <==> if Reaches(rib, x, m, f) then Top(rib', x, f).Some? else Inherits(rib, m, f)
  {
    if !(x < m) {
      OfferOutside(rib, rib', x, m, f);
    } else if Below(rib, x, m, f) {
      BelowSame(rib, rib', x, m, f);
      OfferBelow(rib', x, m, f);
    } else {
      OfferBlocked(rib, rib', x, m, f);
    }
  }
}
