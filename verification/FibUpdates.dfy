/** What FibUpdater decides for a change of one RIB entry, and when the FIB it leads to is the one
    computed from the whole RIB. */
module FibUpdates {
  import opened Basics
  import opened Ribs

  /** Routes with different faces, by face; only their costs are used. */
  type RouteSet = map<FaceId, nat>

  function At<K, V>(m: map<K, V>, k: K): (r: Option<V>) {
    if k in m then Some(m[k]) else None
  }

  // ---------------------------------------------------------------- decisions

  /** One call of modifyChildrensInheritedRoutes. */
  datatype Change = Change(add: RouteSet, remove: set<FaceId>)

  /** What is decided for the entry itself on each face, if anything, and the changes passed down to
      its children.  Some cost is a next hop to add, None one to remove; `record` says whether a
      route is recorded as inherited. */
  datatype Plan = Plan(self: FaceId -> Option<Option<nat>>, record: FaceId -> Option<bool>, changes: seq<Change>)

  const NOTHING: Plan := Plan(_ => None, _ => None, [])

  /** The last of the changes that says something about the face, to a descendant that takes
      routes from above; `had` if it has inherited one on this face. */
  function Told(changes: seq<Change>, had: bool, f: FaceId): (r: Option<Option<nat>>) {
    if changes == [] then None
    else
      var c := changes[|changes| - 1];
      if f in c.add then Some(Some(c.add[f]))
      else if f in c.remove && had then Some(None)
      else Told(changes[..|changes| - 1], had, f)
  }

  /** The next hop of such a descendant after the changes. */
  function Result(changes: seq<Change>, was: Option<nat>, f: FaceId): (r: Option<nat>) {
    var t := Told(changes, was.Some?, f);
    if t.Some? then t.value else was
  }

  // ---------------------------------------------------------------- tables

  /** m_nRoutesWithCaptureSet and the inherited routes of each entry, and the FIB. */
  datatype Tables = Tables(rib: Rib, nCapture: map<Name, int>, inherited: set<(Name, FaceId)>, fib: map<(Name, FaceId), nat>)

  function CountCapture(rs: seq<Route>): (n: nat)
    ensures n > 0 <==> HasCapture(rs)
  {
    if rs == [] then 0 else CountCapture(rs[..|rs| - 1]) + if rs[|rs| - 1].capture then 1 else 0
  }

  /** No two routes of an entry have the same face and origin. */
  ghost predicate Distinct(rs: seq<Route>) {
    forall i, j :: 0 <= i < j < |rs| ==> rs[i].face != rs[j].face || rs[i].origin != rs[j].origin
  }

  ghost predicate Counted(t: Tables) {
    forall n :: n in t.rib ==> t.rib[n] != [] && Distinct(t.rib[n]) && n in t.nCapture && t.nCapture[n] == CountCapture(t.rib[n])
  }

  /** The FIB is the one computed from the whole RIB, and every entry knows what it inherits. */
  ghost predicate Agrees(t: Tables) {
    && (forall n, f: FaceId :: At(t.fib, (n, f)) == NextHop(t.rib, n, f))
    && (forall n, f: FaceId :: (n, f) in t.inherited <==> Inherits(t.rib, n, f))
  }

  /** The decision for name `m`, which is `x` itself or one that takes routes from it. */
  ghost function Decided(rib: Rib, x: Name, plan: Plan, m: Name, f: FaceId): Option<Option<nat>> {
    if m == x then plan.self(f)
    else if Reaches(rib, x, m, f) then Told(plan.changes, Top(rib, x, f).Some?, f)
    else None
  }

  ghost function Recorded(rib: Rib, x: Name, plan: Plan, m: Name, f: FaceId): Option<bool> {
    if m == x then plan.record(f)
    else
      var d := Decided(rib, x, plan, m, f);
      if d.Some? then Some(d.value.Some?) else None
  }

  function Final<V>(decided: Option<V>, was: V): (r: V) {
    if decided.Some? then decided.value else was
  }

  /** The plan has been carried out, and the entry of `x` replaced, added or erased. */
  ghost predicate Applied(t: Tables, x: Name, plan: Plan, r: Tables) {
    && DifferAt(t.rib, r.rib, x)
    && (forall m, f: FaceId :: At(r.fib, (m, f)) == Final(Decided(t.rib, x, plan, m, f), At(t.fib, (m, f))))
    && (forall m, f: FaceId :: (m, f) in r.inherited <==>
          (m == x ==> x in r.rib) && Final(Recorded(t.rib, x, plan, m, f), (m, f) in t.inherited))
  }

  // ---------------------------------------------------------------- when the result is right

  /** The decisions for the entry itself are right. */
  ghost predicate SelfRightAt(rib: Rib, x: Name, plan: Plan, rib': Rib, f: FaceId) {
    && Final(plan.self(f), NextHop(rib, x, f)) == NextHop(rib', x, f)
    && (x in rib' ==> (Final(plan.record(f), Inherits(rib, x, f)) <==> Inherits(rib', x, f)))
  }

  ghost predicate SelfRight(rib: Rib, x: Name, plan: Plan, rib': Rib) {
    forall f: FaceId :: SelfRightAt(rib, x, plan, rib', f)
  }

  /** Some descendant takes routes on the face from `x`. */
  ghost predicate Reached(rib: Rib, x: Name, f: FaceId) {
    exists m :: Reaches(rib, x, m, f)
  }

  /** A child that takes routes from `x` ends up with what it is offered. */
  ghost predicate ChildRightAt(rib: Rib, x: Name, plan: Plan, rib': Rib, f: FaceId) {
    Result(plan.changes, Top(rib, x, f), f) == Top(rib', x, f)
  }

  ghost predicate ChildrenRight(rib: Rib, x: Name, plan: Plan, rib': Rib) {
    forall f: FaceId :: Reached(rib, x, f) ==> ChildRightAt(rib, x, plan, rib', f)
  }

  lemma DescendantAfter(t: Tables, x: Name, plan: Plan, r: Tables, m: Name, f: FaceId)
    requires Agrees(t) && Applied(t, x, plan, r) && m != x
    ensures At(r.fib, (m, f)) ==
            if Reaches(t.rib, x, m, f) then Result(plan.changes, Top(t.rib, x, f), f) else NextHop(t.rib, m, f)
    ensures (m, f) in r.inherited <==>
            if Reaches(t.rib, x, m, f) then Result(plan.changes, Top(t.rib, x, f), f).Some? else Inherits(t.rib, m, f)
  {
    hide Below;
    assert At(t.fib, (m, f)) == NextHop(t.rib, m, f);
    assert (m, f) in t.inherited <==> Inherits(t.rib, m, f);
    if Reaches(t.rib, x, m, f) {
      OfferBelow(t.rib, x, m, f);
    }
  }

  /** The updates lead to the FIB of the whole new RIB exactly if the entry itself and its
      children's offers are right: the rest of the table never has to be looked at. */
  lemma UpdateIsRightIff(t: Tables, x: Name, plan: Plan, r: Tables)
    requires Agrees(t) && Applied(t, x, plan, r)
    ensures Agrees(r) <==> SelfRight(t.rib, x, plan, r.rib) && ChildrenRight(t.rib, x, plan, r.rib)
  {
    if Agrees(r) {
      RightIfAgrees(t, x, plan, r);
    }
    if SelfRight(t.rib, x, plan, r.rib) && ChildrenRight(t.rib, x, plan, r.rib) {
      AgreesIfRight(t, x, plan, r);
    }
  }

  lemma RightIfAgrees(t: Tables, x: Name, plan: Plan, r: Tables)
    requires Agrees(t) && Applied(t, x, plan, r) && Agrees(r)
    ensures SelfRight(t.rib, x, plan, r.rib) && ChildrenRight(t.rib, x, plan, r.rib)
  {
    hide Reaches, Result, NextHop, Inherits, Top;
    forall f: FaceId | Reached(t.rib, x, f)
      ensures ChildRightAt(t.rib, x, plan, r.rib, f)
    {
      var m :| Reaches(t.rib, x, m, f);
      assert m != x by { ReachesOthers(t.rib, x, m, f); }
      DescendantAfter(t, x, plan, r, m, f);
      NextHopAfter(t.rib, r.rib, x, m, f);
      assert At(r.fib, (m, f)) == NextHop(r.rib, m, f);
    }
    forall f: FaceId
      ensures SelfRightAt(t.rib, x, plan, r.rib, f)
    {
      assert At(r.fib, (x, f)) == NextHop(r.rib, x, f) && At(t.fib, (x, f)) == NextHop(t.rib, x, f);
      assert (x, f) in r.inherited <==> Inherits(r.rib, x, f);
      assert (x, f) in t.inherited <==> Inherits(t.rib, x, f);
    }
  }

  lemma ReachesOthers(rib: Rib, x: Name, m: Name, f: FaceId)
    requires Reaches(rib, x, m, f)
    ensures m != x
  {
  }

  lemma AgreesIfRight(t: Tables, x: Name, plan: Plan, r: Tables)
    requires Agrees(t) && Applied(t, x, plan, r)
    requires SelfRight(t.rib, x, plan, r.rib) && ChildrenRight(t.rib, x, plan, r.rib)
    ensures Agrees(r)
  {
    hide Reaches, Result, NextHop, Inherits, Top;
    forall m, f: FaceId
      ensures At(r.fib, (m, f)) == NextHop(r.rib, m, f) && ((m, f) in r.inherited <==> Inherits(r.rib, m, f))
    {
      if m == x {
        assert SelfRightAt(t.rib, x, plan, r.rib, f);
        assert At(t.fib, (x, f)) == NextHop(t.rib, x, f) && ((x, f) in t.inherited <==> Inherits(t.rib, x, f));
        if x !in r.rib {
          AbsentInheritsNothing(r.rib, x, f);
        }
      } else {
        DescendantAfter(t, x, plan, r, m, f);
        NextHopAfter(t.rib, r.rib, x, m, f);
        assert Reaches(t.rib, x, m, f) ==> Reached(t.rib, x, f);
      }
    }
  }

  lemma AbsentInheritsNothing(rib: Rib, x: Name, f: FaceId)
    requires x !in rib
    ensures !Inherits(rib, x, f)
  {
  }

  // ---------------------------------------------------------------- carrying out updates

  type Updates = map<(Name, FaceId), Option<nat>>

  type Records = map<(Name, FaceId), bool>

  /** modifyInheritedRoutes. */
  function ApplyRecords(inherited: set<(Name, FaceId)>, rs: Records): (r: set<(Name, FaceId)>)
    ensures forall k :: k in r <==> Final(At(rs, k), k in inherited)
  {
    set k | k in inherited + rs.Keys && Final(At(rs, k), k in inherited)
  }

  /** The updates and records are those of the plan. */
  ghost predicate Carries(rib: Rib, x: Name, plan: Plan, us: Updates, rs: Records) {
    && (forall m, f: FaceId :: At(us, (m, f)) == Decided(rib, x, plan, m, f))
    && (forall m, f: FaceId :: At(rs, (m, f)) == Recorded(rib, x, plan, m, f))
  }

  lemma CarriedIsApplied(t: Tables, x: Name, plan: Plan, us: Updates, rs: Records, r: Tables)
    requires Carries(t.rib, x, plan, us, rs) && DifferAt(t.rib, r.rib, x)
    requires forall m, f: FaceId :: At(r.fib, (m, f)) == Final(At(us, (m, f)), At(t.fib, (m, f)))
    requires forall m, f: FaceId :: (m, f) in r.inherited <==> (m == x ==> x in r.rib) && (m, f) in ApplyRecords(t.inherited, rs)
    ensures Applied(t, x, plan, r)
  {
    hide Decided, Recorded;
  }
}
