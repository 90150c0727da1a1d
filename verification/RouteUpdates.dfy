/** FibUpdater's decisions for registering, updating and unregistering a route, and exactly when
    they keep the FIB equal to the one computed from the whole RIB. */
module RouteUpdates {
  import opened Basics
  import opened Ribs
  import opened FibUpdates

  /** `anc` is the result of getAncestorRoutes. */
  ghost predicate IsAncestors(rib: Rib, x: Name, anc: RouteSet) {
    forall f: FaceId :: At(anc, f) == Ancestor(rib, x, f)
  }

  // ---------------------------------------------------------------- building plans

  function SetSelf(p: Plan, f: FaceId, cost: Option<nat>): (r: Plan) {
    p.(self := (g: FaceId) => if g == f then Some(cost) else p.self(g))
  }

  function SetRecord(p: Plan, f: FaceId, inherited: bool): (r: Plan) {
    p.(record := (g: FaceId) => if g == f then Some(inherited) else p.record(g))
  }

  function Adding(p: Plan, f: FaceId, cost: nat): (r: Plan) {
    SetSelf(p, f, Some(cost))
  }

  function Removing(p: Plan, f: FaceId): (r: Plan) {
    SetSelf(p, f, None)
  }

  function Telling(p: Plan, add: RouteSet, remove: set<FaceId>): (r: Plan) {
    p.(changes := p.changes + [Change(add, remove)])
  }

  lemma ToldByLast(p: Plan, add: RouteSet, remove: set<FaceId>, had: bool, f: FaceId)
    ensures Told(Telling(p, add, remove).changes, had, f) ==
            if f in add then Some(Some(add[f]))
            else if f in remove && had then Some(None)
            else Told(p.changes, had, f)
  {
    var changes := Telling(p, add, remove).changes;
    assert changes[..|changes| - 1] == p.changes;
  }

  /** addInheritedRoutes: ancestor routes on faces without a route. */
  function Inheriting(p: Plan, rs: seq<Route>, anc: RouteSet): (r: Plan) {
    p.(self := (g: FaceId) => if g in anc && !HasFace(rs, g) then Some(Some(anc[g])) else p.self(g),
       record := (g: FaceId) => if g in anc && !HasFace(rs, g) then Some(true) else p.record(g))
  }

  /** removeInheritedRoutes: those that the entry has inherited. */
  function Disinheriting(p: Plan, had: set<FaceId>, faces: set<FaceId>): (r: Plan) {
    p.(self := (g: FaceId) => if g in faces && g in had then Some(None) else p.self(g),
       record := (g: FaceId) => if g in faces && g in had then Some(false) else p.record(g))
  }

  /** createFibUpdatesForNewRibEntry. */
  function NewEntryPlan(route: Route, anc: RouteSet): (r: Plan) {
    var p := Adding(NOTHING, route.face, route.cost);
    if !route.childInherit && !route.capture then Inheriting(p, [route], anc)
    else if route.childInherit && route.capture then Telling(p, map[route.face := route.cost], anc.Keys)
    else if route.childInherit then Telling(Inheriting(p, [route], anc), anc[route.face := route.cost], {})
    else Telling(p, map[], anc.Keys)
  }

  /** createFibUpdatesForNewRoute, for an entry with the routes `rs` and inherited faces `had`. */
  function NewRoutePlan(p: Plan, rs: seq<Route>, had: set<FaceId>, route: Route, captureOn: bool, anc: RouteSet): (r: Plan) {
    var add := if GoesToChildren(rs, route) then map[route.face := route.cost] else map[];
    var remove := if captureOn then anc.Keys else {};
    var q := Telling(if captureOn then Disinheriting(p, had, remove) else p, add, remove);
    var other := Lowest(rs, route.face);
    if other.None? || route.cost <= other.value then Adding(q, route.face, route.cost) else q
  }

  // ---------------------------------------------------------------- a new name

  /** Registering a route at a new name is right if the route captures, or no ancestor has put a
      costlier route first. */
  ghost predicate NewEntryRight(rib: Rib, x: Name, route: Route) {
    forall f: FaceId :: NewEntryFine(rib, x, route, f)
  }

  lemma OneRoute(route: Route, f: FaceId, inherit: bool)
    ensures LowestOf([route], f, inherit) == if On(route, f, inherit) then Some(route.cost) else None
    ensures HasCapture([route]) <==> route.capture
  {
    assert [route][..0] == [];
    if route.capture {
      assert [route][0].capture;
    }
  }

  ghost predicate NewEntryFine(rib: Rib, x: Name, route: Route, f: FaceId) {
    f == route.face || route.capture || Ancestor(rib, x, f) == Offer(rib, x, f)
  }

  lemma NewEntrySelf(rib: Rib, x: Name, route: Route, anc: RouteSet, f: FaceId)
    requires x !in rib && IsAncestors(rib, x, anc)
    ensures SelfRightAt(rib, x, NewEntryPlan(route, anc), rib[x := [route]], f) <==> NewEntryFine(rib, x, route, f)
  {
    OneRoute(route, f, false);
    OfferOutside(rib, rib[x := [route]], x, x, f);
    AncestorIsOffered(rib, x, f);
    assert At(anc, f) == Ancestor(rib, x, f);
    hide Offer, Ancestor, HasCapture, LowestOf, Has, IsAncestors;
  }

  lemma NewEntryChild(rib: Rib, x: Name, route: Route, anc: RouteSet, f: FaceId)
    requires x !in rib && IsAncestors(rib, x, anc) && NewEntryFine(rib, x, route, f)
    ensures ChildRightAt(rib, x, NewEntryPlan(route, anc), rib[x := [route]], f)
  {
    OneRoute(route, f, true);
    OfferOutside(rib, rib[x := [route]], x, x, f);
    AncestorIsOffered(rib, x, f);
    assert At(anc, f) == Ancestor(rib, x, f);
    hide Offer, Ancestor, HasCapture, LowestOf, Has, IsAncestors;
    var had := Top(rib, x, f).Some?;
    if route.childInherit && route.capture {
      ToldByLast(NOTHING, map[route.face := route.cost], anc.Keys, had, f);
    } else if route.childInherit {
      ToldByLast(NOTHING, anc[route.face := route.cost], {}, had, f);
    } else if route.capture {
      ToldByLast(NOTHING, map[], anc.Keys, had, f);
    }
  }

  lemma NewEntryIsRightIff(t: Tables, x: Name, route: Route, anc: RouteSet, r: Tables)
    requires Agrees(t) && x !in t.rib && IsAncestors(t.rib, x, anc)
    requires Applied(t, x, NewEntryPlan(route, anc), r) && r.rib == t.rib[x := [route]]
    ensures Agrees(r) <==> NewEntryRight(t.rib, x, route)
  {
    var plan := NewEntryPlan(route, anc);
    UpdateIsRightIff(t, x, plan, r);
    hide Applied, Agrees, NewEntryPlan, SelfRightAt, ChildRightAt, Offer, Ancestor, IsAncestors;
    forall f: FaceId
      ensures SelfRightAt(t.rib, x, plan, r.rib, f) <==> NewEntryFine(t.rib, x, route, f)
      ensures NewEntryFine(t.rib, x, route, f) ==> ChildRightAt(t.rib, x, plan, r.rib, f)
    {
      NewEntrySelf(t.rib, x, route, anc, f);
      if NewEntryFine(t.rib, x, route, f) {
        NewEntryChild(t.rib, x, route, anc, f);
      }
    }
  }

  // ---------------------------------------------------------------- a new route at a name that has some

  /** `had` are the faces on which the entry has inherited a route. */
  ghost predicate IsHad(rib: Rib, x: Name, had: set<FaceId>) {
    forall f: FaceId :: f in had <==> Inherits(rib, x, f)
  }

  predicate TurnsCaptureOn(rs: seq<Route>, route: Route) {
    !HasCapture(rs) && route.capture
  }

  /** The new route replaces an inherited one on its face, whose record stays. */
  ghost predicate LeavesRecord(rib: Rib, x: Name, route: Route) {
    Inherits(rib, x, route.face) && !route.capture
  }

  /** Capture removes the ancestors' routes from the children by face, and with them the entry's
      own route on that face. */
  ghost predicate RemovesTooMuch(rib: Rib, x: Name, route: Route, f: FaceId)
    requires x in rib
  {
    && TurnsCaptureOn(rib[x], route) && Offer(rib, x, f).Some? && HasInherit(rib[x], f)
    && !(f == route.face && route.childInherit && route.cost <= LowestInherit(rib[x], f).value)
  }

  ghost predicate NewRouteRight(rib: Rib, x: Name, route: Route)
    requires x in rib
  {
    !LeavesRecord(rib, x, route) && forall f: FaceId :: Reached(rib, x, f) ==> !RemovesTooMuch(rib, x, route, f)
  }

  lemma Appended(rs: seq<Route>, route: Route, f: FaceId, inherit: bool)
    ensures LowestOf(rs + [route], f, inherit) ==
            if On(route, f, inherit) then Lower(LowestOf(rs, f, inherit), route.cost) else LowestOf(rs, f, inherit)
    ensures HasCapture(rs + [route]) <==> HasCapture(rs) || route.capture
  {
    assert Without(rs + [route], |rs|) == rs;
    LowestWithout(rs + [route], |rs|, f, inherit);
    CaptureWithout(rs + [route], |rs|);
  }

  /** What the children of an entry with the routes `rs` are offered. */
  lemma TopWith(rib: Rib, x: Name, rs: seq<Route>, f: FaceId)
    ensures Top(rib[x := rs], x, f) ==
            var own := LowestInherit(rs, f); if own.Some? then own else if HasCapture(rs) then None else Offer(rib, x, f)
  {
    OfferOutside(rib, rib[x := rs], x, x, f);
  }

  /** The next hops of an entry with the routes `rs`. */
  lemma SelfWith(rib: Rib, x: Name, rs: seq<Route>, f: FaceId)
    ensures NextHop(rib[x := rs], x, f) ==
            var own := Lowest(rs, f); if own.Some? then own else if HasCapture(rs) then None else Offer(rib, x, f)
    ensures Inherits(rib[x := rs], x, f) <==> Lowest(rs, f).None? && !HasCapture(rs) && Offer(rib, x, f).Some?
  {
    OfferOutside(rib, rib[x := rs], x, x, f);
  }

  predicate GoesToChildren(rs: seq<Route>, route: Route) {
    var prev := LowestInherit(rs, route.face);
    route.childInherit && (prev.None? || route.cost <= prev.value)
  }

  lemma NewRouteTold(p: Plan, rs: seq<Route>, had: set<FaceId>, route: Route, captureOn: bool,
                     anc: RouteSet, was: bool, f: FaceId)
    ensures Told(NewRoutePlan(p, rs, had, route, captureOn, anc).changes, was, f) ==
            if f == route.face && GoesToChildren(rs, route) then Some(Some(route.cost))
            else if captureOn && f in anc && was then Some(None)
            else Told(p.changes, was, f)
  {
    hide LowestOf, Has;
    var add := if GoesToChildren(rs, route) then map[route.face := route.cost] else map[];
    var remove := if captureOn then anc.Keys else {};
    ToldByLast(if captureOn then Disinheriting(p, had, remove) else p, add, remove, was, f);
    hide Told;
  }

  lemma NewRouteDecided(p: Plan, rs: seq<Route>, had: set<FaceId>, route: Route, captureOn: bool, anc: RouteSet, f: FaceId)
    ensures var plan := NewRoutePlan(p, rs, had, route, captureOn, anc);
      var own := Lowest(rs, f);
      && plan.self(f) == (if f == route.face && (own.None? || route.cost <= own.value) then Some(Some(route.cost))
                              else if captureOn && f in anc && f in had then Some(None)
                              else p.self(f))
      && plan.record(f) == if captureOn && f in anc && f in had then Some(false) else p.record(f)
  {
    hide LowestOf, Has;
  }

  lemma NewRouteSelf(rib: Rib, x: Name, route: Route, had: set<FaceId>, anc: RouteSet, f: FaceId)
    requires x in rib && IsAncestors(rib, x, anc) && IsHad(rib, x, had)
    ensures var plan := NewRoutePlan(NOTHING, rib[x], had, route, TurnsCaptureOn(rib[x], route), anc);
      SelfRightAt(rib, x, plan, rib[x := rib[x] + [route]], f) <==> !(f == route.face && LeavesRecord(rib, x, route))
  {
    Appended(rib[x], route, f, false);
    AncestorIsOffered(rib, x, f);
    assert At(anc, f) == Ancestor(rib, x, f) && (f in had <==> Inherits(rib, x, f));
    SelfWith(rib, x, rib[x] + [route], f);
    SelfWith(rib, x, rib[x], f);
    assert rib[x := rib[x]] == rib;
    NewRouteDecided(NOTHING, rib[x], had, route, TurnsCaptureOn(rib[x], route), anc, f);
    hide Offer, Ancestor, HasCapture, LowestOf, IsAncestors, IsHad, NewRoutePlan, NextHop, Inherits;
  }

  lemma NewRouteChild(rib: Rib, x: Name, route: Route, had: set<FaceId>, anc: RouteSet, f: FaceId)
    requires x in rib && IsAncestors(rib, x, anc)
    ensures var plan := NewRoutePlan(NOTHING, rib[x], had, route, TurnsCaptureOn(rib[x], route), anc);
      ChildRightAt(rib, x, plan, rib[x := rib[x] + [route]], f) <==> !RemovesTooMuch(rib, x, route, f)
  {
    Appended(rib[x], route, f, true);
    AncestorIsOffered(rib, x, f);
    assert At(anc, f) == Ancestor(rib, x, f);
    TopWith(rib, x, rib[x] + [route], f);
    TopWith(rib, x, rib[x], f);
    assert rib[x := rib[x]] == rib;
    NewRouteTold(NOTHING, rib[x], had, route, TurnsCaptureOn(rib[x], route), anc, Top(rib, x, f).Some?, f);
    hide Offer, Ancestor, HasCapture, LowestOf, IsAncestors, Top, NewRoutePlan;
  }

  lemma NewRouteIsRightIff(t: Tables, x: Name, route: Route, had: set<FaceId>, anc: RouteSet, r: Tables)
    requires Agrees(t) && x in t.rib && IsAncestors(t.rib, x, anc) && IsHad(t.rib, x, had)
    requires Applied(t, x, NewRoutePlan(NOTHING, t.rib[x], had, route, TurnsCaptureOn(t.rib[x], route), anc), r)
    requires r.rib == t.rib[x := t.rib[x] + [route]]
    ensures Agrees(r) <==> NewRouteRight(t.rib, x, route)
  {
    var plan := NewRoutePlan(NOTHING, t.rib[x], had, route, TurnsCaptureOn(t.rib[x], route), anc);
    UpdateIsRightIff(t, x, plan, r);
    hide Applied, Agrees, NewRoutePlan, SelfRightAt, ChildRightAt, RemovesTooMuch, LeavesRecord, IsAncestors, IsHad, TurnsCaptureOn, Reached;
    forall f: FaceId
      ensures SelfRightAt(t.rib, x, plan, r.rib, f) <==> !(f == route.face && LeavesRecord(t.rib, x, route))
      ensures ChildRightAt(t.rib, x, plan, r.rib, f) <==> !RemovesTooMuch(t.rib, x, route, f)
    {
      NewRouteSelf(t.rib, x, route, had, anc, f);
      NewRouteChild(t.rib, x, route, had, anc, f);
    }
    assert SelfRight(t.rib, x, plan, r.rib) <==> !LeavesRecord(t.rib, x, route) by {
      assert SelfRightAt(t.rib, x, plan, r.rib, route.face) <==> !LeavesRecord(t.rib, x, route);
    }
  }

  // ---------------------------------------------------------------- a route is erased

  /** createFibUpdatesForErasedRoute, for the routes `rs` that are left. */
  function ErasedRoutePlan(rs: seq<Route>, route: Route, captureOff: bool, anc: RouteSet): (r: Plan) {
    var p := Removing(NOTHING, route.face);
    var back := captureOff && rs != [];
    var q :=
      if route.childInherit && route.capture then
        if back then Telling(Inheriting(p, rs, anc), anc, {route.face}) else Telling(p, map[], {route.face})
      else if route.childInherit then Telling(p, if HasCapture(rs) then map[] else anc, {route.face})
      else if route.capture then
        if back then Telling(Inheriting(p, rs, anc), anc, {}) else Telling(p, map[], {})
      else p;
    if !HasCapture(rs) && rs != [] && route.face in anc
    then SetRecord(Adding(q, route.face, anc[route.face]), route.face, true)
    else q
  }

  /** getRouteWithSecondLowestCostByFaceId; routes of equal cost may come in any order. */
  ghost predicate IsSecondLowest(rs: seq<Route>, f: FaceId, next: Option<Route>) {
    if next.None? then forall j, k :: 0 <= j < |rs| && 0 <= k < |rs| && On(rs[j], f, false) && On(rs[k], f, false) ==> j == k
    else exists j, k :: IsSecondAt(rs, f, j, k) && next.value == rs[k]
  }

  ghost predicate IsSecondAt(rs: seq<Route>, f: FaceId, j: int, k: int) {
    && 0 <= j < |rs| && 0 <= k < |rs| && j != k && On(rs[j], f, false) && On(rs[k], f, false) && rs[j].cost <= rs[k].cost
    && forall l :: 0 <= l < |rs| && l != j && l != k && On(rs[l], f, false) ==> rs[k].cost <= rs[l].cost
  }

  /** createFibUpdatesForErasedRibEntry: all inherited routes are removed. */
  function Forgetting(p: Plan, had: set<FaceId>): (r: Plan) {
    p.(self := (g: FaceId) => if g in had then Some(None) else p.self(g))
  }

  /** computeUpdatesForUnregistration of the route at `i`. */
  function UnregisterPlan(rs: seq<Route>, i: nat, had: set<FaceId>, next: Option<Route>, anc: RouteSet): (r: Plan)
    requires i < |rs|
  {
    var left := Without(rs, i);
    var p := ErasedRoutePlan(left, rs[i], HasCapture(rs) && !HasCapture(left), anc);
    var q := if next.Some? then NewRoutePlan(p, left, had, next.value, false, anc) else p;
    if |rs| == 1 then Forgetting(q, had) else q
  }

  /** The ancestors' routes come back to the entry or its children. */
  predicate BringsBack(left: seq<Route>, route: Route) {
    !HasCapture(left) && (route.childInherit || route.capture)
  }

  /** For an entry that keeps other routes: what it takes over from its ancestors is what they
      offer, and if the face has another route, that one is the next cheapest and nothing was
      inherited on the face. */
  ghost predicate ErasedSelfFine(rib: Rib, x: Name, i: nat, next: Option<Route>, f: FaceId)
    requires x in rib && i < |rib[x]|
  {
    var route, left := rib[x][i], Without(rib[x], i);
    if f != route.face then HasCapture(left) || !route.capture || HasFace(left, f) || Ancestor(rib, x, f) == Offer(rib, x, f)
    else if next.None? then HasCapture(left) || Ancestor(rib, x, f) == Offer(rib, x, f)
    else
      && (HasCapture(left) || Offer(rib, x, f).None?)
      && Lowest(left, f).Some? && next.value.cost <= Lowest(left, f).value
  }

  /** For a face on which some descendant takes routes. */
  ghost predicate ErasedChildFine(rib: Rib, x: Name, i: nat, next: Option<Route>, f: FaceId)
    requires x in rib && i < |rib[x]|
  {
    var route, left := rib[x][i], Without(rib[x], i);
    var own := LowestInherit(left, f);
    if left == [] then
      if route.capture then Offer(rib, x, f).None? else route.childInherit ==> Ancestor(rib, x, f) == Offer(rib, x, f)
    else if f != route.face || next.None? then
      BringsBack(left, route) && Ancestor(rib, x, f).Some? ==>
        Ancestor(rib, x, f) == if own.Some? then own else Offer(rib, x, f)
    else if GoesToChildren(left, next.value) then own == Some(next.value.cost)
    else route.childInherit ==> own.None?
  }

  ghost predicate UnregisterRight(rib: Rib, x: Name, i: nat, next: Option<Route>)
    requires x in rib && i < |rib[x]|
  {
    && (|rib[x]| > 1 ==> forall f: FaceId :: ErasedSelfFine(rib, x, i, next, f))
    && (forall f: FaceId :: Reached(rib, x, f) ==> ErasedChildFine(rib, x, i, next, f))
  }

  lemma ErasedTold(rs: seq<Route>, route: Route, captureOff: bool, anc: RouteSet, was: bool, f: FaceId)
    ensures Told(ErasedRoutePlan(rs, route, captureOff, anc).changes, was, f) ==
            if f in anc && (if route.capture then captureOff && rs != [] else route.childInherit && !HasCapture(rs))
            then Some(Some(anc[f]))
            else if route.childInherit && f == route.face && was then Some(None)
            else None
  {
    hide HasCapture;
    var p := Removing(NOTHING, route.face);
    var q := Inheriting(p, rs, anc);
    InheritingTellsNothing(p, rs, anc);
    hide Inheriting;
    if route.capture && captureOff && rs != [] {
      ToldByLast(q, anc, if route.childInherit then {route.face} else {}, was, f);
    } else if route.capture {
      ToldByLast(p, map[], if route.childInherit then {route.face} else {}, was, f);
    } else if route.childInherit {
      ToldByLast(p, if HasCapture(rs) then map[] else anc, {route.face}, was, f);
    }
  }

  lemma InheritingTellsNothing(p: Plan, rs: seq<Route>, anc: RouteSet)
    ensures Inheriting(p, rs, anc).changes == p.changes
  {
  }

  lemma ErasedDecided(rs: seq<Route>, route: Route, captureOff: bool, anc: RouteSet, f: FaceId)
    ensures var plan := ErasedRoutePlan(rs, route, captureOff, anc);
      var back := f in anc && rs != [] && if f == route.face then !HasCapture(rs) else route.capture && captureOff && !HasFace(rs, f);
      && (captureOff ==> !HasCapture(rs)) ==>
        && plan.self(f) == (if back then Some(Some(anc[f])) else if f == route.face then Some(None) else None)
        && plan.record(f) == if back then Some(true) else None
  {
    hide HasCapture, HasFace;
  }

  /** The second cheapest route on the face of the erased one: there is one exactly if another
      route on the face is left, and it does not cost less than those left. */
  lemma SecondLowestIs(rs: seq<Route>, i: nat, next: Option<Route>)
    requires i < |rs| && IsSecondLowest(rs, rs[i].face, next)
    ensures next.None? <==> Lowest(Without(rs, i), rs[i].face).None?
    ensures next.Some? ==> next.value.face == rs[i].face && Lowest(Without(rs, i), rs[i].face).value <= next.value.cost
  {
    var f, left := rs[i].face, Without(rs, i);
    LowestIsMinimal(left, f, false);
    if next.None? {
      assert On(rs[i], f, false);
      forall j | 0 <= j < |left|
        ensures !On(left[j], f, false)
      {
        assert left[j] == rs[if j < i then j else j + 1];
      }
    } else {
      var j, k :| IsSecondAt(rs, f, j, k) && next.value == rs[k];
      var l := if k == i then j else k;
      assert left[if l < i then l else l - 1] == rs[l];
    }
  }

  /** The route at `l` is on the face and is not the one at `i`. */
  ghost predicate OtherOn(rs: seq<Route>, i: nat, f: FaceId, l: int) {
    0 <= l < |rs| && l != i && rs[l].face == f
  }

  /** Two routes on the face have this cost, beside the one at `i`. */
  ghost predicate Twice(rs: seq<Route>, i: nat, f: FaceId, cost: nat) {
    exists a, b :: OtherOn(rs, i, f, a) && OtherOn(rs, i, f, b) && a < b && rs[a].cost == cost && rs[b].cost == cost
  }

  lemma LowestOfOthers(rs: seq<Route>, i: nat, m: nat)
    requires i < |rs| && Lowest(Without(rs, i), rs[i].face) == Some(m)
    ensures exists l :: OtherOn(rs, i, rs[i].face, l) && rs[l].cost == m
    ensures forall l :: OtherOn(rs, i, rs[i].face, l) ==> m <= rs[l].cost
  {
    var f, left := rs[i].face, Without(rs, i);
    LowestIsMinimal(left, f, false);
    hide Lowest, LowestOf;
    var a :| 0 <= a < |left| && On(left[a], f, false) && left[a].cost == m;
    var a' := if a < i then a else a + 1;
    assert OtherOn(rs, i, f, a') && rs[a'] == left[a];
    forall l | OtherOn(rs, i, f, l)
      ensures m <= rs[l].cost
    {
      var l' := if l < i then l else l - 1;
      assert left[l'] == rs[l] && On(left[l'], f, false);
    }
  }

  lemma SecondAmong(rs: seq<Route>, i: nat, m: nat, j: int, k: int)
    requires i < |rs| && IsSecondAt(rs, rs[i].face, j, k)
    requires exists l :: OtherOn(rs, i, rs[i].face, l) && rs[l].cost == m
    requires forall l :: OtherOn(rs, i, rs[i].face, l) ==> m <= rs[l].cost
    ensures rs[k].cost <= m <==> rs[i].cost <= m || Twice(rs, i, rs[i].face, m)
  {
    var f := rs[i].face;
    var a :| OtherOn(rs, i, f, a) && rs[a].cost == m;
    assert a == j || a == k || rs[k].cost <= rs[a].cost;
    assert i == j || i == k || rs[k].cost <= rs[i].cost;
    if rs[k].cost <= m && rs[i].cost > m {
      assert OtherOn(rs, i, f, j) && OtherOn(rs, i, f, k);
      assert Twice(rs, i, f, m);
    }
    if Twice(rs, i, f, m) {
      var b, c :| OtherOn(rs, i, f, b) && OtherOn(rs, i, f, c) && b < c && rs[b].cost == m && rs[c].cost == m;
      assert b == j || b == k || rs[k].cost <= rs[b].cost;
      assert c == j || c == k || rs[k].cost <= rs[c].cost;
    }
  }

  /** The second cheapest route is a cheapest one of those left exactly if the erased one was a
      cheapest one, or two of those left are. */
  lemma SecondIsCheapestLeftIff(rs: seq<Route>, i: nat, next: Option<Route>)
    requires i < |rs| && IsSecondLowest(rs, rs[i].face, next) && next.Some?
    ensures var lowest := Lowest(Without(rs, i), rs[i].face);
      lowest.Some? && (next.value.cost <= lowest.value <==> rs[i].cost <= lowest.value || Twice(rs, i, rs[i].face, lowest.value))
  {
    SecondLowestIs(rs, i, next);
    hide Lowest, IsSecondAt, Twice;
    var m := Lowest(Without(rs, i), rs[i].face).value;
    LowestOfOthers(rs, i, m);
    var j, k :| IsSecondAt(rs, rs[i].face, j, k) && next.value == rs[k];
    assert 0 <= k < |rs| by { SecondInRange(rs, rs[i].face, j, k); }
    SecondAmong(rs, i, m, j, k);
  }

  lemma SecondInRange(rs: seq<Route>, f: FaceId, j: int, k: int)
    requires IsSecondAt(rs, f, j, k)
    ensures 0 <= k < |rs|
  {
  }

  lemma UnregisterDecided(rs: seq<Route>, i: nat, had: set<FaceId>, next: Option<Route>, anc: RouteSet, f: FaceId)
    requires i < |rs| && |rs| > 1 && IsSecondLowest(rs, rs[i].face, next)
    ensures var left := Without(rs, i);
      var plan := UnregisterPlan(rs, i, had, next, anc);
      var back := f in anc && !HasCapture(left) && (f == rs[i].face || (rs[i].capture && Lowest(left, f).None?));
      && plan.self(f) == (if f == rs[i].face && next.Some? && Lowest(left, f).Some? && next.value.cost <= Lowest(left, f).value
                              then Some(Some(next.value.cost))
                              else if back then Some(Some(anc[f]))
                              else if f == rs[i].face then Some(None)
                              else None)
      && plan.record(f) == if back then Some(true) else None
  {
    var left := Without(rs, i);
    var captureOff := HasCapture(rs) && !HasCapture(left);
    CaptureWithout(rs, i);
    SecondLowestIs(rs, i, next);
    ErasedDecided(left, rs[i], captureOff, anc, f);
    assert Lowest(left, f).None? <==> !HasFace(left, f);
    if next.Some? {
      NewRouteDecided(ErasedRoutePlan(left, rs[i], captureOff, anc), left, had, next.value, false, anc, f);
    }
    hide HasCapture, HasFace, LowestOf, ErasedRoutePlan, NewRoutePlan, IsSecondLowest;
  }

  lemma UnregisterSelf(rib: Rib, x: Name, i: nat, had: set<FaceId>, next: Option<Route>, anc: RouteSet, f: FaceId)
    requires x in rib && i < |rib[x]| && |rib[x]| > 1 && IsAncestors(rib, x, anc)
    requires IsSecondLowest(rib[x], rib[x][i].face, next)
    ensures SelfRightAt(rib, x, UnregisterPlan(rib[x], i, had, next, anc), rib[x := Without(rib[x], i)], f) <==>
            ErasedSelfFine(rib, x, i, next, f)
  {
    var left := Without(rib[x], i);
    LowestWithout(rib[x], i, f, false);
    CaptureWithout(rib[x], i);
    AncestorIsOffered(rib, x, f);
    assert At(anc, f) == Ancestor(rib, x, f);
    SelfWith(rib, x, left, f);
    SelfWith(rib, x, rib[x], f);
    assert rib[x := rib[x]] == rib;
    SecondLowestIs(rib[x], i, next);
    UnregisterDecided(rib[x], i, had, next, anc, f);
    assert Lowest(left, f).None? <==> !HasFace(left, f);
    hide Offer, Ancestor, HasCapture, HasFace, LowestOf, IsAncestors, UnregisterPlan, NextHop, Inherits, IsSecondLowest;
  }

  lemma UnregisterLastSelf(rib: Rib, x: Name, had: set<FaceId>, anc: RouteSet, f: FaceId)
    requires x in rib && |rib[x]| == 1 && IsHad(rib, x, had)
    ensures SelfRightAt(rib, x, UnregisterPlan(rib[x], 0, had, None, anc), rib - {x}, f)
  {
    var route := rib[x][0];
    assert rib[x] == [route] && Without(rib[x], 0) == [];
    OneRoute(route, f, false);
    SelfWith(rib, x, [route], f);
    assert rib[x := [route]] == rib;
    assert f in had <==> Inherits(rib, x, f);
    CaptureWithout(rib[x], 0);
    ErasedDecided([], route, HasCapture([route]) && !HasCapture([]), anc, f);
    hide Offer, HasCapture, LowestOf, Has, ErasedRoutePlan, Inherits, IsHad;
  }

  lemma UnregisterTold(rs: seq<Route>, i: nat, had: set<FaceId>, next: Option<Route>, anc: RouteSet, was: bool, f: FaceId)
    requires i < |rs| && IsSecondLowest(rs, rs[i].face, next)
    ensures var left := Without(rs, i);
      Told(UnregisterPlan(rs, i, had, next, anc).changes, was, f) ==
        if f == rs[i].face && next.Some? && GoesToChildren(left, next.value) then Some(Some(next.value.cost))
        else if f in anc && BringsBack(left, rs[i]) && (rs[i].capture ==> left != []) then Some(Some(anc[f]))
        else if rs[i].childInherit && f == rs[i].face && was then Some(None)
        else None
  {
    var left := Without(rs, i);
    var captureOff := HasCapture(rs) && !HasCapture(left);
    CaptureWithout(rs, i);
    SecondLowestIs(rs, i, next);
    ErasedTold(left, rs[i], captureOff, anc, was, f);
    if next.Some? {
      NewRouteTold(ErasedRoutePlan(left, rs[i], captureOff, anc), left, had, next.value, false, anc, was, f);
    }
    hide HasCapture, Has, On, LowestOf, ErasedRoutePlan, NewRoutePlan, IsSecondLowest, Told, GoesToChildren, Without, Lower;
  }

  lemma UnregisterChild(rib: Rib, x: Name, i: nat, had: set<FaceId>, next: Option<Route>, anc: RouteSet, f: FaceId)
    requires x in rib && i < |rib[x]| && |rib[x]| > 1 && IsAncestors(rib, x, anc)
    requires IsSecondLowest(rib[x], rib[x][i].face, next)
    requires ErasedSelfFine(rib, x, i, next, f)
    ensures ChildRightAt(rib, x, UnregisterPlan(rib[x], i, had, next, anc), rib[x := Without(rib[x], i)], f) <==>
            ErasedChildFine(rib, x, i, next, f)
  {
    var left := Without(rib[x], i);
    LowestWithout(rib[x], i, f, true);
    CaptureWithout(rib[x], i);
    AncestorIsOffered(rib, x, f);
    assert At(anc, f) == Ancestor(rib, x, f);
    TopWith(rib, x, left, f);
    TopWith(rib, x, rib[x], f);
    assert rib[x := rib[x]] == rib;
    SecondLowestIs(rib[x], i, next);
    UnregisterTold(rib[x], i, had, next, anc, Top(rib, x, f).Some?, f);
    hide Offer, Ancestor, HasCapture, HasFace, LowestOf, IsAncestors, UnregisterPlan, Top, IsSecondLowest;
  }

  lemma UnregisterLastChild(rib: Rib, x: Name, had: set<FaceId>, anc: RouteSet, f: FaceId)
    requires x in rib && |rib[x]| == 1 && IsAncestors(rib, x, anc)
    ensures ChildRightAt(rib, x, UnregisterPlan(rib[x], 0, had, None, anc), rib - {x}, f) <==> ErasedChildFine(rib, x, 0, None, f)
  {
    var route := rib[x][0];
    assert rib[x] == [route] && Without(rib[x], 0) == [];
    OneRoute(route, f, true);
    AncestorIsOffered(rib, x, f);
    assert At(anc, f) == Ancestor(rib, x, f);
    OfferOutside(rib, rib - {x}, x, x, f);
    UnregisterTold(rib[x], 0, had, None, anc, Top(rib, x, f).Some?, f);
    hide Offer, Ancestor, LowestOf, Has, IsAncestors, UnregisterPlan;
  }

  ghost predicate Erases(rib: Rib, x: Name, i: nat, rib': Rib)
    requires x in rib && i < |rib[x]|
  {
    rib' == if |rib[x]| == 1 then rib - {x} else rib[x := Without(rib[x], i)]
  }

  lemma UnregisterIsRightIff(t: Tables, x: Name, i: nat, had: set<FaceId>, next: Option<Route>, anc: RouteSet, r: Tables)
    requires Agrees(t) && x in t.rib && i < |t.rib[x]| && IsAncestors(t.rib, x, anc) && IsHad(t.rib, x, had)
    requires IsSecondLowest(t.rib[x], t.rib[x][i].face, next)
    requires Applied(t, x, UnregisterPlan(t.rib[x], i, had, next, anc), r) && Erases(t.rib, x, i, r.rib)
    ensures Agrees(r) <==> UnregisterRight(t.rib, x, i, next)
  {
    var plan := UnregisterPlan(t.rib[x], i, had, next, anc);
    UpdateIsRightIff(t, x, plan, r);
    if |t.rib[x]| == 1 {
      SecondLowestIs(t.rib[x], i, next);
      assert next == None;
    }
    hide Applied, Agrees, UnregisterPlan, SelfRightAt, ChildRightAt, ErasedSelfFine, ErasedChildFine, IsAncestors, IsHad, Reached, IsSecondLowest;
    if |t.rib[x]| == 1 {
      forall f: FaceId
        ensures SelfRightAt(t.rib, x, plan, r.rib, f)
        ensures ChildRightAt(t.rib, x, plan, r.rib, f) <==> ErasedChildFine(t.rib, x, i, next, f)
      {
        UnregisterLastSelf(t.rib, x, had, anc, f);
        UnregisterLastChild(t.rib, x, had, anc, f);
      }
    } else {
      forall f: FaceId
        ensures SelfRightAt(t.rib, x, plan, r.rib, f) <==> ErasedSelfFine(t.rib, x, i, next, f)
        ensures ErasedSelfFine(t.rib, x, i, next, f) ==>
          (ChildRightAt(t.rib, x, plan, r.rib, f) <==> ErasedChildFine(t.rib, x, i, next, f))
      {
        UnregisterSelf(t.rib, x, i, had, next, anc, f);
        if ErasedSelfFine(t.rib, x, i, next, f) {
          UnregisterChild(t.rib, x, i, had, next, anc, f);
        }
      }
    }
  }

  // ---------------------------------------------------------------- a route is updated

  predicate SameFlags(a: Route, b: Route) {
    a.childInherit == b.childInherit && a.capture == b.capture
  }

  /** The route was the cheapest on its face and is not any more. */
  predicate LosesFirst(rs: seq<Route>, was: Route, route: Route) {
    var lowest := Lowest(rs, route.face);
    lowest.Some? && was.cost < lowest.value < route.cost
  }

  /** The part of createFibUpdatesForUpdatedRoute for the entry itself, when the cost changed. */
  function CostPlan(rs: seq<Route>, was: Route, route: Route): (r: Plan)
    requires LosesFirst(rs, was, route) ==> HasInherit(rs, route.face)
  {
    var lowest := Lowest(rs, route.face);
    if was.cost == route.cost then NOTHING
    else if lowest.None? || route.cost <= lowest.value then Adding(NOTHING, route.face, route.cost)
    else if was.cost < lowest.value then Adding(NOTHING, route.face, LowestInherit(rs, route.face).value)
    else NOTHING
  }

  /** The part for the child inherit flag. */
  function InheritPlan(p: Plan, rs: seq<Route>, was: Route, route: Route, anc: RouteSet): (r: Plan) {
    var prev := LowestInherit(rs, route.face);
    if !was.childInherit && route.childInherit then
      if GoesToChildren(rs, route) then Telling(p, map[route.face := route.cost], {}) else p
    else if was.childInherit && !route.childInherit then
      var add := if prev.Some? then map[route.face := prev.value]
                 else if route.face in anc then map[route.face := anc[route.face]]
                 else map[];
      Telling(p, add, {route.face})
    else p
  }

  /** The part for the capture flag. */
  function CapturePlan(p: Plan, rs: seq<Route>, had: set<FaceId>, was: Route, route: Route, anc: RouteSet): (r: Plan) {
    if !was.capture && route.capture then Telling(Disinheriting(p, had, anc.Keys), map[], anc.Keys)
    else if was.capture && !route.capture then Telling(Inheriting(p, rs, anc), anc, {})
    else p
  }

  /** createFibUpdatesForUpdatedRoute, for the routes `rs` with the new one in place.  It follows a
      null pointer if the route loses its place to one that no route for children accompanies. */
  function UpdatedPlan(rs: seq<Route>, had: set<FaceId>, was: Route, route: Route, anc: RouteSet): (r: Option<Plan>) {
    if SameFlags(was, route) && was.cost == route.cost then Some(NOTHING)
    else if LosesFirst(rs, was, route) && !HasInherit(rs, route.face) then None
    else
      var p := CostPlan(rs, was, route);
      if was.cost != route.cost && SameFlags(was, route) && GoesToChildren(rs, route)
      then Some(Telling(p, map[route.face := route.cost], {}))
      else Some(CapturePlan(InheritPlan(p, rs, was, route, anc), rs, had, was, route, anc))
  }

  /** An update crashes exactly if the route had a cost below all others on its face, now costs more
      than another, and no route on the face is for children. */
  lemma UpdateCrashesIff(rs: seq<Route>, had: set<FaceId>, was: Route, route: Route, anc: RouteSet)
    ensures UpdatedPlan(rs, had, was, route, anc).None? <==>
      && (forall j :: 0 <= j < |rs| && rs[j].face == route.face ==> was.cost < rs[j].cost && !rs[j].childInherit)
      && (exists j :: 0 <= j < |rs| && rs[j].face == route.face && rs[j].cost < route.cost)
  {
    LowestIsMinimal(rs, route.face, false);
    var lowest := Lowest(rs, route.face);
    forall j | 0 <= j < |rs|
      ensures On(rs[j], route.face, false) <==> rs[j].face == route.face
      ensures On(rs[j], route.face, true) <==> rs[j].face == route.face && rs[j].childInherit
    {
    }
    assert HasInherit(rs, route.face) <==> exists j :: 0 <= j < |rs| && On(rs[j], route.face, true);
    hide LowestOf, Lowest;
    if lowest.Some? {
      var i :| 0 <= i < |rs| && On(rs[i], route.face, false) && rs[i].cost == lowest.value;
    }
  }

  /** The next cheapest route for children stands in for the next cheapest route. */
  ghost predicate WrongSuccessor(rs: seq<Route>, was: Route, route: Route) {
    LosesFirst(rs, was, route) && LowestInherit(rs, route.face) != Lowest(rs, route.face)
  }

  /** The children keep a route that is not the cheapest any more, or take one from an ancestor
      although the entry captures, or not at the cost that is offered. */
  ghost predicate WrongForChildren(rib: Rib, x: Name, rs: seq<Route>, was: Route, route: Route) {
    var own := LowestInherit(rs, route.face);
    || (was.childInherit && route.childInherit && own.Some? && was.cost < own.value < route.cost)
    || (was.childInherit && !route.childInherit && own.None?
        && if HasCapture(rs) then Ancestor(rib, x, route.face).Some? else Ancestor(rib, x, route.face) != Offer(rib, x, route.face))
  }

  ghost predicate UpdateRight(rib: Rib, x: Name, i: nat, route: Route)
    requires x in rib && i < |rib[x]|
  {
    var rs, was := rib[x][i := route], rib[x][i];
    !WrongSuccessor(rs, was, route) && (Reached(rib, x, route.face) ==> !WrongForChildren(rib, x, rs, was, route))
  }

  /** Costs and flags before and after the update, through the other routes. */
  lemma Replaced(rs: seq<Route>, i: nat, route: Route, f: FaceId, inherit: bool)
    requires i < |rs|
    ensures Without(rs[i := route], i) == Without(rs, i)
    ensures var others := LowestOf(Without(rs, i), f, inherit);
      && LowestOf(rs, f, inherit) == (if On(rs[i], f, inherit) then Lower(others, rs[i].cost) else others)
      && LowestOf(rs[i := route], f, inherit) == if On(route, f, inherit) then Lower(others, route.cost) else others
    ensures rs[i].capture == route.capture ==> (HasCapture(rs) <==> HasCapture(rs[i := route]))
  {
    assert Without(rs[i := route], i) == Without(rs, i);
    LowestWithout(rs, i, f, inherit);
    LowestWithout(rs[i := route], i, f, inherit);
    CaptureWithout(rs, i);
    CaptureWithout(rs[i := route], i);
  }

  lemma UpdatedDecided(rs: seq<Route>, had: set<FaceId>, was: Route, route: Route, anc: RouteSet, f: FaceId)
    requires was.capture == route.capture && UpdatedPlan(rs, had, was, route, anc).Some?
    requires Lowest(rs, route.face).Some?
    ensures var plan, lowest := UpdatedPlan(rs, had, was, route, anc).value, Lowest(rs, route.face).value;
      && plan.record(f) == None
      && plan.self(f) ==
           if f != route.face || was.cost == route.cost then None
           else if route.cost <= lowest then Some(Some(route.cost))
           else if was.cost < lowest then Some(LowestInherit(rs, f))
           else None
  {
    hide LowestOf, HasCapture;
  }

  lemma UpdatedSelf(rib: Rib, x: Name, i: nat, route: Route, had: set<FaceId>, anc: RouteSet, f: FaceId)
    requires x in rib && i < |rib[x]| && rib[x][i].capture == route.capture && rib[x][i].face == route.face
    requires UpdatedPlan(rib[x][i := route], had, rib[x][i], route, anc).Some?
    ensures var rs := rib[x][i := route];
      SelfRightAt(rib, x, UpdatedPlan(rs, had, rib[x][i], route, anc).value, rib[x := rs], f) <==>
        !(f == route.face && WrongSuccessor(rs, rib[x][i], route))
  {
    var rs := rib[x][i := route];
    Replaced(rib[x], i, route, f, false);
    Replaced(rib[x], i, route, route.face, false);
    SelfWith(rib, x, rs, f);
    SelfWith(rib, x, rib[x], f);
    assert rib[x := rib[x]] == rib;
    UpdatedDecided(rs, had, rib[x][i], route, anc, f);
    hide Offer, HasCapture, LowestOf, UpdatedPlan, NextHop, Inherits;
  }

  lemma UpdatedTold(rs: seq<Route>, had: set<FaceId>, was: Route, route: Route, anc: RouteSet, before: bool, f: FaceId)
    requires was.capture == route.capture && UpdatedPlan(rs, had, was, route, anc).Some?
    ensures var plan, prev := UpdatedPlan(rs, had, was, route, anc).value, LowestInherit(rs, route.face);
      Told(plan.changes, before, f) ==
        if f != route.face then None
        else if route.childInherit then
          if (!was.childInherit || was.cost != route.cost) && GoesToChildren(rs, route) then Some(Some(route.cost)) else None
        else if !was.childInherit then None
        else if prev.Some? then Some(prev)
        else if f in anc then Some(Some(anc[f]))
        else if before then Some(None)
        else None
  {
    if !(SameFlags(was, route) && was.cost == route.cost) {
      var p := CostPlan(rs, was, route);
      var prev := LowestInherit(rs, route.face);
      assert p.changes == [];
      hide LowestOf, HasCapture, CostPlan;
      ToldByLast(p, map[route.face := route.cost], {}, before, f);
      var add := if prev.Some? then map[route.face := prev.value]
                 else if route.face in anc then map[route.face := anc[route.face]]
                 else map[];
      ToldByLast(p, add, {route.face}, before, f);
    }
  }

  lemma UpdatedOtherChild(rib: Rib, x: Name, i: nat, route: Route, had: set<FaceId>, anc: RouteSet, f: FaceId)
    requires x in rib && i < |rib[x]| && rib[x][i].capture == route.capture && rib[x][i].face == route.face != f
    requires UpdatedPlan(rib[x][i := route], had, rib[x][i], route, anc).Some?
    ensures var rs := rib[x][i := route];
      ChildRightAt(rib, x, UpdatedPlan(rs, had, rib[x][i], route, anc).value, rib[x := rs], f)
  {
    var rs := rib[x][i := route];
    Replaced(rib[x], i, route, f, true);
    TopWith(rib, x, rs, f);
    TopWith(rib, x, rib[x], f);
    assert rib[x := rib[x]] == rib;
    UpdatedTold(rs, had, rib[x][i], route, anc, Top(rib, x, f).Some?, f);
    hide Offer, HasCapture, LowestOf, UpdatedPlan, Top;
  }

  /** The offer of an entry to its children, from its own cheapest route for them. */
  function Offered(own: Option<nat>, captures: bool, offer: Option<nat>): (r: Option<nat>) {
    if own.Some? then own else if captures then None else offer
  }

  /** `others` is the cheapest of the other routes for children, `anc` the ancestor route found. */
  lemma UpdatedOffer(others: Option<nat>, wasInherit: bool, wasCost: nat, inherit: bool, cost: nat, captures: bool,
                     offer: Option<nat>, anc: Option<nat>)
    requires anc.Some? <==> offer.Some?
    ensures var own := if inherit then Lower(others, cost) else others;
      var before := Offered(if wasInherit then Lower(others, wasCost) else others, captures, offer);
      var told :=
        if inherit then if (!wasInherit || wasCost != cost) && cost <= own.value then Some(Some(cost)) else None
        else if !wasInherit then None
        else if own.Some? then Some(own)
        else if anc.Some? then Some(anc)
        else if before.Some? then Some(None)
        else None;
      Final(told, before) == Offered(own, captures, offer) <==>
        !(|| (wasInherit && inherit && wasCost < own.value < cost)
          || (wasInherit && !inherit && own.None? && if captures then anc.Some? else anc != offer))
  {
  }

  lemma UpdatedChild(rib: Rib, x: Name, i: nat, route: Route, had: set<FaceId>, anc: RouteSet)
    requires x in rib && i < |rib[x]| && rib[x][i].capture == route.capture && rib[x][i].face == route.face
    requires UpdatedPlan(rib[x][i := route], had, rib[x][i], route, anc).Some? && IsAncestors(rib, x, anc)
    ensures var rs := rib[x][i := route];
      ChildRightAt(rib, x, UpdatedPlan(rs, had, rib[x][i], route, anc).value, rib[x := rs], route.face) <==>
        !WrongForChildren(rib, x, rs, rib[x][i], route)
  {
    var rs, f := rib[x][i := route], route.face;
    Replaced(rib[x], i, route, f, true);
    AncestorIsOffered(rib, x, f);
    assert At(anc, f) == Ancestor(rib, x, f);
    TopWith(rib, x, rs, f);
    TopWith(rib, x, rib[x], f);
    assert rib[x := rib[x]] == rib;
    UpdatedTold(rs, had, rib[x][i], route, anc, Top(rib, x, f).Some?, f);
    hide Offer, Ancestor, HasCapture, LowestOf, IsAncestors, UpdatedPlan, Top;
    UpdatedOffer(LowestInherit(Without(rs, i), f), rib[x][i].childInherit, rib[x][i].cost, route.childInherit, route.cost,
                 HasCapture(rs), Offer(rib, x, f), Ancestor(rib, x, f));
    hide Without, Lower;
  }

  lemma UpdateOfRouteIsRightIff(t: Tables, x: Name, i: nat, route: Route, had: set<FaceId>, anc: RouteSet, r: Tables)
    requires Agrees(t) && x in t.rib && i < |t.rib[x]| && IsAncestors(t.rib, x, anc)
    requires t.rib[x][i].face == route.face && t.rib[x][i].capture == route.capture
    requires var plan := UpdatedPlan(t.rib[x][i := route], had, t.rib[x][i], route, anc);
      plan.Some? && Applied(t, x, plan.value, r)
    requires r.rib == t.rib[x := t.rib[x][i := route]]
    ensures Agrees(r) <==> UpdateRight(t.rib, x, i, route)
  {
    var rs := t.rib[x][i := route];
    var plan := UpdatedPlan(rs, had, t.rib[x][i], route, anc).value;
    UpdateIsRightIff(t, x, plan, r);
    hide Applied, Agrees, SelfRightAt, ChildRightAt, WrongSuccessor, WrongForChildren, IsAncestors, Reached, UpdatedPlan;
    forall f: FaceId
      ensures SelfRightAt(t.rib, x, plan, r.rib, f) <==> !(f == route.face && WrongSuccessor(rs, t.rib[x][i], route))
      ensures ChildRightAt(t.rib, x, plan, r.rib, f) <==> !(f == route.face && WrongForChildren(t.rib, x, rs, t.rib[x][i], route))
    {
      UpdatedSelf(t.rib, x, i, route, had, anc, f);
      if f == route.face {
        UpdatedChild(t.rib, x, i, route, had, anc);
      } else {
        UpdatedOtherChild(t.rib, x, i, route, had, anc, f);
      }
    }
    assert SelfRightAt(t.rib, x, plan, r.rib, route.face) <==> !WrongSuccessor(rs, t.rib[x][i], route);
  }
}
