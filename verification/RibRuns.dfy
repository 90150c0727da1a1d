/** Runs of RIB updates: when the FIB stays the one computed from the whole RIB. */
module RibRuns {
  import opened Basics
  import opened Ribs
  import opened FibUpdates
  import opened RouteUpdates

  /** `next` is the route that counts as second cheapest, if several cost the same. */
  datatype RibUpdate =
    | Register(name: Name, route: Route)
    | Unregister(name: Name, face: FaceId, origin: nat, next: Option<Route>)

  const EMPTY: Tables := Tables(map[], map[], {}, map[])

  /** findRoute. */
  function FindFrom(rs: seq<Route>, face: FaceId, origin: nat, i: nat): (r: Option<nat>)
    requires i <= |rs|
    ensures r.Some? ==> r.value < |rs| && rs[r.value].face == face && rs[r.value].origin == origin
    ensures r.None? ==> forall j :: i <= j < |rs| ==> rs[j].face != face || rs[j].origin != origin
    decreases |rs| - i
  {
    if i == |rs| then None
    else if rs[i].face == face && rs[i].origin == origin then Some(i)
    else FindFrom(rs, face, origin, i + 1)
  }

  function Find(rs: seq<Route>, face: FaceId, origin: nat): (r: Option<nat>)
    ensures r.Some? ==> r.value < |rs| && rs[r.value].face == face && rs[r.value].origin == origin
  {
    FindFrom(rs, face, origin, 0)
  }

  function Had(inherited: set<(Name, FaceId)>, x: Name): (r: set<FaceId>) {
    set k | k in inherited && k.0 == x :: k.1
  }

  function One(b: bool): (n: nat) {
    if b then 1 else 0
  }

  // ---------------------------------------------------------------- one update

  ghost predicate RegistersName(t: Tables, x: Name, route: Route, r: Tables) {
    && r.rib == t.rib[x := [route]]
    && r.nCapture == t.nCapture[x := One(route.capture)]
    && exists anc :: IsAncestors(t.rib, x, anc) && Applied(t, x, NewEntryPlan(route, anc), r)
  }

  ghost predicate RegistersRoute(t: Tables, x: Name, route: Route, r: Tables)
    requires x in t.rib && x in t.nCapture
  {
    && r.rib == t.rib[x := t.rib[x] + [route]]
    && r.nCapture == t.nCapture[x := t.nCapture[x] + One(route.capture)]
    && exists anc :: IsAncestors(t.rib, x, anc)
         && Applied(t, x, NewRoutePlan(NOTHING, t.rib[x], Had(t.inherited, x), route, TurnsCaptureOn(t.rib[x], route), anc), r)
  }

  /** The counter of routes with capture is not updated. */
  ghost predicate UpdatesRoute(t: Tables, x: Name, i: nat, route: Route, r: Tables)
    requires x in t.rib && i < |t.rib[x]|
  {
    && r.rib == t.rib[x := t.rib[x][i := route]]
    && r.nCapture == t.nCapture
    && exists anc :: IsAncestors(t.rib, x, anc)
         && var plan := UpdatedPlan(t.rib[x][i := route], Had(t.inherited, x), t.rib[x][i], route, anc);
            plan.Some? && Applied(t, x, plan.value, r)
  }

  ghost predicate ErasesRoute(t: Tables, x: Name, i: nat, next: Option<Route>, r: Tables)
    requires x in t.rib && i < |t.rib[x]| && x in t.nCapture
  {
    && Erases(t.rib, x, i, r.rib) && IsSecondLowest(t.rib[x], t.rib[x][i].face, next)
    && r.nCapture == t.nCapture[x := t.nCapture[x] - One(t.rib[x][i].capture)]
    && exists anc :: IsAncestors(t.rib, x, anc)
         && Applied(t, x, UnregisterPlan(t.rib[x], i, Had(t.inherited, x), next, anc), r)
  }

  /** The registration is an update that follows a null pointer: the route gives up its place as
      the cheapest on its face, and no route on the face is for children. */
  predicate Crashes(rib: Rib, x: Name, route: Route) {
    && x in rib
    && var i := Find(rib[x], route.face, route.origin);
       i.Some? && LosesFirst(rib[x][i.value := route], rib[x][i.value], route)
       && !HasInherit(rib[x][i.value := route], route.face)
  }

  /** An update of the RIB whose FIB updates have all been carried out. */
  ghost predicate Step(t: Tables, u: RibUpdate, r: Tables)
    requires Counted(t)
  {
    match u
    case Register(x, route) =>
      if x !in t.rib then RegistersName(t, x, route, r)
      else
        var i := Find(t.rib[x], route.face, route.origin);
        if i.None? then RegistersRoute(t, x, route, r) else UpdatesRoute(t, x, i.value, route, r)
    case Unregister(x, face, origin, next) =>
      if x !in t.rib || Find(t.rib[x], face, origin).None? then r == t
      else ErasesRoute(t, x, Find(t.rib[x], face, origin).value, next, r)
  }

  /** The exact condition under which an update keeps the tables right. */
  ghost predicate Safe(rib: Rib, u: RibUpdate) {
    match u
    case Register(x, route) =>
      if x !in rib then NewEntryRight(rib, x, route)
      else
        var i := Find(rib[x], route.face, route.origin);
        if i.None? then NewRouteRight(rib, x, route)
        else rib[x][i.value].capture == route.capture && UpdateRight(rib, x, i.value, route)
    case Unregister(x, face, origin, next) =>
      x in rib && Find(rib[x], face, origin).Some? ==> UnregisterRight(rib, x, Find(rib[x], face, origin).value, next)
  }

  /** The FIB is the one computed from the RIB, and all that later updates rely on is right too. */
  ghost predicate Right(t: Tables) {
    Counted(t) && Agrees(t)
  }

  lemma HadIsInherited(t: Tables, x: Name)
    requires Agrees(t)
    ensures IsHad(t.rib, x, Had(t.inherited, x))
  {
    forall f: FaceId
      ensures f in Had(t.inherited, x) <==> Inherits(t.rib, x, f)
    {
      assert (x, f) in t.inherited <==> Inherits(t.rib, x, f);
    }
  }

  lemma {:induction false} CountWithout(rs: seq<Route>, i: nat)
    requires i < |rs|
    ensures CountCapture(rs) == CountCapture(Without(rs, i)) + One(rs[i].capture)
    decreases |rs|
  {
    var n, w := |rs| - 1, Without(rs, i);
    if i == n {
      assert w == rs[..n];
    } else {
      CountWithout(rs[..n], i);
      assert w[..n - 1] == Without(rs[..n], i) && w[n - 1] == rs[n];
    }
  }

  /** Only the entry of `x` has to be looked at. */
  lemma CountedIff(t: Tables, x: Name, r: Tables)
    requires Counted(t) && DifferAt(t.rib, r.rib, x) && forall n :: n != x && n in t.nCapture ==> n in r.nCapture && r.nCapture[n] == t.nCapture[n]
    ensures Counted(r) <==>
            (x in r.rib ==> r.rib[x] != [] && Distinct(r.rib[x]) && x in r.nCapture && r.nCapture[x] == CountCapture(r.rib[x]))
  {
    hide Distinct, CountCapture;
  }

  lemma RegisterNameIff(t: Tables, x: Name, route: Route, r: Tables)
    requires Right(t) && x !in t.rib && RegistersName(t, x, route, r)
    ensures Right(r) <==> NewEntryRight(t.rib, x, route)
  {
    var anc :| IsAncestors(t.rib, x, anc) && Applied(t, x, NewEntryPlan(route, anc), r);
    NewEntryIsRightIff(t, x, route, anc, r);
    CountedIff(t, x, r);
    assert Without([route], 0) == [];
    CountWithout([route], 0);
  }

  lemma DistinctAppended(rs: seq<Route>, route: Route)
    requires Distinct(rs) && Find(rs, route.face, route.origin).None?
    ensures Distinct(rs + [route])
  {
  }

  lemma RegisterRouteIff(t: Tables, x: Name, route: Route, r: Tables)
    requires Right(t) && x in t.rib && Find(t.rib[x], route.face, route.origin).None? && RegistersRoute(t, x, route, r)
    ensures Right(r) <==> NewRouteRight(t.rib, x, route)
  {
    var rs, had := t.rib[x], Had(t.inherited, x);
    var anc :| IsAncestors(t.rib, x, anc) && Applied(t, x, NewRoutePlan(NOTHING, rs, had, route, TurnsCaptureOn(rs, route), anc), r);
    HadIsInherited(t, x);
    NewRouteIsRightIff(t, x, route, had, anc, r);
    hide Agrees, Applied, NewRoutePlan, NewRouteRight, IsAncestors, IsHad, CountCapture, TurnsCaptureOn, Distinct, Find;
    CountedIff(t, x, r);
    assert Without(rs + [route], |rs|) == rs;
    CountWithout(rs + [route], |rs|);
    DistinctAppended(rs, route);
  }

  lemma UpdateRouteIff(t: Tables, x: Name, i: nat, route: Route, r: Tables)
    requires Right(t) && x in t.rib && i < |t.rib[x]| && t.rib[x][i].face == route.face && t.rib[x][i].origin == route.origin
    requires UpdatesRoute(t, x, i, route, r)
    ensures Right(r) <==> t.rib[x][i].capture == route.capture && UpdateRight(t.rib, x, i, route)
  {
    var rs, had := t.rib[x], Had(t.inherited, x);
    var anc :| IsAncestors(t.rib, x, anc)
      && var plan := UpdatedPlan(rs[i := route], had, rs[i], route, anc); plan.Some? && Applied(t, x, plan.value, r);
    if rs[i].capture == route.capture {
      UpdateOfRouteIsRightIff(t, x, i, route, had, anc, r);
    }
    hide Agrees, Applied, UpdatedPlan, UpdateRight, IsAncestors, CountCapture;
    CountedIff(t, x, r);
    assert Distinct(rs[i := route]);
    hide Distinct;
    assert Without(rs[i := route], i) == Without(rs, i);
    CountWithout(rs, i);
    CountWithout(rs[i := route], i);
  }

  lemma EraseRouteIff(t: Tables, x: Name, i: nat, next: Option<Route>, r: Tables)
    requires Right(t) && x in t.rib && i < |t.rib[x]| && ErasesRoute(t, x, i, next, r)
    ensures Right(r) <==> UnregisterRight(t.rib, x, i, next)
  {
    var rs, had := t.rib[x], Had(t.inherited, x);
    var anc :| IsAncestors(t.rib, x, anc) && Applied(t, x, UnregisterPlan(rs, i, had, next, anc), r);
    HadIsInherited(t, x);
    UnregisterIsRightIff(t, x, i, had, next, anc, r);
    hide Agrees, Applied, UnregisterPlan, UnregisterRight, IsAncestors, IsHad, IsSecondLowest;
    CountedIff(t, x, r);
    CountWithout(rs, i);
    DistinctWithout(rs, i);
  }

  lemma DistinctWithout(rs: seq<Route>, i: nat)
    requires i < |rs| && Distinct(rs)
    ensures Distinct(Without(rs, i))
  {
  }

  /** An update keeps the tables right if and only if it is safe. */
  lemma StepIsRightIff(t: Tables, u: RibUpdate, r: Tables)
    requires Right(t) && Step(t, u, r)
    ensures Right(r) <==> Safe(t.rib, u)
  {
    hide Agrees, RegistersName, RegistersRoute, UpdatesRoute, ErasesRoute, NewEntryRight, NewRouteRight, UpdateRight, UnregisterRight;
    match u
    case Register(x, route) =>
      if x !in t.rib {
        RegisterNameIff(t, x, route, r);
      } else {
        var i := Find(t.rib[x], route.face, route.origin);
        if i.None? {
          RegisterRouteIff(t, x, route, r);
        } else {
          UpdateRouteIff(t, x, i.value, route, r);
        }
      }
    case Unregister(x, face, origin, next) =>
      if x in t.rib && Find(t.rib[x], face, origin).Some? {
        EraseRouteIff(t, x, Find(t.rib[x], face, origin).value, next, r);
      }
  }

  // ---------------------------------------------------------------- runs

  ghost predicate IsRun(states: seq<Tables>, updates: seq<RibUpdate>) {
    && |states| == |updates| + 1 && states[0] == EMPTY
    && forall i :: 0 <= i < |updates| ==> Counted(states[i]) && Step(states[i], updates[i], states[i + 1])
  }

  lemma EmptyIsRight()
    ensures Right(EMPTY)
  {
  }

  /** In every run of safe updates the FIB is the one computed from the whole RIB, name by name and
      face by face, and the first update that is not safe ends that. */
  lemma {:induction false} FibIsRecomputedInEveryRun(states: seq<Tables>, updates: seq<RibUpdate>, n: nat)
    requires IsRun(states, updates) && n < |states| && forall i :: 0 <= i < n ==> Safe(states[i].rib, updates[i])
    ensures Right(states[n])
    ensures forall x, f: FaceId :: At(states[n].fib, (x, f)) == NextHop(states[n].rib, x, f)
    ensures n < |updates| ==> (Right(states[n + 1]) <==> Safe(states[n].rib, updates[n]))
  {
    hide Step, Safe;
    if n == 0 {
      EmptyIsRight();
    } else {
      FibIsRecomputedInEveryRun(states, updates, n - 1);
    }
    if n < |updates| {
      assert Step(states[n], updates[n], states[n + 1]);
      StepIsRightIff(states[n], updates[n], states[n + 1]);
    }
  }
}
