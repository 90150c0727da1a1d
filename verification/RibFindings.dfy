/** What the exact conditions mean: RIBs in which no name has two routes on a face, and inputs for
    which the FIB stops being the one of the RIB. */
module RibFindings {
  import opened Basics
  import opened Ribs
  import opened FibUpdates
  import opened RouteUpdates
  import opened RibRuns

  // ---------------------------------------------------------------- one route per face

  ghost predicate OnePerFace(rs: seq<Route>) {
    forall j, k :: 0 <= j < |rs| && 0 <= k < |rs| && rs[j].face == rs[k].face ==> j == k
  }

  /** No name has two routes on the same face. */
  ghost predicate Plain(rib: Rib) {
    forall n :: n in rib ==> OnePerFace(rib[n])
  }

  lemma {:induction false} FirstIsLowest(rs: seq<Route>, f: FaceId)
    requires OnePerFace(rs)
    ensures FirstInherit(rs, f) == LowestInherit(rs, f)
  {
    if rs != [] {
      var n := |rs| - 1;
      FirstIsLowest(rs[..n], f);
      if On(rs[n], f, true) {
        forall i | 0 <= i < n
          ensures !On(rs[..n][i], f, true)
        {
          assert rs[..n][i] == rs[i];
        }
      }
    }
  }

  lemma {:induction false} PlainAncestor(rib: Rib, n: Name, f: FaceId)
    requires Plain(rib)
    ensures Ancestor(rib, n, f) == Offer(rib, n, f)
    decreases |n|
  {
    var p := Parent(rib, n);
    if p.Some? {
      FirstIsLowest(rib[p.value], f);
      PlainAncestor(rib, p.value, f);
    }
  }

  /** Then a new name is always registered rightly. */
  lemma PlainNameIsSafe(rib: Rib, x: Name, route: Route)
    requires Plain(rib) && x !in rib
    ensures Safe(rib, Register(x, route))
  {
    forall f: FaceId
      ensures NewEntryFine(rib, x, route, f)
    {
      PlainAncestor(rib, x, f);
    }
  }

  /** The erased route leaves a face on which some descendant gets no route, or the wrong one. */
  ghost predicate MisleadsChildren(rib: Rib, x: Name, i: nat, f: FaceId)
    requires x in rib && i < |rib[x]|
  {
    var route, left := rib[x][i], Without(rib[x], i);
    var own := LowestInherit(left, f);
    Offer(rib, x, f).Some? &&
      if left == [] then route.capture else BringsBack(left, route) && own.Some? && own != Offer(rib, x, f)
  }

  /** And a route is unregistered rightly exactly if no reached face is offered from above while the
      last route of its entry captures, or a remaining route for children on the face costs
      something else and the ancestors' routes are brought back. */
  lemma PlainUnregisterIff(rib: Rib, x: Name, i: nat)
    requires Plain(rib) && x in rib && i < |rib[x]|
    ensures UnregisterRight(rib, x, i, None) <==> forall f: FaceId :: Reached(rib, x, f) ==> !MisleadsChildren(rib, x, i, f)
  {
    forall f: FaceId
      ensures |rib[x]| > 1 ==> ErasedSelfFine(rib, x, i, None, f)
      ensures ErasedChildFine(rib, x, i, None, f) <==> !MisleadsChildren(rib, x, i, f)
    {
      PlainAncestor(rib, x, f);
      hide Offer, Ancestor, HasCapture, Has, LowestOf, Plain;
    }
    hide ErasedSelfFine, ErasedChildFine, MisleadsChildren, Reached;
  }

  // ---------------------------------------------------------------- runs of the RIB alone

  /** Rib::insert and Rib::erase. */
  function RibAfter(rib: Rib, u: RibUpdate): (r: Rib) {
    match u
    case Register(x, route) =>
      if x !in rib then rib[x := [route]]
      else
        var i := Find(rib[x], route.face, route.origin);
        rib[x := if i.None? then rib[x] + [route] else rib[x][i.value := route]]
    case Unregister(x, face, origin, next) =>
      if x !in rib || Find(rib[x], face, origin).None? then rib
      else if |rib[x]| == 1 then rib - {x}
      else rib[x := Without(rib[x], Find(rib[x], face, origin).value)]
  }

  function RibOf(us: seq<RibUpdate>): (r: Rib) {
    if us == [] then map[] else RibAfter(RibOf(us[..|us| - 1]), us[|us| - 1])
  }

  ghost predicate AllSafe(us: seq<RibUpdate>) {
    forall i :: 0 <= i < |us| ==> Safe(RibOf(us[..i]), us[i])
  }

  /** The updates are safe, and lead to this RIB. */
  ghost predicate LeadTo(us: seq<RibUpdate>, rib: Rib) {
    AllSafe(us) && RibOf(us) == rib
  }

  lemma LeadToEmpty()
    ensures LeadTo([], map[])
  {
  }

  lemma LeadToNext(us: seq<RibUpdate>, rib: Rib, u: RibUpdate)
    requires LeadTo(us, rib) && Safe(rib, u)
    ensures LeadTo(us + [u], RibAfter(rib, u))
  {
    hide Safe, RibAfter;
    var vs := us + [u];
    assert vs[..|us|] == us;
    forall i | 0 <= i < |vs|
      ensures Safe(RibOf(vs[..i]), vs[i])
    {
      if i < |us| {
        assert vs[..i] == us[..i];
      }
    }
  }

  lemma StepFollowsRib(t: Tables, u: RibUpdate, r: Tables)
    requires Counted(t) && Step(t, u, r)
    ensures r.rib == RibAfter(t.rib, u)
  {
    hide Applied, Counted, IsSecondLowest, IsAncestors, NewEntryPlan, NewRoutePlan, UpdatedPlan, UnregisterPlan;
  }

  lemma {:induction false} RunFollowsRib(states: seq<Tables>, us: seq<RibUpdate>, n: nat)
    requires IsRun(states, us) && n < |states|
    ensures states[n].rib == RibOf(us[..n])
  {
    hide Step, RibAfter;
    if n > 0 {
      RunFollowsRib(states, us, n - 1);
      assert us[..n][..n - 1] == us[..n - 1];
      assert Step(states[n - 1], us[n - 1], states[n - 1 + 1]);
      StepFollowsRib(states[n - 1], us[n - 1], states[n]);
    }
  }

  /** After the unsafe update the tables are not right any more. */
  lemma UnsafeIsWrong(states: seq<Tables>, us: seq<RibUpdate>, rib: Rib)
    requires IsRun(states, us) && us != [] && LeadTo(us[..|us| - 1], rib) && !Safe(rib, us[|us| - 1])
    ensures Right(states[|us| - 1]) && !Right(states[|us|])
  {
    var n := |us| - 1;
    assert |states| == n + 2;
    hide IsRun, Safe, Right;
    forall i | 0 <= i < n
      ensures Safe(RibOf(us[..i]), us[i])
    {
      assert us[..n][..i] == us[..i] && us[..n][i] == us[i];
    }
    forall i | 0 <= i <= n
      ensures states[i].rib == RibOf(us[..i])
    {
      RunFollowsRib(states, us, i);
    }
    FibIsRecomputedInEveryRun(states, us, n);
  }

  // ---------------------------------------------------------------- inputs

  const A: Name := ["a"]
  const B: Name := ["a", "b"]

  /** A root, a name below it and one below that. */
  function Levels(r0: seq<Route>, r1: seq<Route>, r2: seq<Route>): (rib: Rib) {
    map[[] := r0, A := r1, B := r2]
  }

  /** They are built by safe registrations of one route each. */
  lemma BuildLevels(r0: Route, r1: Route, r2: Route)
    ensures LeadTo([Register([], r0), Register(A, r1), Register(B, r2)], Levels([r0], [r1], [r2]))
    ensures LeadTo([Register([], r0), Register(A, r1)], map[[] := [r0], A := [r1]])
  {
    hide Safe, LeadTo;
    LeadToEmpty();
    PlainNameIsSafe(map[], [], r0);
    LeadToNext([], map[], Register([], r0));
    var one: Rib := map[[] := [r0]];
    assert RibAfter(map[], Register([], r0)) == one;
    PlainNameIsSafe(one, A, r1);
    assert [] + [Register([], r0)] == [Register([], r0)];
    LeadToNext([Register([], r0)], one, Register(A, r1));
    var two: Rib := map[[] := [r0], A := [r1]];
    assert RibAfter(one, Register(A, r1)) == two;
    assert [Register([], r0)] + [Register(A, r1)] == [Register([], r0), Register(A, r1)];
    PlainNameIsSafe(two, B, r2);
    LeadToNext([Register([], r0), Register(A, r1)], two, Register(B, r2));
    assert RibAfter(two, Register(B, r2)) == Levels([r0], [r1], [r2]);
    assert [Register([], r0), Register(A, r1)] + [Register(B, r2)] == [Register([], r0), Register(A, r1), Register(B, r2)];
  }

  lemma LevelsAre(r0: seq<Route>, r1: seq<Route>, r2: seq<Route>, f: FaceId)
    ensures var rib := Levels(r0, r1, r2);
      && Offer(rib, A, f) == LowestInherit(r0, f)
      && (!HasFace(r2, f) && !HasCapture(r2) ==> Reached(rib, A, f))
  {
    var rib := Levels(r0, r1, r2);
    assert A[..0] == [] && B[..1] == A;
    assert Parent(rib, []) == None;
    assert Parent(rib, A) == Some([]);
    assert Parent(rib, B) == Some(A);
    assert Below(rib, A, B, f);
    if !HasFace(r2, f) && !HasCapture(r2) {
      assert Reaches(rib, A, B, f);
    }
  }

  /** A name below the root. */
  lemma BelowRoot(r0: seq<Route>, f: FaceId)
    ensures Offer(map[[] := r0], A, f) == LowestInherit(r0, f) && Ancestor(map[[] := r0], A, f) == FirstInherit(r0, f)
  {
    var rib: Rib := map[[] := r0];
    assert A[..0] == [];
    assert Parent(rib, []) == None;
    assert Parent(rib, A) == Some([]);
  }

  const FOR_CHILDREN: Route := Route(1, 0, 10, true, false)
  const CAPTURING: Route := Route(2, 0, 10, false, true)
  const ORDINARY: Route := Route(3, 0, 10, false, false)

  /** The only route of a name captures.  When it is erased, the names below do not get back the
      routes of its ancestors. */
  lemma ErasedCaptureKeepsBlocking()
    ensures LeadTo([Register([], FOR_CHILDREN), Register(A, CAPTURING), Register(B, ORDINARY)],
                   Levels([FOR_CHILDREN], [CAPTURING], [ORDINARY]))
    ensures !Safe(Levels([FOR_CHILDREN], [CAPTURING], [ORDINARY]), Unregister(A, 2, 0, None))
  {
    BuildLevels(FOR_CHILDREN, CAPTURING, ORDINARY);
    LevelsAre([FOR_CHILDREN], [CAPTURING], [ORDINARY], 1);
    OneRoute(FOR_CHILDREN, 1, true);
    OneRoute(ORDINARY, 1, false);
    var rib := Levels([FOR_CHILDREN], [CAPTURING], [ORDINARY]);
    assert Find(rib[A], 2, 0) == Some(0) && Without(rib[A], 0) == [];
    assert !ErasedChildFine(rib, A, 0, None, 1);
  }

  /** A new route captures.  The names below lose the name's own route for them on a face that its
      ancestors have a route for. */
  lemma CaptureTakesOwnRouteAway()
    ensures var own := Route(1, 0, 20, true, false);
      && LeadTo([Register([], FOR_CHILDREN), Register(A, own), Register(B, ORDINARY)], Levels([FOR_CHILDREN], [own], [ORDINARY]))
      && !Safe(Levels([FOR_CHILDREN], [own], [ORDINARY]), Register(A, CAPTURING))
  {
    var own := Route(1, 0, 20, true, false);
    BuildLevels(FOR_CHILDREN, own, ORDINARY);
    LevelsAre([FOR_CHILDREN], [own], [ORDINARY], 1);
    OneRoute(FOR_CHILDREN, 1, true);
    OneRoute(own, 1, true);
    OneRoute(ORDINARY, 1, false);
    var rib := Levels([FOR_CHILDREN], [own], [ORDINARY]);
    assert Find(rib[A], 2, 0) == None;
    assert RemovesTooMuch(rib, A, CAPTURING, 1);
  }

  /** A route on an inherited face leaves the face recorded as inherited. */
  lemma InheritedFaceStaysRecorded()
    ensures LeadTo([Register([], FOR_CHILDREN), Register(A, ORDINARY)], map[[] := [FOR_CHILDREN], A := [ORDINARY]])
    ensures !Safe(map[[] := [FOR_CHILDREN], A := [ORDINARY]], Register(A, Route(1, 0, 5, false, false)))
  {
    BuildLevels(FOR_CHILDREN, ORDINARY, ORDINARY);
    var rib: Rib := map[[] := [FOR_CHILDREN], A := [ORDINARY]];
    BelowRoot([FOR_CHILDREN], 1);
    OneRoute(FOR_CHILDREN, 1, true);
    OneRoute(ORDINARY, 1, false);
    OfferOutside(map[[] := [FOR_CHILDREN]], rib, A, A, 1);
    assert Find(rib[A], 1, 0) == None;
    assert LeavesRecord(rib, A, Route(1, 0, 5, false, false));
  }

  /** One more route of a name on a face that it has a route on. */
  lemma AnotherRoute(us: seq<RibUpdate>, x: Name, rs: seq<Route>, r: Route)
    requires LeadTo(us, map[x := rs]) && HasFace(rs, r.face) && Find(rs, r.face, r.origin).None? && !r.capture
    ensures LeadTo(us + [Register(x, r)], map[x := rs + [r]])
  {
    var rib: Rib := map[x := rs];
    assert !Inherits(rib, x, r.face);
    assert Safe(rib, Register(x, r));
    hide Safe, LeadTo;
    LeadToNext(us, rib, Register(x, r));
    assert RibAfter(rib, Register(x, r)) == map[x := rs + [r]];
  }

  lemma BuildTwo(x: Name, r0: Route, r1: Route)
    requires r0.face == r1.face && r0.origin != r1.origin && !r1.capture
    ensures LeadTo([Register(x, r0), Register(x, r1)], map[x := [r0, r1]])
  {
    LeadToEmpty();
    PlainNameIsSafe(map[], x, r0);
    OneRoute(r0, r1.face, false);
    hide Safe, LeadTo;
    LeadToNext([], map[], Register(x, r0));
    assert [] + [Register(x, r0)] == [Register(x, r0)];
    var one: Rib := map[x := [r0]];
    assert RibAfter(map[], Register(x, r0)) == one;
    AnotherRoute([Register(x, r0)], x, [r0], r1);
    assert [r0] + [r1] == [r0, r1];
    assert [Register(x, r0)] + [Register(x, r1)] == [Register(x, r0), Register(x, r1)];
  }

  const CHEAP: Route := Route(1, 0, 10, false, false)
  const DEAR: Route := Route(1, 1, 20, false, false)

  /** Erasing the costlier of two routes on a face removes the next hop. */
  lemma ErasedRouteTakesCheaperAway()
    ensures LeadTo([Register(A, CHEAP), Register(A, DEAR)], map[A := [CHEAP, DEAR]])
    ensures IsSecondLowest([CHEAP, DEAR], 1, Some(DEAR))
    ensures !Safe(map[A := [CHEAP, DEAR]], Unregister(A, 1, 1, Some(DEAR)))
  {
    BuildTwo(A, CHEAP, DEAR);
    var rib: Rib := map[A := [CHEAP, DEAR]];
    assert IsSecondAt([CHEAP, DEAR], 1, 0, 1);
    assert Find(rib[A], 1, 1) == Some(1) by {
      assert FindFrom([CHEAP, DEAR], 1, 1, 1) == Some(1);
    }
    assert Without(rib[A], 1) == [CHEAP];
    OneRoute(CHEAP, 1, false);
    assert !ErasedSelfFine(rib, A, 1, Some(DEAR), 1);
  }

  /** Making the cheaper of two ordinary routes on a face the costlier one follows a null pointer. */
  lemma RaisedCostCrashes()
    ensures LeadTo([Register(A, CHEAP), Register(A, DEAR)], map[A := [CHEAP, DEAR]])
    ensures Crashes(map[A := [CHEAP, DEAR]], A, Route(1, 0, 30, false, false))
  {
    BuildTwo(A, CHEAP, DEAR);
    var raised := Route(1, 0, 30, false, false);
    assert Find([CHEAP, DEAR], 1, 0) == Some(0);
    var rs := [CHEAP, DEAR][0 := raised];
    assert rs == [raised, DEAR] && Without(rs, 1) == [raised];
    LowestWithout(rs, 1, 1, false);
    OneRoute(raised, 1, false);
    assert !HasInherit(rs, 1);
  }

  /** Another route on the face is for children, but costs more than a third one: it is put in place
      of the route whose cost was raised. */
  lemma WrongRouteSucceeds()
    ensures var third := Route(1, 2, 30, true, false);
      && LeadTo([Register(A, CHEAP), Register(A, DEAR), Register(A, third)], map[A := [CHEAP, DEAR, third]])
      && !Crashes(map[A := [CHEAP, DEAR, third]], A, Route(1, 0, 40, false, false))
      && !Safe(map[A := [CHEAP, DEAR, third]], Register(A, Route(1, 0, 40, false, false)))
  {
    var third, raised := Route(1, 2, 30, true, false), Route(1, 0, 40, false, false);
    BuildTwo(A, CHEAP, DEAR);
    assert On([CHEAP, DEAR][0], 1, false);
    AnotherRoute([Register(A, CHEAP), Register(A, DEAR)], A, [CHEAP, DEAR], third);
    assert [CHEAP, DEAR] + [third] == [CHEAP, DEAR, third];
    assert [Register(A, CHEAP), Register(A, DEAR)] + [Register(A, third)] == [Register(A, CHEAP), Register(A, DEAR), Register(A, third)];
    assert Find([CHEAP, DEAR, third], 1, 0) == Some(0);
    var rs := [CHEAP, DEAR, third][0 := raised];
    RaisedRoutes(raised, third);
    assert rs == [raised, DEAR, third];
  }

  lemma RaisedRoutes(raised: Route, third: Route)
    requires raised == Route(1, 0, 40, false, false) && third == Route(1, 2, 30, true, false)
    ensures Lowest([raised, DEAR, third], 1) == Some(20) && LowestInherit([raised, DEAR, third], 1) == Some(30)
  {
    var rs := [raised, DEAR, third];
    assert rs[..2] == [raised, DEAR] && [raised, DEAR][..1] == [raised];
    OneRoute(raised, 1, false);
    OneRoute(raised, 1, true);
    assert Lowest([raised, DEAR], 1) == Some(20) && LowestInherit([raised, DEAR], 1) == None;
  }

  /** getAncestorRoutes takes the first of two routes on a face, here the costlier one. */
  lemma FirstRouteIsInherited()
    ensures var dear, cheap := Route(1, 0, 20, true, false), Route(1, 1, 10, true, false);
      && LeadTo([Register([], dear), Register([], cheap)], map[[] := [dear, cheap]])
      && !Safe(map[[] := [dear, cheap]], Register(A, ORDINARY))
  {
    var dear, cheap := Route(1, 0, 20, true, false), Route(1, 1, 10, true, false);
    BuildTwo([], dear, cheap);
    BelowRoot([dear, cheap], 1);
    assert [dear, cheap][..1] == [dear] && [dear][..0] == [];
    assert FirstInherit([dear], 1) == Some(20) && LowestOf([dear], 1, true) == Some(20);
    assert !NewEntryFine(map[[] := [dear, cheap]], A, ORDINARY, 1);
  }

  /** An update that changes the capture flag leaves the counter of such routes as it was. */
  lemma ChangedCaptureIsNotCounted(rib: Rib, x: Name, route: Route)
    requires x in rib && Find(rib[x], route.face, route.origin).Some?
    requires rib[x][Find(rib[x], route.face, route.origin).value].capture != route.capture
    ensures !Safe(rib, Register(x, route))
  {
  }
}
