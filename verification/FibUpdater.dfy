/** FibUpdater and the RIB it serves: the traversals of the tree, as they are programmed, compute
    the decisions of the plans. */
module FibUpdaters {
  import opened Basics
  import opened Ribs
  import opened FibUpdates
  import opened RouteUpdates
  import opened RibRuns

  /** What a descendant that takes routes from above decides, with `u` decided so far. */
  function Turn(u: Option<Option<nat>>, add: RouteSet, remove: set<FaceId>, had: bool, f: FaceId): (r: Option<Option<nat>>) {
    if f in add then Some(Some(add[f])) else if f in remove && had then Some(None) else u
  }

  function TurnRecord(u: Option<bool>, add: RouteSet, remove: set<FaceId>, had: bool, f: FaceId): (r: Option<bool>) {
    if f in add then Some(true) else if f in remove && had then Some(false) else u
  }

  /** The entries next below `x`. */
  ghost predicate IsChildren(rib: Rib, x: Name, kids: set<Name>) {
    forall c :: c in kids <==> IsChild(rib, x, c)
  }

  ghost predicate IsChild(rib: Rib, x: Name, c: Name) {
    c in rib && x < c && (Parent(rib, c).Some? ==> |Parent(rib, c).value| <= |x|)
  }

  /** A route passes from `n` to `m`. */
  ghost predicate Open(rib: Rib, n: Name, m: Name, f: FaceId) {
    || m == n
    || (n in rib && n < m && !HasCapture(rib[n]) && !HasInherit(rib[n], f) && Below(rib, n, m, f))
  }

  /** Every descendant is below exactly one child. */
  lemma {:induction false} ChildAbove(rib: Rib, x: Name, m: Name) returns (c: Name)
    requires m in rib && x < m
    ensures IsChild(rib, x, c) && c <= m
    decreases |m|
  {
    var p := Parent(rib, m);
    if p.Some? && |p.value| > |x| {
      PrefixesNest(x, p.value, m);
      c := ChildAbove(rib, x, p.value);
    } else {
      c := m;
    }
  }

  lemma ChildIsUnique(rib: Rib, x: Name, c: Name, d: Name, m: Name)
    requires IsChild(rib, x, c) && IsChild(rib, x, d) && c <= m && d <= m
    ensures c == d
  {
    if |c| < |d| {
      PrefixesNest(c, d, m);
      ParentIsNearest(rib, d, c);
    } else if |d| < |c| {
      PrefixesNest(d, c, m);
      ParentIsNearest(rib, c, d);
    } else {
      PrefixesNest(c, d, m);
    }
  }

  lemma {:induction false} OpenFromChild(rib: Rib, x: Name, c: Name, m: Name, f: FaceId)
    requires IsChild(rib, x, c) && m in rib && c <= m
    ensures x < m && (Below(rib, x, m, f) <==> Open(rib, c, m, f))
    decreases |m|
  {
    if c == m {
    } else {
      ParentIsNearest(rib, m, c);
      var p := Parent(rib, m).value;
      OpenFromChild(rib, x, c, p, f);
      PrefixesNest(x, m, m);
      if p != c {
        PrefixesNest(c, p, m);
      }
    }
  }

  /** The entries with longer names, for termination. */
  function Longer(rib: Rib, n: Name): (r: set<Name>) {
    set m | m in rib && |m| > |n|
  }

  class FibUpdater {
    var rib: Rib
    var nCapture: map<Name, int>
    var inherited: set<(Name, FaceId)>
    var fib: map<(Name, FaceId), nat>

    /** The FIB updates of this batch; a new update for the same name and face replaces the old one. */
    var updates: map<(Name, FaceId), Option<nat>>
    /** The changes of inherited routes, of which the last for each name and face counts. */
    var inheritedRoutes: map<(Name, FaceId), bool>

    ghost function State(): Tables
      reads this
    {
      Tables(rib, nCapture, inherited, fib)
    }

    /** The FIB is the one computed from the RIB, and the counters and records are right. */
    ghost predicate Valid()
      reads this
    {
      Right(State())
    }

    /** The updates so far are those of the plan. */
    ghost predicate Holds(x: Name, plan: Plan)
      reads this
    {
      Carries(rib, x, plan, updates, inheritedRoutes)
    }

    // -------------------------------------------------------------- the RIB

    constructor ()
      ensures State() == EMPTY && Valid()
    {
      rib, nCapture, inherited, fib := map[], map[], {}, map[];
      updates, inheritedRoutes := map[], map[];
    }

    method FindParent(n: Name) returns (p: Option<Name>)
      ensures p == Parent(rib, n)
    {
      var i := |n|;
      while i > 0
        invariant 0 <= i <= |n| && ParentFrom(rib, n, i) == Parent(rib, n)
      {
        i := i - 1;
        if n[..i] in rib {
          return Some(n[..i]);
        }
      }
      return None;
    }

    method GetAncestorRoutes(n: Name) returns (anc: RouteSet)
      requires Valid()
      ensures IsAncestors(rib, n, anc)
    {
      hide Agrees, HasCapture, CountCapture, Distinct, FirstInherit;
      anc := map[];
      var parent := FindParent(n);
      while parent.Some?
        invariant parent.Some? ==> parent.value in rib
        invariant forall f: FaceId :: Ancestor(rib, n, f) ==
                    if f in anc then Some(anc[f]) else if parent.Some? then AncestorFrom(rib, parent.value, f) else None
        decreases if parent.Some? then |parent.value| + 1 else 0
      {
        var p := parent.value;
        assert nCapture[p] > 0 <==> HasCapture(rib[p]);
        anc := InsertInherited(anc, rib[p]);
        if nCapture[p] > 0 {
          parent := None;
        } else {
          parent := FindParent(p);
        }
      }
    }

    // -------------------------------------------------------------- updates

    method AddFibUpdate(n: Name, f: FaceId, cost: Option<nat>)
      modifies this`updates
      ensures updates == old(updates)[(n, f) := cost]
    {
      updates := updates[(n, f) := cost];
    }

    /** The decisions of one entry: routes are removed and added by face; what the entry itself has
        for children is not passed on. */
    method TouchEntry(n: Name, add: RouteSet, remove: set<FaceId>) returns (addDown: RouteSet, removeDown: set<FaceId>)
      requires Valid() && n in rib && !HasCapture(rib[n])
      modifies this`updates, this`inheritedRoutes
      ensures Touched(rib, n, add, remove, old(updates), old(inheritedRoutes), updates, inheritedRoutes)
      ensures Filtered(rib[n], add, remove, addDown, removeDown)
    {
      hide HasCapture, HasFace, HasInherit, Offer, Removed, Added, Touched, Right;
      removeDown := RemoveFrom(n, remove);
      ghost var us, rs := updates, inheritedRoutes;
      addDown := AddTo(n, add);
      RemovedAndAdded(rib, n, add, remove, old(updates), old(inheritedRoutes), us, rs, updates, inheritedRoutes);
    }

    method RemoveFrom(n: Name, remove: set<FaceId>) returns (down: set<FaceId>)
      requires Valid() && n in rib
      modifies this`updates, this`inheritedRoutes
      ensures Removed(rib, n, remove, old(updates), old(inheritedRoutes), updates, inheritedRoutes)
      ensures forall f: FaceId :: f in down <==> f in remove && !HasInherit(rib[n], f)
    {
      hide Counted, Removed, Inherits, HasFace, HasInherit, NextHop;
      var todo := remove;
      down := remove;
      RemovedNone(rib, n, updates, inheritedRoutes);
      assert remove - todo == {};
      while todo != {}
        invariant todo <= remove
        invariant forall f: FaceId :: f in down <==> f in remove && (f in todo || !HasInherit(rib[n], f))
        invariant Removed(rib, n, remove - todo, old(updates), old(inheritedRoutes), updates, inheritedRoutes)
        decreases |todo|
      {
        var f :| f in todo;
        assert (n, f) in inherited <==> Inherits(rib, n, f);
        RemovedStep(rib, n, remove - todo, old(updates), old(inheritedRoutes), updates, inheritedRoutes, f);
        assert remove - (todo - {f}) == (remove - todo) + {f};
        todo := todo - {f};
        if HasInherit(rib[n], f) {
          assert !Inherits(rib, n, f) by { InheritIsFace(rib, n, f); }
          down := down - {f};
        } else if (n, f) in inherited {
          AddFibUpdate(n, f, None);
          inheritedRoutes := inheritedRoutes[(n, f) := false];
        }
      }
      assert remove - todo == remove;
    }

    method AddTo(n: Name, add: RouteSet) returns (down: RouteSet)
      requires n in rib
      modifies this`updates, this`inheritedRoutes
      ensures Added(n, rib[n], add, add.Keys, old(updates), old(inheritedRoutes), updates, inheritedRoutes)
      ensures forall f: FaceId :: At(down, f) == if HasInherit(rib[n], f) then None else At(add, f)
    {
      hide Added, HasFace, HasInherit;
      var todo := add.Keys;
      down := add;
      AddedNone(n, rib[n], add, updates, inheritedRoutes);
      assert add.Keys - todo == {};
      while todo != {}
        invariant todo <= add.Keys
        invariant forall f: FaceId :: At(down, f) == if f !in todo && HasInherit(rib[n], f) then None else At(add, f)
        invariant Added(n, rib[n], add, add.Keys - todo, old(updates), old(inheritedRoutes), updates, inheritedRoutes)
        decreases |todo|
      {
        var f :| f in todo;
        AddedStep(n, rib[n], add, add.Keys - todo, old(updates), old(inheritedRoutes), updates, inheritedRoutes, f);
        assert add.Keys - (todo - {f}) == (add.Keys - todo) + {f};
        todo := todo - {f};
        if HasInherit(rib[n], f) {
          assert HasFace(rib[n], f) by { InheritIsFace(rib, n, f); }
          down := down - {f};
        } else if !HasFace(rib[n], f) {
          inheritedRoutes := inheritedRoutes[(n, f) := true];
          AddFibUpdate(n, f, Some(add[f]));
        }
      }
      assert add.Keys - todo == add.Keys;
    }

    /** traverseSubTree: exactly the entries that a route from `n` reaches take the change. */
    method TraverseSubTree(n: Name, add: RouteSet, remove: set<FaceId>)
      requires Valid() && n in rib
      modifies this`updates, this`inheritedRoutes
      ensures Traversed(rib, n, add, remove, old(updates), old(inheritedRoutes), updates, inheritedRoutes)
      decreases Longer(rib, n), 1
    {
      hide HasCapture, Agrees, Touched, Turned, Traversed, Filtered, CountCapture, Distinct, IsChildren;
      assert nCapture[n] > 0 <==> HasCapture(rib[n]) by { CountIsCapture(rib[n]); }
      if nCapture[n] > 0 {
        CapturedIsSkipped(rib, n, add, remove, updates, inheritedRoutes);
        return;
      }
      var addDown, removeDown := TouchEntry(n, add, remove);
      ghost var us, rs := updates, inheritedRoutes;
      var kids := set c | c in rib && n < c && Parent(rib, c) == Some(n);
      ChildrenOfEntry(rib, n, kids);
      ModifyChildrensInheritedRoutes(n, kids, addDown, removeDown);
      TouchedAndTurned(rib, n, add, remove, addDown, removeDown,
                       old(updates), old(inheritedRoutes), us, rs, updates, inheritedRoutes);
    }

    /** modifyChildrensInheritedRoutes. */
    method ModifyChildrensInheritedRoutes(x: Name, kids: set<Name>, add: RouteSet, remove: set<FaceId>)
      requires Valid() && IsChildren(rib, x, kids)
      modifies this`updates, this`inheritedRoutes
      ensures Turned(rib, x, add, remove, old(updates), old(inheritedRoutes), updates, inheritedRoutes)
      decreases Longer(rib, x), 0
    {
      hide Right, IsChild, Traversed, Walked, Turned;
      var todo := kids;
      assert kids - todo == {};
      WalkedNone(rib, add, remove, updates, inheritedRoutes);
      while todo != {}
        invariant todo <= kids
        invariant Walked(rib, kids - todo, add, remove, old(updates), old(inheritedRoutes), updates, inheritedRoutes)
        decreases |todo|
      {
        var c :| c in todo;
        assert IsChild(rib, x, c);
        ChildIsLonger(rib, x, c);
        ghost var us, rs := updates, inheritedRoutes;
        TraverseSubTree(c, add, remove);
        VisitOneMore(rib, x, kids, todo, c);
        WalkedStep(rib, kids - todo, kids - (todo - {c}), c, add, remove,
                   old(updates), old(inheritedRoutes), us, rs, updates, inheritedRoutes);
        todo := todo - {c};
      }
      assert kids - todo == kids;
      AllVisited(rib, x, kids);
      WalkedIsTurned(rib, x, kids, add, remove, old(updates), old(inheritedRoutes), updates, inheritedRoutes);
    }

    // -------------------------------------------------------------- plans

    /** addInheritedRoutes, for an entry with the routes `own`. */
    method AddInheritedRoutes(x: Name, own: seq<Route>, anc: RouteSet, ghost p: Plan)
      requires Holds(x, p)
      modifies this`updates, this`inheritedRoutes
      ensures Holds(x, Inheriting(p, own, anc))
    {
      hide Added, HasFace, Carries, Inheriting;
      var todo := anc.Keys;
      AddedNone(x, own, anc, updates, inheritedRoutes);
      assert anc.Keys - todo == {};
      while todo != {}
        invariant todo <= anc.Keys
        invariant Added(x, own, anc, anc.Keys - todo, old(updates), old(inheritedRoutes), updates, inheritedRoutes)
        decreases |todo|
      {
        var f :| f in todo;
        AddedStep(x, own, anc, anc.Keys - todo, old(updates), old(inheritedRoutes), updates, inheritedRoutes, f);
        assert anc.Keys - (todo - {f}) == (anc.Keys - todo) + {f};
        todo := todo - {f};
        if !HasFace(own, f) {
          inheritedRoutes := inheritedRoutes[(x, f) := true];
          AddFibUpdate(x, f, Some(anc[f]));
        }
      }
      assert anc.Keys - todo == anc.Keys;
      CarriesInheriting(rib, x, p, own, anc, old(updates), old(inheritedRoutes), updates, inheritedRoutes);
    }

    /** removeInheritedRoutes. */
    method RemoveInheritedRoutes(x: Name, faces: set<FaceId>, ghost p: Plan)
      requires Valid() && Holds(x, p)
      modifies this`updates, this`inheritedRoutes
      ensures Holds(x, Disinheriting(p, Had(inherited, x), faces))
    {
      hide Counted, Removed, Inherits, NextHop, Carries, Disinheriting, Had;
      var todo := faces;
      RemovedNone(rib, x, updates, inheritedRoutes);
      assert faces - todo == {};
      while todo != {}
        invariant todo <= faces
        invariant Removed(rib, x, faces - todo, old(updates), old(inheritedRoutes), updates, inheritedRoutes)
        decreases |todo|
      {
        var f :| f in todo;
        assert (x, f) in inherited <==> Inherits(rib, x, f);
        RemovedStep(rib, x, faces - todo, old(updates), old(inheritedRoutes), updates, inheritedRoutes, f);
        assert faces - (todo - {f}) == (faces - todo) + {f};
        todo := todo - {f};
        if (x, f) in inherited {
          inheritedRoutes := inheritedRoutes[(x, f) := false];
          AddFibUpdate(x, f, None);
        }
      }
      assert faces - todo == faces;
      HadIsInherited(State(), x);
      CarriesDisinheriting(rib, x, p, Had(inherited, x), faces,
                           old(updates), old(inheritedRoutes), updates, inheritedRoutes);
    }

    /** modifyChildrensInheritedRoutes of the children of a name, with or without an entry. */
    method TellChildren(x: Name, add: RouteSet, remove: set<FaceId>, ghost p: Plan)
      requires Valid() && Holds(x, p)
      modifies this`updates, this`inheritedRoutes
      ensures Holds(x, Telling(p, add, remove))
    {
      hide Carries, Turned, Telling, Counted, Agrees, IsChildren, Reaches, Turn, TurnRecord;
      var kids;
      if x in rib {
        kids := set c | c in rib && x < c && Parent(rib, c) == Some(x);
        ChildrenOfEntry(rib, x, kids);
      } else {
        kids := set c | c in rib && x < c && Parent(rib, c) == Parent(rib, x);
        ChildrenOfNewName(rib, x, kids);
      }
      ModifyChildrensInheritedRoutes(x, kids, add, remove);
      CarriesTelling(rib, x, p, add, remove, old(updates), old(inheritedRoutes), updates, inheritedRoutes);
    }

    /** One update for the entry itself. */
    method UpdateSelf(x: Name, f: FaceId, cost: Option<nat>, ghost p: Plan)
      requires Holds(x, p)
      modifies this`updates
      ensures Holds(x, SetSelf(p, f, cost))
    {
      hide Carries;
      AddFibUpdate(x, f, cost);
      CarriesSelf(rib, x, p, old(updates), inheritedRoutes, f, cost);
    }

    method CreateFibUpdatesForNewRibEntry(x: Name, route: Route) returns (ghost anc: RouteSet)
      requires Valid() && Holds(x, NOTHING)
      modifies this`updates, this`inheritedRoutes
      ensures IsAncestors(rib, x, anc) && Holds(x, NewEntryPlan(route, anc))
    {
      hide Carries, IsAncestors, Counted, Agrees, Inheriting, Telling;
      var ancestors := GetAncestorRoutes(x);
      anc := ancestors;
      UpdateSelf(x, route.face, Some(route.cost), NOTHING);
      ghost var p := Adding(NOTHING, route.face, route.cost);
      if !route.childInherit && !route.capture {
        AddInheritedRoutes(x, [route], ancestors, p);
      } else if route.childInherit && route.capture {
        TellChildren(x, map[route.face := route.cost], ancestors.Keys, p);
      } else if route.childInherit {
        AddInheritedRoutes(x, [route], ancestors, p);
        TellChildren(x, ancestors[route.face := route.cost], {}, Inheriting(p, [route], anc));
      } else {
        TellChildren(x, map[], ancestors.Keys, p);
      }
    }

    /** For an entry with the routes `rs`, which is a copy when a route is being erased. */
    method CreateFibUpdatesForNewRoute(x: Name, rs: seq<Route>, route: Route, captureOn: bool, anc: RouteSet, ghost p: Plan)
      requires Valid() && Holds(x, p)
      modifies this`updates, this`inheritedRoutes
      ensures Holds(x, NewRoutePlan(p, rs, Had(inherited, x), route, captureOn, anc))
    {
      hide Carries, Right, Disinheriting, Telling, LowestOf, Had;
      var prev := LowestCost(rs, route.face, true);
      var add: RouteSet := map[];
      if route.childInherit && (prev.None? || route.cost <= prev.value) {
        add := map[route.face := route.cost];
      }
      var remove: set<FaceId> := {};
      if captureOn {
        remove := anc.Keys;
        RemoveInheritedRoutes(x, remove, p);
      }
      ghost var q := if captureOn then Disinheriting(p, Had(inherited, x), remove) else p;
      TellChildren(x, add, remove, q);
      var other := LowestCost(rs, route.face, false);
      if other.None? || route.cost <= other.value {
        UpdateSelf(x, route.face, Some(route.cost), Telling(q, add, remove));
      }
    }

    /** For an entry with the routes `rs`, in which `route` has already replaced `was`.  `crashed`
        if a null pointer is followed. */
    method CreateFibUpdatesForUpdatedRoute(x: Name, rs: seq<Route>, was: Route, route: Route,
                                           anc: RouteSet) returns (crashed: bool)
      requires Valid() && Holds(x, NOTHING) && HasFace(rs, route.face)
      modifies this`updates, this`inheritedRoutes
      ensures var plan := UpdatedPlan(rs, Had(inherited, x), was, route, anc);
        if crashed then plan.None? else plan.Some? && Holds(x, plan.value)
    {
      hide Carries, Right, Disinheriting, Inheriting, Telling, LowestOf, Had, Has;
      crashed := false;
      var prev := LowestCost(rs, route.face, true);
      if SameFlags(was, route) && was.cost == route.cost {
        return;
      }
      ghost var p := NOTHING;
      if was.cost != route.cost {
        var lowest := LowestCost(rs, route.face, false);
        if route.cost <= lowest.value {
          UpdateSelf(x, route.face, Some(route.cost), p);
          p := Adding(p, route.face, route.cost);
        } else if was.cost < lowest.value {
          if prev.None? {
            return true;
          }
          UpdateSelf(x, route.face, prev, p);
          p := Adding(p, route.face, prev.value);
        }
        assert p == CostPlan(rs, was, route);
        if (prev.None? || route.cost <= prev.value) && SameFlags(was, route) && route.childInherit {
          TellChildren(x, map[route.face := route.cost], {}, p);
          return;
        }
      }
      assert p == CostPlan(rs, was, route);
      UpdateInheritance(x, rs, prev, was, route, anc, p);
      p := InheritPlan(p, rs, was, route, anc);
      if !was.capture && route.capture {
        RemoveInheritedRoutes(x, anc.Keys, p);
        TellChildren(x, map[], anc.Keys, Disinheriting(p, Had(inherited, x), anc.Keys));
      } else if was.capture && !route.capture {
        AddInheritedRoutes(x, rs, anc, p);
        TellChildren(x, anc, {}, Inheriting(p, rs, anc));
      }
    }

    /** The child inherit flag is turned on or off. */
    method UpdateInheritance(x: Name, rs: seq<Route>, prev: Option<nat>, was: Route, route: Route,
                             anc: RouteSet, ghost p: Plan)
      requires Valid() && Holds(x, p) && prev == LowestInherit(rs, route.face)
      modifies this`updates, this`inheritedRoutes
      ensures Holds(x, InheritPlan(p, rs, was, route, anc))
    {
      hide Carries, Right, Telling, LowestOf;
      if !was.childInherit && route.childInherit {
        if prev.None? || route.cost <= prev.value {
          TellChildren(x, map[route.face := route.cost], {}, p);
        }
      } else if was.childInherit && !route.childInherit {
        var add: RouteSet := map[];
        if prev.Some? {
          add := map[route.face := prev.value];
        } else if route.face in anc {
          add := map[route.face := anc[route.face]];
        }
        TellChildren(x, add, {route.face}, p);
      }
    }

    /** For the routes `rs` that are left, of which `captures` says whether one captures. */
    method CreateFibUpdatesForErasedRoute(x: Name, rs: seq<Route>, captures: bool, route: Route, captureOff: bool,
                                          anc: RouteSet)
      requires Valid() && Holds(x, NOTHING) && captures == HasCapture(rs)
      modifies this`updates, this`inheritedRoutes
      ensures Holds(x, ErasedRoutePlan(rs, route, captureOff, anc))
    {
      hide Carries, Right, Inheriting, Telling, HasCapture;
      UpdateSelf(x, route.face, None, NOTHING);
      ghost var p := Removing(NOTHING, route.face);
      if route.childInherit || route.capture {
        var add: RouteSet := map[];
        var remove: set<FaceId> := if route.childInherit then {route.face} else {};
        if !route.capture {
          if !captures {
            add := anc;
          }
        } else if captureOff && rs != [] {
          add := anc;
          AddInheritedRoutes(x, rs, anc, p);
          p := Inheriting(p, rs, anc);
        }
        TellChildren(x, add, remove, p);
        p := Telling(p, add, remove);
      }
      if !captures && rs != [] && route.face in anc {
        CarriesBoth(rib, x, p, updates, inheritedRoutes, route.face, anc[route.face]);
        inheritedRoutes := inheritedRoutes[(x, route.face) := true];
        AddFibUpdate(x, route.face, Some(anc[route.face]));
      }
    }

    method CreateFibUpdatesForErasedRibEntry(x: Name, ghost p: Plan)
      requires Holds(x, p)
      modifies this`updates
      ensures Holds(x, Forgetting(p, Had(inherited, x)))
    {
      hide Carries, Forgetting, SetSelf;
      var had := Had(inherited, x);
      var todo := had;
      assert had - todo == {};
      ForgettingNone(rib, x, p, updates, inheritedRoutes);
      while todo != {}
        invariant todo <= had && Holds(x, Forgetting(p, had - todo))
        decreases |todo|
      {
        var f :| f in todo;
        UpdateSelf(x, f, None, Forgetting(p, had - todo));
        ForgettingStep(rib, x, p, had - todo, f, updates, inheritedRoutes);
        assert had - (todo - {f}) == had - todo + {f};
        todo := todo - {f};
      }
      assert had - todo == had;
    }

    // -------------------------------------------------------------- the whole update

    /** sendUpdates, when every command succeeds. */
    method SendUpdates()
      modifies this`fib
      ensures forall k :: At(fib, k) == Final(At(updates, k), At(old(fib), k))
    {
      var todo := updates.Keys;
      while todo != {}
        invariant todo <= updates.Keys
        invariant forall k :: At(fib, k) == if k in todo then At(old(fib), k) else Final(At(updates, k), At(old(fib), k))
        decreases |todo|
      {
        var k :| k in todo;
        if updates[k].Some? {
          fib := fib[k := updates[k].value];
        } else {
          fib := fib - {k};
        }
        todo := todo - {k};
      }
    }

    /** The FIB updates have succeeded, and modifyInheritedRoutes follows the change of the RIB.  As
        it asserts, every name it meets has an entry. */
    method Finish(x: Name, routes: seq<Route>, count: int, ghost plan: Plan)
      requires Holds(x, plan) && (routes == [] ==> forall f: FaceId :: plan.record(f) == None)
      modifies this
      ensures forall k :: k in inheritedRoutes ==> k.0 in rib
      ensures rib == if routes == [] then old(rib) - {x} else old(rib)[x := routes]
      ensures nCapture == old(nCapture)[x := count]
      ensures Applied(old(State()), x, plan, State())
    {
      hide Carries, Applied, ApplyRecords;
      ghost var t := State();
      SendUpdates();
      inherited := ApplyRecords(inherited, inheritedRoutes);
      nCapture := nCapture[x := count];
      if routes == [] {
        inherited := set k | k in inherited && k.0 != x;
        rib := rib - {x};
      } else {
        rib := rib[x := routes];
      }
      CarriedIsApplied(t, x, plan, updates, inheritedRoutes, State());
      RecordsHaveEntries(t.rib, x, plan, updates, inheritedRoutes);
    }

    /** Registration of a route, when all FIB updates succeed: the tables stay right if and only if
        the registration is safe. */
    method Register(x: Name, route: Route) returns (crashed: bool)
      requires Valid()
      modifies this
      ensures !crashed ==> Step(old(State()), RibUpdate.Register(x, route), State())
      ensures !crashed ==> (Valid() <==> Safe(old(rib), RibUpdate.Register(x, route)))
      ensures crashed ==> State() == old(State())
      ensures crashed <==> Crashes(old(rib), x, route)
    {
      hide Carries, Agrees, Applied, NewEntryPlan, NewRoutePlan, Safe, Find, LosesFirst, HasInherit, CountCapture, Distinct;
      ghost var t := State();
      crashed := false;
      updates, inheritedRoutes := map[], map[];
      CarriesNothing(rib, x);
      if x !in rib {
        ghost var anc := CreateFibUpdatesForNewRibEntry(x, route);
        Finish(x, [route], One(route.capture), NewEntryPlan(route, anc));
      } else {
        crashed := RegisterAtEntry(x, route);
      }
      if !crashed {
        StepIsRightIff(t, RibUpdate.Register(x, route), State());
      }
    }

    /** Registration at a name that has an entry. */
    method RegisterAtEntry(x: Name, route: Route) returns (crashed: bool)
      requires Valid() && x in rib && Holds(x, NOTHING)
      modifies this
      ensures var i := Find(old(rib)[x], route.face, route.origin);
        if i.None? then !crashed && RegistersRoute(old(State()), x, route, State())
        else var rs := old(rib)[x][i.value := route];
          && (crashed <==> LosesFirst(rs, old(rib)[x][i.value], route) && !HasInherit(rs, route.face))
          && if crashed then State() == old(State()) else UpdatesRoute(old(State()), x, i.value, route, State())
    {
      hide Carries, Agrees, Applied, NewRoutePlan, CountCapture, Distinct, LowestOf, HasCapture, Has, IsAncestors;
      crashed := false;
      assert nCapture[x] > 0 <==> HasCapture(rib[x]) by { CountIsCapture(rib[x]); }
      var rs := rib[x];
      var anc := GetAncestorRoutes(x);
      var i := FindRoute(rs, route.face, route.origin);
      if i.None? {
        ghost var plan := NewRoutePlan(NOTHING, rs, Had(inherited, x), route, TurnsCaptureOn(rs, route), anc);
        CreateFibUpdatesForNewRoute(x, rs, route, nCapture[x] <= 0 && route.capture, anc, NOTHING);
        Finish(x, rs + [route], nCapture[x] + One(route.capture), plan);
      } else {
        var rs' := rs[i.value := route];
        assert HasFace(rs', route.face) by { HasReplaced(rs, i.value, route); }
        ghost var plan := UpdatedPlan(rs', Had(inherited, x), rs[i.value], route, anc);
        PlanOrCrash(rs', Had(inherited, x), rs[i.value], route, anc);
        crashed := CreateFibUpdatesForUpdatedRoute(x, rs', rs[i.value], route, anc);
        hide UpdatedPlan, LosesFirst, HasInherit;
        if !crashed {
          ghost var was := nCapture;
          Finish(x, rs', nCapture[x], plan.value);
          assert nCapture == was;
        }
      }
    }

    /** Unregistration of a route, when all FIB updates succeed: the tables stay right if and only if
        it is safe. */
    method Unregister(x: Name, face: FaceId, origin: nat) returns (next: Option<Route>)
      requires Valid()
      modifies this
      ensures Step(old(State()), RibUpdate.Unregister(x, face, origin, next), State())
      ensures Valid() <==> Safe(old(rib), RibUpdate.Unregister(x, face, origin, next))
    {
      hide Carries, Agrees, Applied, UnregisterPlan, Safe, CountCapture, Distinct, HasCapture, IsAncestors, IsSecondLowest;
      ghost var t := State();
      next := None;
      updates, inheritedRoutes := map[], map[];
      if x in rib {
        var i := FindRoute(rib[x], face, origin);
        if i.Some? {
          CarriesNothing(rib, x);
          next := EraseAt(x, i.value);
        }
      }
      StepIsRightIff(t, RibUpdate.Unregister(x, face, origin, next), State());
    }

    method EraseAt(x: Name, i: nat) returns (next: Option<Route>)
      requires Valid() && x in rib && i < |rib[x]| && Holds(x, NOTHING)
      modifies this
      ensures ErasesRoute(old(State()), x, i, next, State())
    {
      hide Carries, Agrees, Applied, ErasedRoutePlan, NewRoutePlan, CountCapture, Distinct, HasCapture, IsAncestors, IsSecondLowest;
      var rs := rib[x];
      var route, left := rs[i], Without(rs, i);
      var count := nCapture[x] - One(route.capture);
      assert (nCapture[x] > 0 <==> HasCapture(rs)) && (count > 0 <==> HasCapture(left)) by {
        CountIsCapture(rs);
        CountIsCapture(left);
        CountWithout(rs, i);
      }
      var anc := GetAncestorRoutes(x);
      CreateFibUpdatesForErasedRoute(x, left, count > 0, route, nCapture[x] > 0 && count <= 0, anc);
      ghost var plan := ErasedRoutePlan(left, route, HasCapture(rs) && !HasCapture(left), anc);
      next := SecondLowest(rs, route.face);
      if next.Some? {
        CreateFibUpdatesForNewRoute(x, left, next.value, false, anc, plan);
        plan := NewRoutePlan(plan, left, Had(inherited, x), next.value, false, anc);
      }
      if |rs| == 1 {
        CreateFibUpdatesForErasedRibEntry(x, plan);
        plan := Forgetting(plan, Had(inherited, x));
      }
      assert plan == UnregisterPlan(rs, i, Had(inherited, x), next, anc);
      if left == [] {
        NothingRecorded(rs, Had(inherited, x), next, anc);
      }
      hide UnregisterPlan;
      Finish(x, left, count, plan);
    }
  }

  lemma ForgettingNone(rib: Rib, x: Name, p: Plan, us: Updates, rs: Records)
    requires Carries(rib, x, p, us, rs)
    ensures Carries(rib, x, Forgetting(p, {}), us, rs)
  {
    hide Reaches, Told, Top;
  }

  lemma ForgettingStep(rib: Rib, x: Name, p: Plan, faces: set<FaceId>, f: FaceId, us: Updates, rs: Records)
    requires Carries(rib, x, SetSelf(Forgetting(p, faces), f, None), us, rs)
    ensures Carries(rib, x, Forgetting(p, faces + {f}), us, rs)
  {
    hide Reaches, Told, Top;
  }

  lemma RecordsHaveEntries(rib: Rib, x: Name, plan: Plan, us: Updates, rs: Records)
    requires Carries(rib, x, plan, us, rs)
    ensures forall k :: k in rs ==> if k.0 == x then plan.record(k.1).Some? else k.0 in rib
  {
    forall k | k in rs
      ensures if k.0 == x then plan.record(k.1).Some? else k.0 in rib
    {
      assert At(rs, (k.0, k.1)) == Recorded(rib, x, plan, k.0, k.1);
    }
  }

  lemma NothingRecorded(rs: seq<Route>, had: set<FaceId>, next: Option<Route>, anc: RouteSet)
    requires |rs| == 1 && IsSecondLowest(rs, rs[0].face, next)
    ensures forall f: FaceId :: UnregisterPlan(rs, 0, had, next, anc).record(f) == None
  {
    SecondLowestIs(rs, 0, next);
    assert Without(rs, 0) == [] && next == None;
  }

  lemma CountIsCapture(rs: seq<Route>)
    ensures CountCapture(rs) > 0 <==> HasCapture(rs)
  {
  }

  lemma HasReplaced(rs: seq<Route>, i: nat, route: Route)
    requires i < |rs|
    ensures HasFace(rs[i := route], route.face)
  {
    assert On(rs[i := route][i], route.face, false);
  }

  lemma PlanOrCrash(rs: seq<Route>, had: set<FaceId>, was: Route, route: Route, anc: RouteSet)
    ensures UpdatedPlan(rs, had, was, route, anc).None? <==> LosesFirst(rs, was, route) && !HasInherit(rs, route.face)
  {
  }

  method FindRoute(rs: seq<Route>, face: FaceId, origin: nat) returns (r: Option<nat>)
    ensures r == Find(rs, face, origin)
  {
    for i := 0 to |rs|
      invariant FindFrom(rs, face, origin, i) == Find(rs, face, origin)
    {
      if rs[i].face == face && rs[i].origin == origin {
        return Some(i);
      }
    }
    return None;
  }

  /** The position of a cheapest route on the face, other than the one at `skip`. */
  method Cheapest(rs: seq<Route>, f: FaceId, skip: Option<nat>) returns (r: Option<nat>)
    ensures r.None? ==> forall j :: 0 <= j < |rs| && Some(j) != skip ==> !On(rs[j], f, false)
    ensures r.Some? ==> r.value < |rs| && r != skip && On(rs[r.value], f, false)
    ensures r.Some? ==> forall j :: 0 <= j < |rs| && Some(j) != skip && On(rs[j], f, false) ==> rs[r.value].cost <= rs[j].cost
  {
    r := None;
    for i := 0 to |rs|
      invariant r.None? ==> forall j :: 0 <= j < i && Some(j) != skip ==> !On(rs[j], f, false)
      invariant r.Some? ==> r.value < i && r != skip && On(rs[r.value], f, false)
      invariant r.Some? ==> forall j :: 0 <= j < i && Some(j) != skip && On(rs[j], f, false) ==> rs[r.value].cost <= rs[j].cost
    {
      if Some(i) != skip && On(rs[i], f, false) && (r.None? || rs[i].cost < rs[r.value].cost) {
        r := Some(i);
      }
    }
  }

  /** getRouteWithSecondLowestCostByFaceId. */
  method SecondLowest(rs: seq<Route>, f: FaceId) returns (next: Option<Route>)
    ensures IsSecondLowest(rs, f, next)
  {
    var j := Cheapest(rs, f, None);
    if j.None? {
      return None;
    }
    var k := Cheapest(rs, f, j);
    if k.None? {
      return None;
    }
    assert IsSecondAt(rs, f, j.value, k.value);
    return Some(rs[k.value]);
  }

  lemma CarriesBoth(rib: Rib, x: Name, p: Plan, us: Updates, rs: Records, f: FaceId, cost: nat)
    requires Carries(rib, x, p, us, rs)
    ensures Carries(rib, x, SetRecord(Adding(p, f, cost), f, true), us[(x, f) := Some(cost)], rs[(x, f) := true])
  {
    hide Reaches, Told, Top;
  }

  /** getRouteWithLowestCostByFaceId, and the same for routes that children inherit. */
  method LowestCost(rs: seq<Route>, f: FaceId, inherit: bool) returns (r: Option<nat>)
    ensures r == LowestOf(rs, f, inherit)
  {
    r := None;
    for i := 0 to |rs|
      invariant r == LowestOf(rs[..i], f, inherit)
    {
      assert rs[..i + 1][..i] == rs[..i];
      if On(rs[i], f, inherit) && (r.None? || rs[i].cost < r.value) {
        r := Some(rs[i].cost);
      }
    }
    assert rs[..|rs|] == rs;
  }

  // ---------------------------------------------------------------- updates and plans

  lemma CarriesNothing(rib: Rib, x: Name)
    ensures Carries(rib, x, NOTHING, map[], map[])
  {
  }

  lemma CarriesSelf(rib: Rib, x: Name, p: Plan, us: Updates, rs: Records, f: FaceId, cost: Option<nat>)
    requires Carries(rib, x, p, us, rs)
    ensures Carries(rib, x, SetSelf(p, f, cost), us[(x, f) := cost], rs)
  {
    hide Reaches, Told, Top;
  }

  lemma CarriesInheriting(rib: Rib, x: Name, p: Plan, own: seq<Route>, anc: RouteSet,
                          us: Updates, rs: Records, us': Updates, rs': Records)
    requires Carries(rib, x, p, us, rs) && Added(x, own, anc, anc.Keys, us, rs, us', rs')
    ensures Carries(rib, x, Inheriting(p, own, anc), us', rs')
  {
    hide Reaches, Told, Top, HasFace, Inheriting;
    forall m, f: FaceId
      ensures At(us', (m, f)) == Decided(rib, x, Inheriting(p, own, anc), m, f)
      ensures At(rs', (m, f)) == Recorded(rib, x, Inheriting(p, own, anc), m, f)
    {
      InheritingAt(p, own, anc, f);
      assert At(us, (m, f)) == Decided(rib, x, p, m, f) && At(rs, (m, f)) == Recorded(rib, x, p, m, f);
    }
  }

  lemma InheritingAt(p: Plan, own: seq<Route>, anc: RouteSet, f: FaceId)
    ensures var q, adds := Inheriting(p, own, anc), f in anc && !HasFace(own, f);
      && q.changes == p.changes
      && q.self(f) == (if adds then Some(Some(anc[f])) else p.self(f))
      && q.record(f) == if adds then Some(true) else p.record(f)
  {
    hide HasFace;
  }

  lemma DisinheritingAt(p: Plan, had: set<FaceId>, faces: set<FaceId>, f: FaceId)
    ensures var q, removes := Disinheriting(p, had, faces), f in faces && f in had;
      && q.changes == p.changes
      && q.self(f) == (if removes then Some(None) else p.self(f))
      && q.record(f) == if removes then Some(false) else p.record(f)
  {
  }

  lemma CarriesDisinheriting(rib: Rib, x: Name, p: Plan, had: set<FaceId>, faces: set<FaceId>,
                             us: Updates, rs: Records, us': Updates, rs': Records)
    requires Carries(rib, x, p, us, rs) && IsHad(rib, x, had) && Removed(rib, x, faces, us, rs, us', rs')
    ensures Carries(rib, x, Disinheriting(p, had, faces), us', rs')
  {
    hide Reaches, Told, Top, Inherits, Disinheriting;
    forall m, f: FaceId
      ensures At(us', (m, f)) == Decided(rib, x, Disinheriting(p, had, faces), m, f)
      ensures At(rs', (m, f)) == Recorded(rib, x, Disinheriting(p, had, faces), m, f)
    {
      DisinheritingAt(p, had, faces, f);
      assert f in had <==> Inherits(rib, x, f);
      assert At(us, (m, f)) == Decided(rib, x, p, m, f) && At(rs, (m, f)) == Recorded(rib, x, p, m, f);
    }
  }

  /** The children's decisions after one more change. */
  ghost predicate Turned(rib: Rib, x: Name, add: RouteSet, remove: set<FaceId>,
                         us: Updates, rs: Records, us': Updates, rs': Records) {
    forall m, f: FaceId ::
      if Reaches(rib, x, m, f)
      then At(us', (m, f)) == Turn(At(us, (m, f)), add, remove, Inherits(rib, m, f), f)
           && At(rs', (m, f)) == TurnRecord(At(rs, (m, f)), add, remove, Inherits(rib, m, f), f)
      else At(us', (m, f)) == At(us, (m, f)) && At(rs', (m, f)) == At(rs, (m, f))
  }

  /** What removing and adding routes decide for one entry. */
  ghost predicate Touched(rib: Rib, n: Name, add: RouteSet, remove: set<FaceId>,
                          us: Updates, rs: Records, us': Updates, rs': Records)
    requires n in rib
  {
    forall m, f: FaceId ::
      if m == n && !HasFace(rib[n], f)
      then At(us', (m, f)) == Turn(At(us, (m, f)), add, remove, Inherits(rib, n, f), f)
           && At(rs', (m, f)) == TurnRecord(At(rs, (m, f)), add, remove, Inherits(rib, n, f), f)
      else At(us', (m, f)) == At(us, (m, f)) && At(rs', (m, f)) == At(rs, (m, f))
  }

  /** What is passed on to the children: not the faces on which the entry has a route for them. */
  ghost predicate Filtered(own: seq<Route>, add: RouteSet, remove: set<FaceId>, addDown: RouteSet, removeDown: set<FaceId>) {
    && (forall f: FaceId :: At(addDown, f) == if HasInherit(own, f) then None else At(add, f))
    && (forall f: FaceId :: f in removeDown <==> f in remove && !HasInherit(own, f))
  }

  ghost predicate Traversed(rib: Rib, n: Name, add: RouteSet, remove: set<FaceId>,
                            us: Updates, rs: Records, us': Updates, rs': Records) {
    forall m, f: FaceId ::
      if Open(rib, n, m, f) && InheritsFrom(rib, m, f)
      then At(us', (m, f)) == Turn(At(us, (m, f)), add, remove, Inherits(rib, m, f), f)
           && At(rs', (m, f)) == TurnRecord(At(rs, (m, f)), add, remove, Inherits(rib, m, f), f)
      else At(us', (m, f)) == At(us, (m, f)) && At(rs', (m, f)) == At(rs, (m, f))
  }

  /** The subtrees of these children have been traversed. */
  ghost predicate Walked(rib: Rib, kids: set<Name>, add: RouteSet, remove: set<FaceId>,
                         us: Updates, rs: Records, us': Updates, rs': Records) {
    forall m, f: FaceId ::
      if Visited(rib, kids, m, f)
      then At(us', (m, f)) == Turn(At(us, (m, f)), add, remove, Inherits(rib, m, f), f)
           && At(rs', (m, f)) == TurnRecord(At(rs, (m, f)), add, remove, Inherits(rib, m, f), f)
      else At(us', (m, f)) == At(us, (m, f)) && At(rs', (m, f)) == At(rs, (m, f))
  }

  lemma RemovedAndAdded(rib: Rib, n: Name, add: RouteSet, remove: set<FaceId>, us: Updates, rs: Records,
                        us1: Updates, rs1: Records, us2: Updates, rs2: Records)
    requires n in rib && Removed(rib, n, remove, us, rs, us1, rs1) && Added(n, rib[n], add, add.Keys, us1, rs1, us2, rs2)
    ensures Touched(rib, n, add, remove, us, rs, us2, rs2)
  {
    hide Offer, HasCapture, Has;
  }

  lemma CapturedIsSkipped(rib: Rib, n: Name, add: RouteSet, remove: set<FaceId>, us: Updates, rs: Records)
    requires n in rib && HasCapture(rib[n])
    ensures Traversed(rib, n, add, remove, us, rs, us, rs)
  {
    hide Below;
  }

  lemma TouchedAndTurned(rib: Rib, n: Name, add: RouteSet, remove: set<FaceId>, addDown: RouteSet, removeDown: set<FaceId>,
                         us: Updates, rs: Records, us1: Updates, rs1: Records, us2: Updates, rs2: Records)
    requires n in rib && !HasCapture(rib[n]) && Touched(rib, n, add, remove, us, rs, us1, rs1)
    requires Filtered(rib[n], add, remove, addDown, removeDown) && Turned(rib, n, addDown, removeDown, us1, rs1, us2, rs2)
    ensures Traversed(rib, n, add, remove, us, rs, us2, rs2)
  {
    hide Below, HasCapture, Inherits, HasFace, HasInherit;
    forall m, f: FaceId
      ensures if Open(rib, n, m, f) && InheritsFrom(rib, m, f)
        then At(us2, (m, f)) == Turn(At(us, (m, f)), add, remove, Inherits(rib, m, f), f)
             && At(rs2, (m, f)) == TurnRecord(At(rs, (m, f)), add, remove, Inherits(rib, m, f), f)
        else At(us2, (m, f)) == At(us, (m, f)) && At(rs2, (m, f)) == At(rs, (m, f))
    {
      assert At(addDown, f) == if HasInherit(rib[n], f) then None else At(add, f);
    }
  }

  lemma WalkedNone(rib: Rib, add: RouteSet, remove: set<FaceId>, us: Updates, rs: Records)
    ensures Walked(rib, {}, add, remove, us, rs, us, rs)
  {
  }

  lemma WalkedStep(rib: Rib, done: set<Name>, more: set<Name>, c: Name, add: RouteSet, remove: set<FaceId>,
                   us: Updates, rs: Records,
                   us1: Updates, rs1: Records, us2: Updates, rs2: Records)
    requires Walked(rib, done, add, remove, us, rs, us1, rs1) && Traversed(rib, c, add, remove, us1, rs1, us2, rs2)
    requires forall m, f: FaceId :: Visited(rib, more, m, f) <==> Visited(rib, done, m, f) || (Open(rib, c, m, f) && InheritsFrom(rib, m, f))
    requires forall m, f: FaceId :: Visited(rib, done, m, f) ==> !Open(rib, c, m, f)
    ensures Walked(rib, more, add, remove, us, rs, us2, rs2)
  {
    hide Open, Inherits, InheritsFrom, Visited, Turn, TurnRecord;
  }

  lemma WalkedIsTurned(rib: Rib, x: Name, kids: set<Name>, add: RouteSet, remove: set<FaceId>,
                       us: Updates, rs: Records, us': Updates, rs': Records)
    requires Walked(rib, kids, add, remove, us, rs, us', rs')
    requires forall m, f: FaceId :: Visited(rib, kids, m, f) <==> Reaches(rib, x, m, f)
    ensures Turned(rib, x, add, remove, us, rs, us', rs')
  {
    hide Visited, Reaches, Inherits, Turn, TurnRecord;
  }

  lemma ReachedInherits(rib: Rib, x: Name, m: Name, f: FaceId)
    requires Reaches(rib, x, m, f)
    ensures m != x && (Inherits(rib, m, f) <==> Top(rib, x, f).Some?)
  {
    OfferBelow(rib, x, m, f);
  }

  lemma CarriesTelling(rib: Rib, x: Name, p: Plan, add: RouteSet, remove: set<FaceId>,
                       us: Updates, rs: Records, us': Updates, rs': Records)
    requires Carries(rib, x, p, us, rs) && Turned(rib, x, add, remove, us, rs, us', rs')
    ensures Carries(rib, x, Telling(p, add, remove), us', rs')
  {
    hide Reaches, Told, Top, Inherits;
    forall m, f: FaceId
      ensures At(us', (m, f)) == Decided(rib, x, Telling(p, add, remove), m, f)
      ensures At(rs', (m, f)) == Recorded(rib, x, Telling(p, add, remove), m, f)
    {
      assert At(us, (m, f)) == Decided(rib, x, p, m, f) && At(rs, (m, f)) == Recorded(rib, x, p, m, f);
      if Reaches(rib, x, m, f) {
        ReachedInherits(rib, x, m, f);
        ToldByLast(p, add, remove, Top(rib, x, f).Some?, f);
      }
    }
  }

  lemma ChildrenOfNewName(rib: Rib, x: Name, kids: set<Name>)
    requires x !in rib && kids == set c | c in rib && x < c && Parent(rib, c) == Parent(rib, x)
    ensures IsChildren(rib, x, kids)
  {
    forall c
      ensures c in kids <==> IsChild(rib, x, c)
    {
      if IsChild(rib, x, c) {
        ParentAbove(rib, x, c);
      }
    }
  }

  /** What getAncestorRoutes finds from an entry upwards. */
  function AncestorFrom(rib: Rib, p: Name, f: FaceId): (r: Option<nat>)
    requires p in rib
  {
    var own := FirstInherit(rib[p], f);
    if own.Some? then own else if HasCapture(rib[p]) then None else Ancestor(rib, p, f)
  }

  /** Insert the routes for children whose face is not in the set. */
  method InsertInherited(anc: RouteSet, rs: seq<Route>) returns (r: RouteSet)
    ensures forall f: FaceId :: At(r, f) == if f in anc then At(anc, f) else FirstInherit(rs, f)
  {
    r := anc;
    for i := 0 to |rs|
      invariant forall f: FaceId :: At(r, f) == if f in anc then At(anc, f) else FirstInherit(rs[..i], f)
    {
      assert rs[..i + 1][..i] == rs[..i];
      if rs[i].childInherit && rs[i].face !in r {
        r := r[rs[i].face := rs[i].cost];
      }
    }
    assert rs[..|rs|] == rs;
  }

  /** The entry is reached from one of the children. */
  ghost predicate Visited(rib: Rib, kids: set<Name>, m: Name, f: FaceId) {
    InheritsFrom(rib, m, f) && exists c :: c in kids && c <= m && Open(rib, c, m, f)
  }

  lemma ChildIsLonger(rib: Rib, x: Name, c: Name)
    requires IsChild(rib, x, c)
    ensures c in rib && Longer(rib, c) < Longer(rib, x)
  {
    assert c in Longer(rib, x) && c !in Longer(rib, c);
  }

  lemma VisitOneMore(rib: Rib, x: Name, kids: set<Name>, todo: set<Name>, c: Name)
    requires IsChildren(rib, x, kids) && todo <= kids && c in todo
    ensures forall m, f: FaceId :: Visited(rib, kids - (todo - {c}), m, f) <==>
              Visited(rib, kids - todo, m, f) || (Open(rib, c, m, f) && InheritsFrom(rib, m, f))
    ensures forall m, f: FaceId :: Visited(rib, kids - todo, m, f) ==> !Open(rib, c, m, f)
  {
    hide Below, InheritsFrom;
    forall m, f: FaceId
      ensures Visited(rib, kids - (todo - {c}), m, f) <==>
              Visited(rib, kids - todo, m, f) || (Open(rib, c, m, f) && InheritsFrom(rib, m, f))
      ensures Visited(rib, kids - todo, m, f) ==> !Open(rib, c, m, f)
    {
      if Visited(rib, kids - todo, m, f) {
        var d :| d in kids - todo && d <= m && Open(rib, d, m, f);
        assert d in kids - (todo - {c});
        if Open(rib, c, m, f) {
          ChildIsUnique(rib, x, c, d, m);
        }
      }
      if Visited(rib, kids - (todo - {c}), m, f) {
        var d :| d in kids - (todo - {c}) && d <= m && Open(rib, d, m, f);
        assert d == c || d in kids - todo;
      }
      if Open(rib, c, m, f) && InheritsFrom(rib, m, f) {
        assert c in kids - (todo - {c}) && c <= m;
      }
    }
  }

  lemma AllVisited(rib: Rib, x: Name, kids: set<Name>)
    requires IsChildren(rib, x, kids)
    ensures forall m, f: FaceId :: Visited(rib, kids, m, f) <==> Reaches(rib, x, m, f)
  {
    hide Below, Open;
    forall m, f: FaceId
      ensures Visited(rib, kids, m, f) <==> Reaches(rib, x, m, f)
    {
      if Visited(rib, kids, m, f) {
        var c :| c in kids && c <= m && Open(rib, c, m, f);
        OpenFromChild(rib, x, c, m, f);
      }
      if Reaches(rib, x, m, f) {
        var c := ChildAbove(rib, x, m);
        OpenFromChild(rib, x, c, m, f);
        assert c in kids;
      }
    }
  }

  lemma ChildrenOfEntry(rib: Rib, n: Name, kids: set<Name>)
    requires n in rib && kids == set c | c in rib && n < c && Parent(rib, c) == Some(n)
    ensures IsChildren(rib, n, kids)
  {
    forall c
      ensures c in kids <==> IsChild(rib, n, c)
    {
      if IsChild(rib, n, c) {
        ParentAbove(rib, n, c);
      }
    }
  }

  lemma InheritIsFace(rib: Rib, n: Name, f: FaceId)
    requires n in rib && HasInherit(rib[n], f)
    ensures HasFace(rib[n], f) && !Inherits(rib, n, f)
  {
    var i :| 0 <= i < |rib[n]| && On(rib[n][i], f, true);
    assert On(rib[n][i], f, false);
  }

  /** The inherited routes on these faces are removed from one entry. */
  ghost predicate Removed(rib: Rib, n: Name, faces: set<FaceId>, us: Updates, rs: Records, us': Updates, rs': Records) {
    forall m, f: FaceId ::
      if m == n && f in faces && Inherits(rib, n, f) then At(us', (m, f)) == Some(None) && At(rs', (m, f)) == Some(false)
      else At(us', (m, f)) == At(us, (m, f)) && At(rs', (m, f)) == At(rs, (m, f))
  }

  lemma RemovedNone(rib: Rib, n: Name, us: Updates, rs: Records)
    ensures Removed(rib, n, {}, us, rs, us, rs)
  {
  }

  lemma RemovedStep(rib: Rib, n: Name, faces: set<FaceId>, us: Updates, rs: Records, us': Updates, rs': Records, f: FaceId)
    requires Removed(rib, n, faces, us, rs, us', rs')
    ensures if Inherits(rib, n, f) then Removed(rib, n, faces + {f}, us, rs, us'[(n, f) := None], rs'[(n, f) := false])
            else Removed(rib, n, faces + {f}, us, rs, us', rs')
  {
    hide Inherits;
  }

  /** Routes on these faces are added to one entry with the routes `own`. */
  ghost predicate Added(n: Name, own: seq<Route>, add: RouteSet, faces: set<FaceId>,
                        us: Updates, rs: Records, us': Updates, rs': Records) {
    forall m, f: FaceId ::
      if m == n && f in faces && !HasFace(own, f) then At(us', (m, f)) == Some(At(add, f)) && At(rs', (m, f)) == Some(true)
      else At(us', (m, f)) == At(us, (m, f)) && At(rs', (m, f)) == At(rs, (m, f))
  }

  lemma AddedNone(n: Name, own: seq<Route>, add: RouteSet, us: Updates, rs: Records)
    ensures Added(n, own, add, {}, us, rs, us, rs)
  {
  }

  lemma AddedStep(n: Name, own: seq<Route>, add: RouteSet, faces: set<FaceId>,
                  us: Updates, rs: Records, us': Updates, rs': Records, f: FaceId)
    requires Added(n, own, add, faces, us, rs, us', rs') && f in add
    ensures if HasFace(own, f) then Added(n, own, add, faces + {f}, us, rs, us', rs')
            else Added(n, own, add, faces + {f}, us, rs, us'[(n, f) := Some(add[f])], rs'[(n, f) := true])
  {
    hide HasFace;
  }
}
