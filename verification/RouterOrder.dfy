/** What every finished route is: a permutation of the stops, pickups first, and
    independent of the order of the input exactly when no choice but a blank ties. */
module RouterOrder {
  import opened Prelude
  import opened Router

  // ---------- every stop exactly once ----------

  ghost predicate Distinct(order: seq<nat>) {
    forall i, j :: 0 <= i < j < |order| ==> order[i] != order[j]
  }

  lemma RouteEnd(dist: Distance, stops: seq<Stop>, start: Point, order: seq<nat>)
    requires IsRoute(dist, stops, start, order) && order != []
    ensures
      var n := |order| - 1;
      && IsRoute(dist, stops, start, order[..n]) && IsNearest(dist, stops, After(stops, start, order[..n]), order[n])
      && order[n] !in order[..n]
  {
    RouteMeaning(dist, stops, start, order[..|order| - 1]);
  }

  lemma {:induction false} RouteIsDistinct(dist: Distance, stops: seq<Stop>, start: Point, order: seq<nat>)
    requires IsRoute(dist, stops, start, order)
    ensures Distinct(order)
  {
    if order != [] {
      var n := |order| - 1;
      RouteEnd(dist, stops, start, order);
      hide IsRoute, After, IsNearest;
      RouteIsDistinct(dist, stops, start, order[..n]);
      DistinctAppend(order[..n], order[n]);
      assert order == order[..n] + [order[n]];
    }
  }

  lemma DistinctAppend(before: seq<nat>, i: nat)
    requires Distinct(before) && i !in before
    ensures Distinct(before + [i])
  {
    var order := before + [i];
    forall j, k | 0 <= j < k < |order| ensures order[j] != order[k] {
      assert order[j] == before[j] && before[j] in before;
    }
  }

  /** How many of the first `n` stops equal `s` and are not in `visited`. */
  ghost function Left(stops: seq<Stop>, visited: set<nat>, n: nat, s: Stop): nat
    requires n <= |stops|
  {
    if n == 0 then 0 else
      Left(stops, visited, n - 1, s) + if n - 1 !in visited && stops[n - 1] == s then 1 else 0
  }

  lemma {:induction false} LeftAtStart(stops: seq<Stop>, n: nat, s: Stop)
    requires n <= |stops|
    ensures Left(stops, {}, n, s) == multiset(stops[..n])[s]
  {
    if n > 0 {
      LeftAtStart(stops, n - 1, s);
      assert stops[..n] == stops[..n - 1] + [stops[n - 1]];
    }
  }

  lemma {:induction false} LeftWithout(stops: seq<Stop>, visited: set<nat>, i: nat, n: nat, s: Stop)
    requires n <= |stops| && i !in visited
    ensures Left(stops, visited, n, s) ==
            Left(stops, visited + {i}, n, s) + if i < n && stops[i] == s then 1 else 0
  {
    if n > 0 {
      LeftWithout(stops, visited, i, n - 1, s);
    }
  }

  lemma {:induction false} SomeLeft(stops: seq<Stop>, visited: set<nat>, n: nat, s: Stop)
    requires n <= |stops|
    ensures Left(stops, visited, n, s) > 0 <==> exists i: nat :: i < n && i !in visited && stops[i] == s
  {
    if n > 0 {
      SomeLeft(stops, visited, n - 1, s);
    }
  }

  /** What was picked and what is left are, together, the stops. */
  lemma {:induction false} PickedAndLeft(dist: Distance, stops: seq<Stop>, start: Point, order: seq<nat>, s: Stop)
    requires IsRoute(dist, stops, start, order)
    requires forall i :: i in order ==> i < |stops|
    ensures multiset(Picked(stops, order))[s] + Left(stops, After(stops, start, order).visited, |stops|, s) ==
            multiset(stops)[s]
  {
    if order == [] {
      LeftAtStart(stops, |stops|, s);
      assert stops[..|stops|] == stops;
      assert Picked(stops, order) == [];
    } else {
      var n := |order| - 1;
      var before, i := order[..n], order[n];
      RouteEnd(dist, stops, start, order);
      assert order == before + [i];
      PickedAppend(stops, before, i);
      RouteMeaning(dist, stops, start, before);
      hide IsRoute, IsNearest, Picked;
      PickedAndLeft(dist, stops, start, before, s);
      LeftWithout(stops, After(stops, start, before).visited, i, |stops|, s);
    }
  }

  lemma {:induction false} Bounded(n: nat, s: set<nat>)
    requires forall i :: i in s ==> i < n
    ensures |s| <= n
  {
    if n > 0 {
      Bounded(n - 1, s - {n - 1});
    } else {
      assert s == {};
    }
  }

  lemma FullSetHasAll(n: nat, s: set<nat>, i: nat)
    requires forall j :: j in s ==> j < n
    requires |s| == n && i < n
    ensures i in s
  {
    Bounded(n, s + {i});
  }

  /** A finished route visits each index once, so the appended steps are the stops
      in another order. */
  lemma RouteIsAPermutation(dist: Distance, stops: seq<Stop>, start: Point, order: seq<nat>)
    requires IsRoute(dist, stops, start, order) && |order| == |stops|
    ensures Distinct(order)
    ensures forall i: nat :: i in order <==> i < |stops|
    ensures multiset(Picked(stops, order)) == multiset(stops)
  {
    var visited := After(stops, start, order).visited;
    RouteIsDistinct(dist, stops, start, order);
    RouteMeaning(dist, stops, start, order);
    hide IsRoute, After, Picked, Distinct;
    forall i: nat | i < |stops| ensures i in visited {
      FullSetHasAll(|stops|, visited, i);
    }
    forall s ensures multiset(Picked(stops, order))[s] == multiset(stops)[s] {
      PickedAndLeft(dist, stops, start, order, s);
      SomeLeft(stops, visited, |stops|, s);
    }
  }

  // ---------- pickups before deliveries ----------

  lemma {:induction false} ChoiceAt(dist: Distance, stops: seq<Stop>, start: Point, order: seq<nat>, k: nat)
    requires IsRoute(dist, stops, start, order) && k < |order|
    ensures IsRoute(dist, stops, start, order[..k])
    ensures IsNearest(dist, stops, After(stops, start, order[..k]), order[k])
  {
    var n := |order| - 1;
    if k < n {
      ChoiceAt(dist, stops, start, order[..n], k);
      assert order[..n][..k] == order[..k];
    }
  }

  ghost predicate PickedUpBefore(stops: seq<Stop>, order: seq<nat>, d: nat, id: string) {
    exists p :: 0 <= p < d && p < |order| && order[p] < |stops|
                && stops[order[p]].kind.Pickup? && stops[order[p]].shipmentID == id
  }

  lemma {:induction false} PickupComesFirst(dist: Distance, stops: seq<Stop>, start: Point, order: seq<nat>, d: nat)
    requires IsRoute(dist, stops, start, order) && d < |order|
    requires order[d] < |stops| && stops[order[d]].kind.Delivery?
    ensures PickedUpBefore(stops, order, d, stops[order[d]].shipmentID)
  {
    var id := stops[order[d]].shipmentID;
    ChoiceAt(dist, stops, start, order, d);
    RouteMeaning(dist, stops, start, order[..d]);
    assert Eligible(stops, After(stops, start, order[..d]), order[d]);
    hide IsRoute, After, IsNearest;
    var i :| i in order[..d] && stops[i].kind.Pickup? && stops[i].shipmentID == id;
    var p :| 0 <= p < d && order[p] == i;
  }

  lemma {:induction false} FlattenAt(shipments: seq<Shipment>, k: nat)
    requires k < |shipments|
    ensures Flatten(shipments)[2 * k] == Stop(shipments[k].id, Pickup, shipments[k].pickup)
    ensures Flatten(shipments)[2 * k + 1] == Stop(shipments[k].id, Delivery, shipments[k].delivery)
  {
    var n := |shipments| - 1;
    if k < n {
      FlattenAt(shipments[..n], k);
    }
  }

  ghost predicate DistinctIDs(shipments: seq<Shipment>) {
    forall i, j :: 0 <= i < j < |shipments| ==> shipments[i].id != shipments[j].id
  }

  lemma OnlyPickup(blanks: nat, shipments: seq<Shipment>, k: nat, i: nat)
    requires DistinctIDs(shipments) && k < |shipments| && i < |StopsOf(blanks, shipments)|
    requires StopsOf(blanks, shipments)[i].kind.Pickup? && StopsOf(blanks, shipments)[i].shipmentID == shipments[k].id
    ensures i == blanks + 2 * k
  {
    var flat := Flatten(shipments);
    assert i >= blanks && StopsOf(blanks, shipments)[i] == flat[i - blanks];
    var m := (i - blanks) / 2;
    FlattenAt(shipments, m);
    assert i - blanks == 2 * m || i - blanks == 2 * m + 1;
  }

  /** With distinct shipment ids, each delivery comes after its own pickup, whatever
      number of blank stops the list starts with. */
  lemma OwnPickupComesFirst(
    dist: Distance, blanks: nat, shipments: seq<Shipment>, start: Point, order: seq<nat>, k: nat)
    requires DistinctIDs(shipments)
    requires IsRoute(dist, StopsOf(blanks, shipments), start, order)
    requires |order| == |StopsOf(blanks, shipments)| && k < |shipments|
    ensures exists p, d :: 0 <= p < d < |order| && order[p] == blanks + 2 * k && order[d] == blanks + 2 * k + 1
  {
    var stops := StopsOf(blanks, shipments);
    RouteIsAPermutation(dist, stops, start, order);
    FlattenAt(shipments, k);
    var delivery := blanks + 2 * k + 1;
    assert stops[delivery] == Flatten(shipments)[2 * k + 1];
    assert delivery in order;
    var d :| 0 <= d < |order| && order[d] == delivery;
    PickupComesFirst(dist, stops, start, order, d);
    hide IsRoute, StopsOf;
    var p :| 0 <= p < d && order[p] < |stops| && stops[order[p]].kind.Pickup?
             && stops[order[p]].shipmentID == shipments[k].id;
    OnlyPickup(blanks, shipments, k, order[p]);
  }

  // ---------- the order of the input ----------

  function PickupIDs(taken: seq<Stop>): set<string> {
    set s | s in taken && s.kind.Pickup? :: s.shipmentID
  }

  function Here(start: Point, taken: seq<Stop>): Point {
    if taken == [] then start else taken[|taken| - 1].point
  }

  /** A stop, as a value, that the router may take next. */
  predicate Available(pool: multiset<Stop>, taken: seq<Stop>, s: Stop) {
    s in pool - multiset(taken) && (s.kind.Delivery? ==> s.shipmentID in PickupIDs(taken))
  }

  /** A nearest available stop, and a blank one if any of the nearest is blank. */
  ghost predicate IsChoice(dist: Distance, pool: multiset<Stop>, start: Point, taken: seq<Stop>, s: Stop) {
    && Available(pool, taken, s)
    && forall x :: Available(pool, taken, x) ==>
         var ds, dx := dist(Here(start, taken), s.point), dist(Here(start, taken), x.point);
         ds < dx || (ds == dx && (x.kind.Blank? ==> s.kind.Blank?))
  }

  /** The router's behaviour with indices forgotten: always a nearest available stop. */
  ghost predicate IsTour(dist: Distance, pool: multiset<Stop>, start: Point, taken: seq<Stop>) {
    taken == [] ||
    (var n := |taken| - 1;
     IsTour(dist, pool, start, taken[..n]) && IsChoice(dist, pool, start, taken[..n], taken[n]))
  }

  /** The choice does not depend on the list's order: it is blank, or nothing else that
      is available is as near. */
  ghost predicate Clear(dist: Distance, pool: multiset<Stop>, start: Point, taken: seq<Stop>, s: Stop) {
    s.kind.Blank? || forall x :: Available(pool, taken, x) && x != s ==>
                       dist(Here(start, taken), s.point) < dist(Here(start, taken), x.point)
  }

  /** Every choice of the tour is clear. */
  ghost predicate Decided(dist: Distance, pool: multiset<Stop>, start: Point, taken: seq<Stop>) {
    taken == [] ||
    (var n := |taken| - 1;
     Decided(dist, pool, start, taken[..n]) && Clear(dist, pool, start, taken[..n], taken[n]))
  }

  /** At every step of the tour, distinct available stops are at distinct distances. */
  ghost predicate NoTies(dist: Distance, pool: multiset<Stop>, start: Point, taken: seq<Stop>) {
    taken == [] ||
    (var n := |taken| - 1;
     && NoTies(dist, pool, start, taken[..n])
     && forall x, y :: Available(pool, taken[..n], x) && Available(pool, taken[..n], y) && x != y ==>
          dist(Here(start, taken[..n]), x.point) != dist(Here(start, taken[..n]), y.point))
  }

  lemma {:induction false} NoTiesIsDecided(dist: Distance, pool: multiset<Stop>, start: Point, taken: seq<Stop>)
    requires IsTour(dist, pool, start, taken) && NoTies(dist, pool, start, taken)
    ensures Decided(dist, pool, start, taken)
  {
    hide Available, Here;
    if taken != [] {
      NoTiesIsDecided(dist, pool, start, taken[..|taken| - 1]);
    }
  }

  ghost predicate OneBlank(pool: multiset<Stop>) {
    forall x :: x in pool && x.kind.Blank? ==> x == BLANK
  }

  lemma ChoicesAgree(dist: Distance, pool: multiset<Stop>, start: Point, taken: seq<Stop>, s: Stop, t: Stop)
    requires OneBlank(pool)
    requires IsChoice(dist, pool, start, taken, s) && IsChoice(dist, pool, start, taken, t)
    requires Clear(dist, pool, start, taken, s)
    ensures s == t
  {
    assert Available(pool, taken, s) && Available(pool, taken, t);
    assert s in pool && t in pool;
  }

  lemma TourEnd(dist: Distance, pool: multiset<Stop>, start: Point, taken: seq<Stop>)
    requires IsTour(dist, pool, start, taken) && taken != []
    ensures
      var n := |taken| - 1;
      IsTour(dist, pool, start, taken[..n]) && IsChoice(dist, pool, start, taken[..n], taken[n])
  {
  }

  lemma {:induction false} ToursAgree(dist: Distance, pool: multiset<Stop>, start: Point, a: seq<Stop>, b: seq<Stop>)
    requires IsTour(dist, pool, start, a) && IsTour(dist, pool, start, b) && |a| == |b|
    requires OneBlank(pool) && Decided(dist, pool, start, a)
    ensures a == b
  {
    hide IsTour, IsChoice, Available, Here, Clear, OneBlank;
    if a != [] {
      var n := |a| - 1;
      TourEnd(dist, pool, start, a);
      TourEnd(dist, pool, start, b);
      ToursAgree(dist, pool, start, a[..n], b[..n]);
      ChoicesAgree(dist, pool, start, a[..n], a[n], b[n]);
      assert a == a[..n] + [a[n]] && b == b[..n] + [b[n]];
    }
  }

  lemma LeftIsPool(dist: Distance, stops: seq<Stop>, start: Point, order: seq<nat>, s: Stop)
    requires IsRoute(dist, stops, start, order)
    requires forall i :: i in order ==> i < |stops|
    ensures s in multiset(stops) - multiset(Picked(stops, order)) <==>
            exists i: nat :: i < |stops| && i !in After(stops, start, order).visited && stops[i] == s
  {
    hide IsRoute, After, Picked;
    PickedAndLeft(dist, stops, start, order, s);
    SomeLeft(stops, After(stops, start, order).visited, |stops|, s);
  }

  /** A stop is available exactly when an index holding it is eligible. */
  lemma EligibleIsAvailable(dist: Distance, stops: seq<Stop>, start: Point, order: seq<nat>, s: Stop)
    requires IsRoute(dist, stops, start, order)
    requires forall i :: i in order ==> i < |stops|
    ensures Available(multiset(stops), Picked(stops, order), s) <==>
            exists i: nat :: Eligible(stops, After(stops, start, order), i) && stops[i] == s
  {
    var p := After(stops, start, order);
    LeftIsPool(dist, stops, start, order, s);
    SamePickups(dist, stops, start, order);
    hide IsRoute, After, Picked, PickupIDs;
    if Available(multiset(stops), Picked(stops, order), s) {
      var i: nat :| i < |stops| && i !in p.visited && stops[i] == s;
      assert Eligible(stops, p, i);
    }
  }

  lemma SamePickups(dist: Distance, stops: seq<Stop>, start: Point, order: seq<nat>)
    requires IsRoute(dist, stops, start, order)
    requires forall i :: i in order ==> i < |stops|
    ensures PickupIDs(Picked(stops, order)) == After(stops, start, order).pickupsDone
  {
    var p, taken := After(stops, start, order), Picked(stops, order);
    RouteMeaning(dist, stops, start, order);
    forall id ensures id in PickupIDs(taken) <==> id in p.pickupsDone {
      if id in PickupIDs(taken) {
        var s :| s in taken && s.kind.Pickup? && s.shipmentID == id;
        var k :| 0 <= k < |taken| && taken[k] == s;
        assert order[k] in order;
      }
      if id in p.pickupsDone {
        var i :| i in order && stops[i].kind.Pickup? && stops[i].shipmentID == id;
        var k :| 0 <= k < |order| && order[k] == i;
        assert taken[k] == stops[i] && taken[k] in taken;
      }
    }
  }

  /** The blanks are at the front of the list, and all alike. */
  ghost predicate BlanksFirst(stops: seq<Stop>) {
    forall i, j :: 0 <= i <= j < |stops| && stops[j].kind.Blank? ==> stops[i] == BLANK
  }

  lemma StopsBlanksFirst(blanks: nat, shipments: seq<Shipment>)
    ensures BlanksFirst(StopsOf(blanks, shipments)) && OneBlank(multiset(StopsOf(blanks, shipments)))
  {
    var stops := StopsOf(blanks, shipments);
    FlattenIsPaired(shipments);
    assert forall x :: x in multiset(stops) ==> x in stops;
  }

  lemma NearestIsChoice(dist: Distance, stops: seq<Stop>, start: Point, order: seq<nat>, i: nat)
    requires IsRoute(dist, stops, start, order) && IsNearest(dist, stops, After(stops, start, order), i)
    requires BlanksFirst(stops) && forall j :: j in order ==> j < |stops|
    ensures i < |stops| && IsChoice(dist, multiset(stops), start, Picked(stops, order), stops[i])
  {
    var p, taken := After(stops, start, order), Picked(stops, order);
    RouteMeaning(dist, stops, start, order);
    assert Here(start, taken) == p.current;
    EligibleIsAvailable(dist, stops, start, order, stops[i]);
    hide IsRoute, After, Picked, Available, Here;
    forall x | Available(multiset(stops), taken, x)
      ensures
        var ds, dx := dist(p.current, stops[i].point), dist(p.current, x.point);
        ds < dx || (ds == dx && (x.kind.Blank? ==> stops[i].kind.Blank?))
    {
      EligibleIsAvailable(dist, stops, start, order, x);
      var j: nat :| Eligible(stops, p, j) && stops[j] == x;
    }
  }

  lemma TourAppend(dist: Distance, pool: multiset<Stop>, start: Point, taken: seq<Stop>, s: Stop)
    requires IsTour(dist, pool, start, taken) && IsChoice(dist, pool, start, taken, s)
    ensures IsTour(dist, pool, start, taken + [s])
  {
    hide IsChoice;
    assert (taken + [s])[..|taken|] == taken;
  }

  lemma TourStep(dist: Distance, stops: seq<Stop>, start: Point, before: seq<nat>, i: nat)
    requires IsRoute(dist, stops, start, before) && IsNearest(dist, stops, After(stops, start, before), i)
    requires forall j :: j in before + [i] ==> j < |stops|
    requires forall j :: j in before ==> j < |stops|
    requires BlanksFirst(stops) && IsTour(dist, multiset(stops), start, Picked(stops, before))
    ensures IsTour(dist, multiset(stops), start, Picked(stops, before + [i]))
  {
    hide IsRoute, After, IsNearest, Picked, IsChoice, IsTour, BlanksFirst;
    NearestIsChoice(dist, stops, start, before, i);
    PickedAppend(stops, before, i);
    TourAppend(dist, multiset(stops), start, Picked(stops, before), stops[i]);
  }

  lemma NothingPicked(dist: Distance, stops: seq<Stop>, start: Point)
    ensures IsTour(dist, multiset(stops), start, Picked(stops, []))
  {
    assert Picked(stops, []) == [];
  }

  lemma {:induction false} RouteIsTour(dist: Distance, stops: seq<Stop>, start: Point, order: seq<nat>)
    requires IsRoute(dist, stops, start, order)
    requires BlanksFirst(stops) && forall i :: i in order ==> i < |stops|
    ensures IsTour(dist, multiset(stops), start, Picked(stops, order))
  {
    hide IsRoute, After, IsNearest, Picked, IsTour, BlanksFirst;
    if order == [] {
      NothingPicked(dist, stops, start);
    } else {
      var n := |order| - 1;
      var before, i := order[..n], order[n];
      RouteEnd(dist, stops, start, order);
      assert forall j :: j in before ==> j in order;
      RouteIsTour(dist, stops, start, before);
      assert order == before + [i];
      TourStep(dist, stops, start, before, i);
    }
  }

  lemma {:induction false} FlattenAppend(a: seq<Shipment>, b: seq<Shipment>)
    ensures Flatten(a + b) == Flatten(a) + Flatten(b)
  {
    if b == [] {
      assert a + b == a;
    } else {
      var n := |b| - 1;
      FlattenAppend(a, b[..n]);
      assert (a + b)[..|a + b| - 1] == a + b[..n];
    }
  }

  lemma SplitAt<T>(b: seq<T>, j: nat)
    requires j < |b|
    ensures b == b[..j] + ([b[j]] + b[j + 1..])
    ensures multiset(b) == multiset{b[j]} + multiset(b[..j] + b[j + 1..])
  {
    assert b == b[..j] + ([b[j]] + b[j + 1..]);
    assert multiset(b) == multiset(b[..j]) + (multiset{b[j]} + multiset(b[j + 1..]));
  }

  lemma FlattenSplits(b: seq<Shipment>, j: nat)
    requires j < |b|
    ensures multiset(Flatten(b)) == multiset(Flatten([b[j]])) + multiset(Flatten(b[..j] + b[j + 1..]))
  {
    hide Flatten;
    var left, s, right := b[..j], [b[j]], b[j + 1..];
    SplitAt(b, j);
    FlattenAppend(left, s + right);
    FlattenAppend(s, right);
    FlattenAppend(left, right);
  }

  lemma Cancel<T>(a: multiset<T>, b: multiset<T>, c: multiset<T>)
    requires a + b == a + c
    ensures b == c
  {
    assert b == (a + b) - a && c == (a + c) - a;
  }

  /** Permuting the shipments permutes the stops. */
  lemma {:induction false} FlattenPermutes(a: seq<Shipment>, b: seq<Shipment>)
    requires multiset(a) == multiset(b)
    ensures |a| == |b| && multiset(Flatten(a)) == multiset(Flatten(b))
  {
    hide Flatten;
    assert |a| == |multiset(a)| == |multiset(b)| == |b|;
    if a != [] {
      var s, rest := a[0], a[..0] + a[1..];
      assert s in multiset(b);
      var j :| 0 <= j < |b| && b[j] == s;
      FlattenSplits(a, 0);
      FlattenSplits(b, j);
      SplitAt(a, 0);
      SplitAt(b, j);
      Cancel(multiset{s}, multiset(rest), multiset(b[..j] + b[j + 1..]));
      FlattenPermutes(rest, b[..j] + b[j + 1..]);
    } else {
      assert b == [];
    }
  }

  /** A whole route over the stops of these shipments. */
  ghost predicate Finished(dist: Distance, blanks: nat, shipments: seq<Shipment>, start: Point, order: seq<nat>) {
    && IsRoute(dist, StopsOf(blanks, shipments), start, order) && |order| == |StopsOf(blanks, shipments)|
    && forall i :: i in order ==> i < |StopsOf(blanks, shipments)|
  }

  function StepsOf(blanks: nat, shipments: seq<Shipment>, order: seq<nat>): seq<Stop>
    requires forall i :: i in order ==> i < |StopsOf(blanks, shipments)|
  {
    Picked(StopsOf(blanks, shipments), order)
  }

  function PoolOf(blanks: nat, shipments: seq<Shipment>): multiset<Stop> {
    multiset(StopsOf(blanks, shipments))
  }

  lemma SamePool(blanks: nat, a: seq<Shipment>, b: seq<Shipment>)
    requires multiset(a) == multiset(b)
    ensures PoolOf(blanks, a) == PoolOf(blanks, b) && |StopsOf(blanks, a)| == |StopsOf(blanks, b)|
  {
    FlattenPermutes(a, b);
  }

  lemma FinishedIsTour(dist: Distance, blanks: nat, a: seq<Shipment>, start: Point, order: seq<nat>)
    requires Finished(dist, blanks, a, start, order)
    ensures IsTour(dist, PoolOf(blanks, a), start, StepsOf(blanks, a, order))
    ensures OneBlank(PoolOf(blanks, a))
  {
    StopsBlanksFirst(blanks, a);
    RouteIsTour(dist, StopsOf(blanks, a), start, order);
  }

  /** If every choice is clear, the steps are the same for every order in which the same
      shipments are given, whatever their ids. */
  lemma OrderOfShipmentsIsIrrelevant(
    dist: Distance, blanks: nat, a: seq<Shipment>, b: seq<Shipment>, start: Point, orderA: seq<nat>, orderB: seq<nat>)
    requires multiset(a) == multiset(b)
    requires Finished(dist, blanks, a, start, orderA) && Finished(dist, blanks, b, start, orderB)
    requires Decided(dist, PoolOf(blanks, a), start, StepsOf(blanks, a, orderA))
    ensures StepsOf(blanks, a, orderA) == StepsOf(blanks, b, orderB)
  {
    SamePool(blanks, a, b);
    FinishedIsTour(dist, blanks, a, start, orderA);
    FinishedIsTour(dist, blanks, b, start, orderB);
    hide IsTour, Decided, OneBlank, IsRoute;
    ToursAgree(dist, PoolOf(blanks, a), start, StepsOf(blanks, a, orderA), StepsOf(blanks, b, orderB));
  }

  // ---------- and when the order does matter ----------

  lemma {:induction false} NearestAmong(dist: Distance, stops: seq<Stop>, p: Progress, n: nat)
    returns (best: Option<nat>)
    requires n <= |stops|
    ensures best.None? ==> forall j: nat :: j < n ==> !Eligible(stops, p, j)
    ensures best.Some? ==>
              && Eligible(stops, p, best.value) && best.value < n
              && forall j: nat :: j < n && Eligible(stops, p, j) ==>
                   var db, dj := dist(p.current, stops[best.value].point), dist(p.current, stops[j].point);
                   db < dj || (db == dj && best.value <= j)
  {
    best := None;
    if n > 0 {
      best := NearestAmong(dist, stops, p, n - 1);
      if Eligible(stops, p, n - 1) &&
         (best.None? || dist(p.current, stops[n - 1].point) < dist(p.current, stops[best.value].point)) {
        best := Some(n - 1);
      }
    }
  }

  lemma SomeNearest(dist: Distance, stops: seq<Stop>, p: Progress) returns (best: nat)
    requires exists i: nat :: Eligible(stops, p, i)
    ensures IsNearest(dist, stops, p, best)
  {
    var nearest := NearestAmong(dist, stops, p, |stops|);
    best := nearest.value;
  }

  /** The router always gets to the end: there is a route of every length. */
  lemma {:induction false} RouteExists(dist: Distance, stops: seq<Stop>, start: Point, n: nat)
    returns (order: seq<nat>)
    requires Paired(stops) && n <= |stops|
    ensures IsRoute(dist, stops, start, order) && |order| == n
    ensures forall i :: i in order ==> i < |stops|
  {
    order := [];
    if n > 0 {
      order := RouteExists(dist, stops, start, n - 1);
      hide IsRoute, After, Paired, IsNearest, Eligible;
      NeverStuck(dist, stops, start, order);
      var best := SomeNearest(dist, stops, After(stops, start, order));
      RouteAppend(dist, stops, start, order, best);
      order := order + [best];
    }
  }

  /** Each stop after the blanks is the pickup or the delivery of its shipment. */
  lemma ShipmentOfStop(blanks: nat, shipments: seq<Shipment>, i: nat)
    requires i < |StopsOf(blanks, shipments)| && !StopsOf(blanks, shipments)[i].kind.Blank?
    ensures blanks <= i && (i - blanks) / 2 < |shipments|
    ensures
      var s, m := StopsOf(blanks, shipments)[i], (i - blanks) / 2;
      && s.shipmentID == shipments[m].id
      && (if i == blanks + 2 * m then s.kind.Pickup? else i == blanks + 2 * m + 1 && s.kind.Delivery?)
  {
    FlattenAt(shipments, (i - blanks) / 2);
  }

  function ToFront(a: seq<Shipment>, m: nat): seq<Shipment>
    requires m < |a|
  {
    [a[m]] + (a[..m] + a[m + 1..])
  }

  lemma ToFrontPermutes(a: seq<Shipment>, m: nat)
    requires m < |a| && DistinctIDs(a)
    ensures multiset(ToFront(a, m)) == multiset(a) && DistinctIDs(ToFront(a, m))
  {
    var b := ToFront(a, m);
    SplitAt(a, m);
    assert multiset(b) == multiset([a[m]]) + multiset(a[..m] + a[m + 1..]);
    forall i, j | 0 <= i < j < |b| ensures b[i].id != b[j].id {
      assert b[j] == a[if j <= m then j - 1 else j];
      assert i > 0 ==> b[i] == a[if i <= m then i - 1 else i];
    }
  }

  lemma FirstShipmentsStops(blanks: nat, b: seq<Shipment>, j: nat)
    requires DistinctIDs(b) && b != [] && j < |StopsOf(blanks, b)|
    requires !StopsOf(blanks, b)[j].kind.Blank? && StopsOf(blanks, b)[j].shipmentID == b[0].id
    ensures if StopsOf(blanks, b)[j].kind.Pickup? then j == blanks
            else j == blanks + 1 && StopsOf(blanks, b)[j].kind.Delivery?
  {
    ShipmentOfStop(blanks, b, j);
  }

  /** Any stop of the first shipment is chosen before every other stop that is as near
      and not blank. */
  lemma FirstListedWins(
    dist: Distance, blanks: nat, b: seq<Shipment>, start: Point, before: seq<nat>, i: nat, j: nat)
    requires DistinctIDs(b) && b != [] && IsRoute(dist, StopsOf(blanks, b), start, before)
    requires
      var stops := StopsOf(blanks, b);
      var p := After(stops, start, before);
      && IsNearest(dist, stops, p, i) && Eligible(stops, p, j)
      && !stops[i].kind.Blank? && !stops[j].kind.Blank? && stops[j].shipmentID == b[0].id
      && dist(p.current, stops[i].point) == dist(p.current, stops[j].point)
    ensures i == j
  {
    hide StopsOf, After, IsRoute, DistinctIDs;
    var stops := StopsOf(blanks, b);
    RouteMeaning(dist, stops, start, before);
    ShipmentOfStop(blanks, b, i);
    FirstShipmentsStops(blanks, b, j);
    if i < j {
      var k :| k in before && stops[k].kind.Pickup? && stops[k].shipmentID == b[0].id;
      FirstShipmentsStops(blanks, b, k);
    }
  }

  lemma PickedPrefix(stops: seq<Stop>, order: seq<nat>, k: nat)
    requires k <= |order| && forall i :: i in order ==> i < |stops|
    ensures forall i :: i in order[..k] ==> i < |stops|
    ensures Picked(stops, order)[..k] == Picked(stops, order[..k])
  {
    assert forall i :: i in order[..k] ==> i in order;
  }

  /** What the router sees at step `k` of a finished route. */
  lemma StepAt(dist: Distance, blanks: nat, a: seq<Shipment>, start: Point, order: seq<nat>, k: nat)
    requires Finished(dist, blanks, a, start, order) && k < |order|
    ensures
      var stops, taken := StopsOf(blanks, a), StepsOf(blanks, a, order);
      && order[k] < |stops| && taken[k] == stops[order[k]]
      && (forall i :: i in order[..k] ==> i < |stops|) && taken[..k] == Picked(stops, order[..k])
      && IsRoute(dist, stops, start, order[..k])
      && IsNearest(dist, stops, After(stops, start, order[..k]), order[k])
      && After(stops, start, order[..k]).current == Here(start, taken[..k])
      && IsChoice(dist, PoolOf(blanks, a), start, taken[..k], taken[k])
  {
    var stops := StopsOf(blanks, a);
    PickedPrefix(stops, order, k);
    ChoiceAt(dist, stops, start, order, k);
    RouteMeaning(dist, stops, start, order[..k]);
    StopsBlanksFirst(blanks, a);
    NearestIsChoice(dist, stops, start, order[..k], order[k]);
  }

  /** A stop that ties with the choice at step `k`, both not blank: listing its shipment
      first makes it the choice. */
  lemma TieIsBrokenByTheInput(
    dist: Distance, blanks: nat, b: seq<Shipment>, start: Point, order: seq<nat>, k: nat, x: Stop)
    requires DistinctIDs(b) && b != [] && Finished(dist, blanks, b, start, order) && k < |order|
    requires
      var taken := StepsOf(blanks, b, order);
      && Available(PoolOf(blanks, b), taken[..k], x) && !x.kind.Blank? && x.shipmentID == b[0].id
      && !taken[k].kind.Blank?
      && dist(Here(start, taken[..k]), taken[k].point) == dist(Here(start, taken[..k]), x.point)
    ensures StepsOf(blanks, b, order)[k] == x
  {
    var stops := StopsOf(blanks, b);
    StepAt(dist, blanks, b, start, order, k);
    EligibleIsAvailable(dist, stops, start, order[..k], x);
    hide StopsOf, IsRoute, IsNearest, Picked, Available, Here, IsChoice;
    var j: nat :| Eligible(stops, After(stops, start, order[..k]), j) && stops[j] == x;
    FirstListedWins(dist, blanks, b, start, order[..k], order[k], j);
  }

  lemma {:induction false} UnclearAt(dist: Distance, pool: multiset<Stop>, start: Point, taken: seq<Stop>)
    returns (k: nat)
    requires !Decided(dist, pool, start, taken)
    ensures k < |taken| && !Clear(dist, pool, start, taken[..k], taken[k])
  {
    hide Clear;
    k := |taken| - 1;
    if !Decided(dist, pool, start, taken[..k]) {
      var m := UnclearAt(dist, pool, start, taken[..k]);
      assert taken[..k][..m] == taken[..m];
      k := m;
    }
  }

  lemma {:induction false} DecidedPrefix(dist: Distance, pool: multiset<Stop>, start: Point, taken: seq<Stop>, k: nat)
    requires Decided(dist, pool, start, taken) && k < |taken|
    ensures Decided(dist, pool, start, taken[..k]) && Clear(dist, pool, start, taken[..k], taken[k])
  {
    hide Clear;
    var n := |taken| - 1;
    if k < n {
      DecidedPrefix(dist, pool, start, taken[..n], k);
      assert taken[..n][..k] == taken[..k];
    }
  }

  /** An unclear choice ties with another stop, and neither is blank. */
  lemma UnclearTies(dist: Distance, pool: multiset<Stop>, start: Point, taken: seq<Stop>, s: Stop) returns (x: Stop)
    requires IsChoice(dist, pool, start, taken, s) && !Clear(dist, pool, start, taken, s)
    ensures Available(pool, taken, x) && x != s && x in pool && !x.kind.Blank? && !s.kind.Blank?
    ensures dist(Here(start, taken), s.point) == dist(Here(start, taken), x.point)
  {
    x :| Available(pool, taken, x) && x != s &&
         dist(Here(start, taken), s.point) >= dist(Here(start, taken), x.point);
  }

  /** The same steps, whichever way the same shipments are listed. */
  ghost predicate SameStepsForEveryOrder(
    dist: Distance, blanks: nat, a: seq<Shipment>, start: Point, steps: seq<Stop>)
  {
    forall b, order :: multiset(b) == multiset(a) && Finished(dist, blanks, b, start, order) ==>
                         StepsOf(blanks, b, order) == steps
  }

  /** Where a choice is not clear, another listing goes another way. */
  lemma TieChangesTheSteps(
    dist: Distance, blanks: nat, a: seq<Shipment>, start: Point, order: seq<nat>)
    returns (b: seq<Shipment>, other: seq<nat>)
    requires DistinctIDs(a) && Finished(dist, blanks, a, start, order)
    requires !Decided(dist, PoolOf(blanks, a), start, StepsOf(blanks, a, order))
    ensures multiset(b) == multiset(a) && Finished(dist, blanks, b, start, other)
    ensures StepsOf(blanks, b, other) != StepsOf(blanks, a, order)
  {
    hide Decided, Clear, IsTour, IsChoice, IsRoute, Available, Here, DistinctIDs, StopsOf, Picked, After, IsNearest;
    var pool, taken := PoolOf(blanks, a), StepsOf(blanks, a, order);
    var k := UnclearAt(dist, pool, start, taken);
    StepAt(dist, blanks, a, start, order, k);
    var x := UnclearTies(dist, pool, start, taken[..k], taken[k]);
    var i :| 0 <= i < |StopsOf(blanks, a)| && StopsOf(blanks, a)[i] == x;
    ShipmentOfStop(blanks, a, i);
    b := ToFront(a, (i - blanks) / 2);
    ToFrontPermutes(a, (i - blanks) / 2);
    SamePool(blanks, a, b);
    StopsArePaired(blanks, b);
    other := RouteExists(dist, StopsOf(blanks, b), start, |StopsOf(blanks, b)|);
    if StepsOf(blanks, b, other) == taken {
      TieIsBrokenByTheInput(dist, blanks, b, start, other, k, x);
    }
  }

  /** The exact law, for shipments with distinct ids: every listing of them gives the
      same steps if and only if each choice of the route is blank or strictly nearer
      than everything else available. */
  lemma OrderIsIrrelevantIff(dist: Distance, blanks: nat, a: seq<Shipment>, start: Point, order: seq<nat>)
    requires DistinctIDs(a) && Finished(dist, blanks, a, start, order)
    ensures SameStepsForEveryOrder(dist, blanks, a, start, StepsOf(blanks, a, order)) <==>
            Decided(dist, PoolOf(blanks, a), start, StepsOf(blanks, a, order))
  {
    hide Decided, DistinctIDs, Picked, IsRoute, StopsOf;
    if Decided(dist, PoolOf(blanks, a), start, StepsOf(blanks, a, order)) {
      forall b, other | multiset(b) == multiset(a) && Finished(dist, blanks, b, start, other)
        ensures StepsOf(blanks, b, other) == StepsOf(blanks, a, order)
      {
        OrderOfShipmentsIsIrrelevant(dist, blanks, a, b, start, order, other);
      }
    } else {
      var b, other := TieChangesTheSteps(dist, blanks, a, start, order);
    }
  }

  lemma TiedTwinIsUnclear(
    dist: Distance, blanks: nat, a: seq<Shipment>, start: Point, order: seq<nat>, p: nat, v: nat)
    requires Finished(dist, blanks, a, start, order) && p < |order|
    requires v < |StopsOf(blanks, a)| && v !in order[..p] && order[p] < |StopsOf(blanks, a)|
    requires
      var u := StopsOf(blanks, a)[order[p]];
      var x := StopsOf(blanks, a)[v];
      u.kind.Pickup? && x.kind.Pickup? && u != x && u.point == x.point
    ensures !Decided(dist, PoolOf(blanks, a), start, StepsOf(blanks, a, order))
  {
    hide Decided, StopsOf, IsRoute, IsNearest, Picked, Available, Here, IsChoice;
    var stops := StopsOf(blanks, a);
    StepAt(dist, blanks, a, start, order, p);
    RouteMeaning(dist, stops, start, order[..p]);
    assert Eligible(stops, After(stops, start, order[..p]), v);
    EligibleIsAvailable(dist, stops, start, order[..p], stops[v]);
    if Decided(dist, PoolOf(blanks, a), start, StepsOf(blanks, a, order)) {
      DecidedPrefix(dist, PoolOf(blanks, a), start, StepsOf(blanks, a, order), p);
    }
  }

  lemma PickupAt(blanks: nat, a: seq<Shipment>, k: nat)
    requires k < |a|
    ensures
      var stops, i := StopsOf(blanks, a), blanks + 2 * k;
      i < |stops| && stops[i] == Stop(a[k].id, Pickup, a[k].pickup)
  {
    FlattenAt(a, k);
    assert StopsOf(blanks, a)[blanks + 2 * k] == Flatten(a)[2 * k];
  }

  /** Two shipments picked up at one point always tie, so their order matters. */
  lemma SharedPickupsMatter(
    dist: Distance, blanks: nat, a: seq<Shipment>, start: Point, order: seq<nat>, k: nat, l: nat)
    requires DistinctIDs(a) && Finished(dist, blanks, a, start, order)
    requires k < l < |a| && a[k].pickup == a[l].pickup
    ensures !SameStepsForEveryOrder(dist, blanks, a, start, StepsOf(blanks, a, order))
  {
    var u, v := blanks + 2 * k, blanks + 2 * l;
    PickupAt(blanks, a, k);
    PickupAt(blanks, a, l);
    hide IsRoute, StopsOf, Decided, SameStepsForEveryOrder, Picked;
    RouteIsAPermutation(dist, StopsOf(blanks, a), start, order);
    assert u in order && v in order;
    var pu :| 0 <= pu < |order| && order[pu] == u;
    var pv :| 0 <= pv < |order| && order[pv] == v;
    if pu < pv {
      TiedTwinIsUnclear(dist, blanks, a, start, order, pu, v);
    } else {
      TiedTwinIsUnclear(dist, blanks, a, start, order, pv, u);
    }
    OrderIsIrrelevantIff(dist, blanks, a, start, order);
  }

  /** Of two pickups at one point the one listed first is visited first. */
  lemma TiesFollowTheInput(
    dist: Distance, stops: seq<Stop>, start: Point, order: seq<nat>, i: nat, j: nat, pi: nat, pj: nat)
    requires IsRoute(dist, stops, start, order)
    requires i < j < |stops| && stops[i].kind.Pickup? && stops[j].kind.Pickup? && stops[i].point == stops[j].point
    requires pi < |order| && pj < |order| && order[pi] == i && order[pj] == j
    ensures pi < pj
  {
    if pj < pi {
      ChoiceAt(dist, stops, start, order, pj);
      RouteMeaning(dist, stops, start, order[..pj]);
      EarlierTwinIsVisited(dist, stops, After(stops, start, order[..pj]), i, j);
      var q :| 0 <= q < pj && order[q] == i;
      RouteIsDistinct(dist, stops, start, order);
    }
  }

  lemma EarlierTwinIsVisited(dist: Distance, stops: seq<Stop>, p: Progress, i: nat, j: nat)
    requires IsNearest(dist, stops, p, j)
    requires i < j < |stops| && stops[i].kind.Pickup? && stops[i].point == stops[j].point
    ensures i in p.visited
  {
    assert !Eligible(stops, p, i);
  }

  // ---------- what the blank stops do ----------

  lemma BlanksOnly(blanks: nat, shipments: seq<Shipment>)
    ensures PoolOf(blanks, shipments)[BLANK] == blanks
  {
    FlattenIsPaired(shipments);
    BlankCount(blanks);
    assert BLANK !in Flatten(shipments);
  }

  lemma {:induction false} BlankCount(n: nat)
    ensures multiset(Blanks(n))[BLANK] == n
  {
    if n > 0 {
      BlankCount(n - 1);
      assert Blanks(n) == Blanks(n - 1) + [BLANK];
    }
  }

  /** Every blank is driven to: as many of the appended steps are blank as the list has
      blanks, two for each shipment. */
  lemma BlanksAreVisited(dist: Distance, blanks: nat, a: seq<Shipment>, start: Point, order: seq<nat>)
    requires Finished(dist, blanks, a, start, order)
    ensures multiset(StepsOf(blanks, a, order))[BLANK] == blanks
    ensures forall s :: s in StepsOf(blanks, a, order) && s.kind.Blank? ==> s == BLANK
  {
    var steps := StepsOf(blanks, a, order);
    RouteIsAPermutation(dist, StopsOf(blanks, a), start, order);
    BlanksOnly(blanks, a);
    StopsBlanksFirst(blanks, a);
    assert forall s :: s in steps ==> s in multiset(steps);
  }

  /** A later stop of a finished route is available at every earlier step, unless it is
      a delivery. */
  lemma LaterIsAvailable(dist: Distance, blanks: nat, a: seq<Shipment>, start: Point, order: seq<nat>, j: nat, l: nat)
    requires Finished(dist, blanks, a, start, order) && j <= l < |order|
    requires !StepsOf(blanks, a, order)[l].kind.Delivery?
    ensures Available(PoolOf(blanks, a), StepsOf(blanks, a, order)[..j], StepsOf(blanks, a, order)[l])
  {
    hide StopsOf, IsRoute, IsNearest, Picked, Available, Here, IsChoice, After;
    var stops := StopsOf(blanks, a);
    StepAt(dist, blanks, a, start, order, j);
    StepAt(dist, blanks, a, start, order, l);
    RouteIsDistinct(dist, stops, start, order);
    RouteMeaning(dist, stops, start, order[..j]);
    assert order[l] !in order[..j];
    assert Eligible(stops, After(stops, start, order[..j]), order[l]);
    EligibleIsAvailable(dist, stops, start, order[..j], stops[order[l]]);
  }

  lemma BlankIsChosen(dist: Distance, pool: multiset<Stop>, start: Point, taken: seq<Stop>, s: Stop)
    requires Measures(dist) && dist(BLANK.point, BLANK.point) == 0.0
    requires taken != [] && taken[|taken| - 1] == BLANK
    requires Available(pool, taken, BLANK) && IsChoice(dist, pool, start, taken, s)
    ensures s.kind.Blank?
  {
    hide Available;
    assert Here(start, taken) == BLANK.point;
  }

  lemma BlankFollowsBlank(dist: Distance, blanks: nat, a: seq<Shipment>, start: Point, order: seq<nat>, j: nat, l: nat)
    requires Measures(dist) && dist(BLANK.point, BLANK.point) == 0.0
    requires Finished(dist, blanks, a, start, order) && 0 < j <= l < |order|
    requires StepsOf(blanks, a, order)[j - 1].kind.Blank? && StepsOf(blanks, a, order)[l].kind.Blank?
    ensures StepsOf(blanks, a, order)[j].kind.Blank?
  {
    hide StopsOf, IsRoute, IsNearest, Picked, Available, IsChoice, Here, Measures, After;
    var steps := StepsOf(blanks, a, order);
    BlanksAreVisited(dist, blanks, a, start, order);
    assert steps[j - 1] in steps && steps[l] in steps;
    StepAt(dist, blanks, a, start, order, j);
    LaterIsAvailable(dist, blanks, a, start, order, j, l);
    assert steps[..j][|steps[..j]| - 1] == BLANK;
    BlankIsChosen(dist, PoolOf(blanks, a), start, steps[..j], steps[j]);
  }

  /** When a point is at no distance from itself, the blanks are driven to in one go:
      between two of them there is nothing else. */
  lemma {:induction false} BlanksInOneGo(
    dist: Distance, blanks: nat, a: seq<Shipment>, start: Point, order: seq<nat>, i: nat, j: nat, l: nat)
    requires Measures(dist) && dist(BLANK.point, BLANK.point) == 0.0
    requires Finished(dist, blanks, a, start, order) && i <= j <= l < |order|
    requires StepsOf(blanks, a, order)[i].kind.Blank? && StepsOf(blanks, a, order)[l].kind.Blank?
    ensures StepsOf(blanks, a, order)[j].kind.Blank?
    decreases j
  {
    hide StopsOf, IsRoute, Picked, Measures;
    if i < j {
      BlanksInOneGo(dist, blanks, a, start, order, i, j - 1, l);
      BlankFollowsBlank(dist, blanks, a, start, order, j, l);
    }
  }
}
