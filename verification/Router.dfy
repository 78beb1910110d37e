/** FakeRouteOptimizer.OptimizeSync: the nearest eligible stop, again and again. */
module Router {
  import opened Prelude

  datatype Point = Point(latitude: real, longitude: real)

  /** The great-circle distance, an arbitrary function that is never NaN. */
  type Distance = (Point, Point) -> real

  const MAX_FLOAT64: real := 179769313486231570814527423731704356798070567525844996598917476803157260780028538760589558632766878171540458953514382464234321326889464182768467546703537516986049910576551282076245490090389328944075868508455133942304583236903222948165808559332123348274797826204144723168738177180919299881250404026184124858368.0

  ghost predicate Measures(dist: Distance) {
    forall p, q :: 0.0 <= dist(p, q) < MAX_FLOAT64
  }

  /** `Blank` is the zero value of the stop type, whose Type is the empty text. */
  datatype Kind = Blank | Pickup | Delivery | End

  datatype Stop = Stop(shipmentID: string, kind: Kind, point: Point)

  datatype Shipment = Shipment(id: string, pickup: Point, delivery: Point)

  datatype Vehicle = Vehicle(id: string, start: Point, end: Option<Point>)

  /** RouteStep has the fields of a stop. */
  type Step = Stop

  datatype Output = Output(vehicleID: string, steps: seq<Step>, totalDistance: real)

  const BLANK := Stop("", Blank, Point(0.0, 0.0))
  const BLANK_OUTPUT := Output("", [], 0.0)

  function Blanks(n: nat): seq<Stop> {
    seq(n, _ => BLANK)
  }

  function Flatten(shipments: seq<Shipment>): (stops: seq<Stop>)
    ensures |stops| == 2 * |shipments|
  {
    if shipments == [] then [] else
      var last := shipments[|shipments| - 1];
      Flatten(shipments[..|shipments| - 1]) +
      [Stop(last.id, Pickup, last.pickup), Stop(last.id, Delivery, last.delivery)]
  }

  /** The list that the loops run over: make(n) leaves n blanks, then append. */
  function StopsOf(blanks: nat, shipments: seq<Shipment>): (stops: seq<Stop>)
    ensures |stops| == blanks + 2 * |shipments|
  {
    Blanks(blanks) + Flatten(shipments)
  }

  // ---------- one choice ----------

  datatype Progress = Progress(visited: set<nat>, pickupsDone: set<string>, current: Point)

  predicate Eligible(stops: seq<Stop>, p: Progress, i: nat) {
    i < |stops| && i !in p.visited && (stops[i].kind.Delivery? ==> stops[i].shipmentID in p.pickupsDone)
  }

  /** The nearest eligible stop; of equally near ones, the first in the list. */
  ghost predicate IsNearest(dist: Distance, stops: seq<Stop>, p: Progress, i: nat) {
    && Eligible(stops, p, i)
    && forall j: nat :: Eligible(stops, p, j) ==>
         var di, dj := dist(p.current, stops[i].point), dist(p.current, stops[j].point);
         di < dj || (di == dj && i <= j)
  }

  function Visit(stops: seq<Stop>, p: Progress, i: nat): Progress
    requires i < |stops|
  {
    Progress(p.visited + {i},
             if stops[i].kind.Pickup? then p.pickupsDone + {stops[i].shipmentID} else p.pickupsDone,
             stops[i].point)
  }

  /** The inner loop: -1 exactly when no stop is eligible. */
  method FindNearest(dist: Distance, stops: seq<Stop>, p: Progress) returns (bestIdx: int)
    requires Measures(dist)
    ensures bestIdx == -1 <==> forall i: nat :: !Eligible(stops, p, i)
    ensures bestIdx != -1 ==> 0 <= bestIdx < |stops| && IsNearest(dist, stops, p, bestIdx)
  {
    bestIdx := -1;
    var bestDist := MAX_FLOAT64;
    for i := 0 to |stops|
      invariant -1 <= bestIdx < i
      invariant bestIdx == -1 ==> bestDist == MAX_FLOAT64 && forall j: nat :: j < i ==> !Eligible(stops, p, j)
      invariant bestIdx != -1 ==>
        && Eligible(stops, p, bestIdx) && bestDist == dist(p.current, stops[bestIdx].point)
        && forall j: nat :: j < i && Eligible(stops, p, j) ==>
             var dj := dist(p.current, stops[j].point);
             bestDist < dj || (bestDist == dj && bestIdx <= j)
    {
      if i in p.visited {
        continue;
      }
      if stops[i].kind.Delivery? && stops[i].shipmentID !in p.pickupsDone {
        continue;
      }
      var d := dist(p.current, stops[i].point);
      if d < bestDist {
        bestDist := d;
        bestIdx := i;
      }
    }
  }

  // ---------- whole routes ----------

  /** Where the loop stands after visiting `order`. */
  function After(stops: seq<Stop>, start: Point, order: seq<nat>): Progress {
    if order == [] then Progress({}, {}, start) else
      var n := |order| - 1;
      var before := After(stops, start, order[..n]);
      if order[n] < |stops| then Visit(stops, before, order[n]) else before
  }

  /** Every index in `order` is the nearest eligible stop after those before it. */
  ghost predicate IsRoute(dist: Distance, stops: seq<Stop>, start: Point, order: seq<nat>) {
    order == [] ||
    (var n := |order| - 1;
     && IsRoute(dist, stops, start, order[..n])
     && IsNearest(dist, stops, After(stops, start, order[..n]), order[n]))
  }

  function Picked(stops: seq<Stop>, order: seq<nat>): (picked: seq<Stop>)
    requires forall i :: i in order ==> i < |stops|
    ensures |picked| == |order|
    ensures forall k :: 0 <= k < |order| ==> order[k] in order && picked[k] == stops[order[k]]
  {
    seq(|order|, k requires 0 <= k < |order| => assert order[k] in order; stops[order[k]])
  }

  /** The sum of the legs along a path. */
  function Length(dist: Distance, path: seq<Point>): real {
    if |path| < 2 then 0.0 else
      var n := |path| - 1;
      Length(dist, path[..n]) + dist(path[n - 1], path[n])
  }

  function Locations(steps: seq<Step>): (points: seq<Point>)
    ensures |points| == |steps|
  {
    seq(|steps|, k requires 0 <= k < |steps| => steps[k].point)
  }

  lemma {:induction false} RouteVisits(dist: Distance, stops: seq<Stop>, start: Point, order: seq<nat>)
    requires IsRoute(dist, stops, start, order)
    ensures forall i :: i in order ==> i < |stops|
    ensures forall i :: i in After(stops, start, order).visited <==> i in order
    ensures |After(stops, start, order).visited| == |order|
  {
    if order != [] {
      var n := |order| - 1;
      RouteVisits(dist, stops, start, order[..n]);
      assert order == order[..n] + [order[n]];
    }
  }

  lemma {:induction false} RoutePickups(dist: Distance, stops: seq<Stop>, start: Point, order: seq<nat>, id: string)
    requires IsRoute(dist, stops, start, order)
    requires forall i :: i in order ==> i < |stops|
    ensures id in After(stops, start, order).pickupsDone <==>
            exists i :: i in order && stops[i].kind.Pickup? && stops[i].shipmentID == id
  {
    if order != [] {
      var n := |order| - 1;
      assert order == order[..n] + [order[n]];
      assert forall i :: i in order[..n] ==> i in order;
      RoutePickups(dist, stops, start, order[..n], id);
    }
  }

  /** What the progress holds: the visited indices, each once, and their pickups. */
  lemma RouteMeaning(dist: Distance, stops: seq<Stop>, start: Point, order: seq<nat>)
    requires IsRoute(dist, stops, start, order)
    ensures forall i :: i in order ==> i < |stops|
    ensures forall i :: i in After(stops, start, order).visited <==> i in order
    ensures |After(stops, start, order).visited| == |order|
    ensures forall id :: id in After(stops, start, order).pickupsDone <==>
              exists i :: i in order && stops[i].kind.Pickup? && stops[i].shipmentID == id
    ensures After(stops, start, order).current == if order == [] then start else stops[order[|order| - 1]].point
  {
    RouteVisits(dist, stops, start, order);
    assert order != [] ==> order[|order| - 1] in order;
    forall id ensures id in After(stops, start, order).pickupsDone <==>
                      exists i :: i in order && stops[i].kind.Pickup? && stops[i].shipmentID == id
    {
      RoutePickups(dist, stops, start, order, id);
    }
  }

  /** The length of a path is the length of its two parts, wherever it is cut, and that
      of one leg is the distance from its start to its end. */
  lemma {:induction false} LengthAdds(dist: Distance, path: seq<Point>, k: nat)
    requires k < |path|
    ensures Length(dist, path) == Length(dist, path[..k + 1]) + Length(dist, path[k..])
    ensures |path| == 1 ==> Length(dist, path) == 0.0
    ensures |path| == 2 ==> Length(dist, path) == dist(path[0], path[1])
  {
    var n := |path| - 1;
    if k < n {
      LengthAdds(dist, path[..n], k);
      assert path[..n][..k + 1] == path[..k + 1];
      assert path[k..][..n - k] == path[..n][k..];
      assert path[k..][n - k - 1] == path[n - 1] && path[k..][n - k] == path[n];
    } else {
      assert path[..k + 1] == path;
    }
  }

  // ---------- no deadlock ----------

  /** Every delivery in the list has a pickup for the same shipment in the list. */
  ghost predicate Paired(stops: seq<Stop>) {
    forall i :: 0 <= i < |stops| && stops[i].kind.Delivery? ==> HasPickup(stops, stops[i].shipmentID)
  }

  ghost predicate HasPickup(stops: seq<Stop>, id: string) {
    exists j :: 0 <= j < |stops| && stops[j].kind.Pickup? && stops[j].shipmentID == id
  }

  lemma {:induction false} IndexSetSize(n: nat, s: set<nat>)
    requires forall i: nat :: i < n ==> i in s
    ensures |s| >= n
  {
    if n > 0 {
      IndexSetSize(n - 1, s - {n - 1});
    }
  }

  /** The deadlock branch is unreachable: while stops remain, one of them is eligible. */
  lemma NeverStuck(dist: Distance, stops: seq<Stop>, start: Point, order: seq<nat>)
    requires Paired(stops) && IsRoute(dist, stops, start, order) && |order| < |stops|
    ensures exists i: nat :: Eligible(stops, After(stops, start, order), i)
  {
    var p := After(stops, start, order);
    RouteMeaning(dist, stops, start, order);
    if forall i: nat :: i < |stops| ==> i in p.visited {
      IndexSetSize(|stops|, p.visited);
    }
    var i: nat :| i < |stops| && i !in p.visited;
    if !Eligible(stops, p, i) {
      assert HasPickup(stops, stops[i].shipmentID);
      var j :| 0 <= j < |stops| && stops[j].kind.Pickup? && stops[j].shipmentID == stops[i].shipmentID;
      assert j !in order;
      assert Eligible(stops, p, j);
    }
  }

  lemma {:induction false} FlattenIsPaired(shipments: seq<Shipment>)
    ensures Paired(Flatten(shipments))
    ensures forall i :: 0 <= i < |Flatten(shipments)| ==> !Flatten(shipments)[i].kind.Blank?
  {
    if shipments != [] {
      var n := |shipments| - 1;
      var before, stops := Flatten(shipments[..n]), Flatten(shipments);
      FlattenIsPaired(shipments[..n]);
      forall i | 0 <= i < |stops| && stops[i].kind.Delivery? ensures HasPickup(stops, stops[i].shipmentID) {
        if i < |before| {
          assert HasPickup(before, before[i].shipmentID);
          var j :| 0 <= j < |before| && before[j].kind.Pickup? && before[j].shipmentID == before[i].shipmentID;
          assert stops[j] == before[j];
        } else {
          assert stops[|before|].kind.Pickup?;
        }
      }
    }
  }

  lemma StopsArePaired(blanks: nat, shipments: seq<Shipment>)
    ensures Paired(StopsOf(blanks, shipments))
  {
    var flat, stops := Flatten(shipments), StopsOf(blanks, shipments);
    FlattenIsPaired(shipments);
    forall i | 0 <= i < |stops| && stops[i].kind.Delivery? ensures HasPickup(stops, stops[i].shipmentID) {
      assert HasPickup(flat, flat[i - blanks].shipmentID);
      var j :| 0 <= j < |flat| && flat[j].kind.Pickup? && flat[j].shipmentID == stops[i].shipmentID;
      assert stops[blanks + j] == flat[j];
    }
  }

  // ---------- the method ----------

  function EndSteps(vehicle: Vehicle): seq<Step> {
    match vehicle.end
    case None => []
    case Some(end) => [Stop("END", End, end)]
  }

  lemma LengthAppend(dist: Distance, path: seq<Point>, q: Point)
    requires path != []
    ensures Length(dist, path + [q]) == Length(dist, path) + dist(path[|path| - 1], q)
  {
    assert (path + [q])[..|path|] == path;
  }

  lemma LocationsAppend(steps: seq<Step>, s: Step)
    ensures Locations(steps + [s]) == Locations(steps) + [s.point]
  {
  }

  /** The loop's variables, after the stops in `order`. */
  ghost predicate Standing(dist: Distance, stops: seq<Stop>, start: Point, order: seq<nat>,
                           p: Progress, steps: seq<Step>, total: real)
  {
    && IsRoute(dist, stops, start, order)
    && p == After(stops, start, order) && |p.visited| == |order|
    && (forall i :: i in order ==> i < |stops|)
    && steps == Blanks(|stops|) + Picked(stops, order)
    && total == Length(dist, [start] + Locations(Picked(stops, order)))
  }

  lemma PathEnd(dist: Distance, stops: seq<Stop>, start: Point, order: seq<nat>)
    requires IsRoute(dist, stops, start, order)
    requires forall i :: i in order ==> i < |stops|
    ensures After(stops, start, order).current == ([start] + Locations(Picked(stops, order)))[|order|]
  {
    RouteMeaning(dist, stops, start, order);
  }

  lemma RouteAppend(dist: Distance, stops: seq<Stop>, start: Point, order: seq<nat>, i: nat)
    requires IsRoute(dist, stops, start, order) && IsNearest(dist, stops, After(stops, start, order), i)
    ensures IsRoute(dist, stops, start, order + [i])
    ensures i < |stops| && After(stops, start, order + [i]) == Visit(stops, After(stops, start, order), i)
  {
    assert (order + [i])[..|order|] == order;
    assert Eligible(stops, After(stops, start, order), i);
    hide IsNearest, Visit;
  }

  lemma PickedAppend(stops: seq<Stop>, order: seq<nat>, i: nat)
    requires forall j :: j in order + [i] ==> j < |stops|
    ensures (forall j :: j in order ==> j < |stops|) && i < |stops|
    ensures Picked(stops, order + [i]) == Picked(stops, order) + [stops[i]]
  {
    assert forall j :: j in order ==> j in order + [i];
    assert (order + [i])[|order|] == i && i in order + [i];
  }

  lemma PathAppend(dist: Distance, start: Point, picked: seq<Stop>, s: Stop)
    ensures
      Length(dist, [start] + Locations(picked + [s])) ==
      Length(dist, [start] + Locations(picked)) + dist(([start] + Locations(picked))[|picked|], s.point)
  {
    LocationsAppend(picked, s);
    LengthAppend(dist, [start] + Locations(picked), s.point);
    assert [start] + (Locations(picked) + [s.point]) == [start] + Locations(picked) + [s.point];
  }

  lemma Advance(dist: Distance, stops: seq<Stop>, start: Point, order: seq<nat>,
                p: Progress, steps: seq<Step>, total: real, i: nat)
    requires Standing(dist, stops, start, order, p, steps, total)
    requires i < |stops| && IsNearest(dist, stops, p, i)
    ensures Standing(dist, stops, start, order + [i], Visit(stops, p, i),
                     steps + [stops[i]], total + dist(p.current, stops[i].point))
  {
    hide IsRoute, After, IsNearest, Visit, Length, Locations, Picked;
    RouteAppend(dist, stops, start, order, i);
    RouteMeaning(dist, stops, start, order + [i]);
    PathEnd(dist, stops, start, order);
    PickedAppend(stops, order, i);
    PathAppend(dist, start, Picked(stops, order), stops[i]);
  }

  lemma ReachEnd(dist: Distance, stops: seq<Stop>, start: Point, order: seq<nat>,
                 p: Progress, steps: seq<Step>, total: real, vehicle: Vehicle)
    requires Standing(dist, stops, start, order, p, steps, total) && vehicle.end.Some?
    ensures
      var appended := Picked(stops, order) + EndSteps(vehicle);
      && steps + EndSteps(vehicle) == Blanks(|stops|) + appended
      && total + dist(p.current, vehicle.end.value) == Length(dist, [start] + Locations(appended))
  {
    PathEnd(dist, stops, start, order);
    PathAppend(dist, start, Picked(stops, order), EndSteps(vehicle)[0]);
  }

  lemma StandingAtStart(dist: Distance, stops: seq<Stop>, start: Point)
    ensures Standing(dist, stops, start, [], Progress({}, {}, start), Blanks(|stops|), 0.0)
  {
    assert Picked(stops, []) == [];
  }

  method FlattenShipments(shipments: seq<Shipment>) returns (stops: seq<Stop>)
    ensures stops == StopsOf(2 * |shipments|, shipments)
  {
    stops := Blanks(|shipments| * 2);
    for k := 0 to |shipments|
      invariant stops == Blanks(|shipments| * 2) + Flatten(shipments[..k])
    {
      var s := shipments[k];
      assert shipments[..k + 1][..k] == shipments[..k];
      stops := stops + [Stop(s.id, Pickup, s.pickup)];
      stops := stops + [Stop(s.id, Delivery, s.delivery)];
    }
    assert shipments[..|shipments|] == shipments;
  }

  method OptimizeSync(dist: Distance, shipments: seq<Shipment>, vehicles: seq<Vehicle>)
    returns (outputs: seq<Output>, error: Option<string>, ghost order: seq<nat>)
    requires Measures(dist)
    ensures vehicles == [] ==> outputs == [] && error == Some("no vehicles provided")
    ensures vehicles != [] ==>
              var stops := StopsOf(2 * |shipments|, shipments);
              && error == None
              && IsRoute(dist, stops, vehicles[0].start, order) && |order| == |stops|
              && (forall i :: i in order ==> i < |stops|)
              && var appended := Picked(stops, order) + EndSteps(vehicles[0]);
                 outputs == [BLANK_OUTPUT, Output(vehicles[0].id, Blanks(|stops|) + appended,
                                                  Length(dist, [vehicles[0].start] + Locations(appended)))]
    ensures vehicles != [] ==>
              var steps, end := outputs[1].steps, vehicles[0].end;
              && |steps| == 8 * |shipments| + (if end.Some? then 1 else 0)
              && (end.Some? ==> steps[|steps| - 1] == Stop("END", End, end.value))
  {
    hide IsRoute, After, Visit, Length, Locations, Picked, IsNearest, StopsOf, Eligible;
    order := [];
    if |vehicles| == 0 {
      return [], Some("no vehicles provided"), [];
    }
    var vehicle := vehicles[0];
    var start := vehicle.start;
    var stops := FlattenShipments(shipments);
    StopsArePaired(2 * |shipments|, shipments);

    var progress := Progress({}, {}, start);
    var steps := Blanks(|stops|);
    var totalDistance := 0.0;
    StandingAtStart(dist, stops, start);

    while |progress.visited| < |stops|
      invariant Standing(dist, stops, start, order, progress, steps, totalDistance)
      invariant |order| <= |stops|
      decreases |stops| - |order|
    {
      var bestIdx := FindNearest(dist, stops, progress);
      NeverStuck(dist, stops, start, order);
      if bestIdx == -1 {
        assert false;
        return [], Some("no valid next stop found"), order;
      }
      var next := stops[bestIdx];
      Advance(dist, stops, start, order, progress, steps, totalDistance, bestIdx);
      totalDistance := totalDistance + dist(progress.current, next.point);
      steps := steps + [next];
      progress := Visit(stops, progress, bestIdx);
      order := order + [bestIdx];
    }

    assert Picked(stops, order) + [] == Picked(stops, order);
    if vehicle.end.Some? {
      ReachEnd(dist, stops, start, order, progress, steps, totalDistance, vehicle);
      totalDistance := totalDistance + dist(progress.current, vehicle.end.value);
      steps := steps + [Stop("END", End, vehicle.end.value)];
    }
    outputs := [BLANK_OUTPUT];
    outputs := outputs + [Output(vehicle.id, steps, totalDistance)];
    error := None;
  }
}
