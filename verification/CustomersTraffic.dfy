/** Concurrent requests to CustomersService: each repository call is one atomic
    step, and the calls of different requests interleave in any way. */
module CustomersTraffic {
  import opened Prelude
  import opened Keyset
  import opened KeysetWalk
  import opened CursorCodec
  import opened CustomersTable
  import S = CustomersService

  datatype Outcome =
    | Created(id: Id, identifier: string)
    | UpdateDone
    | DeleteDone
    | AlreadyExists
    | NotFound
    | Crashed

  /** Where a request is: the repository call it makes next, or its answer. */
  datatype Progress =
    | CreateLookup(name: string, bi: string)
    | CreateInsert(name: string, bi: string)
    | UpdateLookup(id: Id, name: string, bi: string)
    | UpdateOwner(id: Id, name: string, bi: string)
    | UpdateWrite(id: Id, name: string, bi: string)
    | DeleteLookup(id: Id)
    | DeleteWrite(id: Id)
    | Answered(outcome: Outcome)

  datatype System = System(t: Table, requests: map<nat, Progress>)

  datatype Event =
    | Arrive(request: nat, first: Progress)
    | Call(request: nat, newId: Id, now: Timestamp)

  ghost predicate Enabled(s: System, e: Event) {
    match e
    case Arrive(r, first) => r !in s.requests && (first.CreateLookup? || first.UpdateLookup? || first.DeleteLookup?)
    case Call(r, newId, _) => r in s.requests && !s.requests[r].Answered? && newId !in s.t
  }

  /** The repository call of one request: the table after it, and where the request goes. */
  ghost function CallStep(t: Table, p: Progress, newId: Id, now: Timestamp): (Table, Progress) {
    match p
    case CreateLookup(name, bi) =>
      (t, if FindOwner(t, bi).Some? then Answered(AlreadyExists) else CreateInsert(name, bi))
    case CreateInsert(name, bi) =>
      var t' := Inserted(t, newId, name, bi, now);
      if UniqueIndex(t') then (t', Answered(Created(newId, bi))) else (t, Answered(Crashed))
    case UpdateLookup(id, name, bi) =>
      (t, if !IsLive(t, id) then Answered(NotFound)
          else if t[id].businessIdentifier != bi then UpdateOwner(id, name, bi)
          else UpdateWrite(id, name, bi))
    case UpdateOwner(id, name, bi) =>
      (t, if FindOwner(t, bi).Some? && FindOwner(t, bi) != Some(id) then Answered(AlreadyExists)
          else UpdateWrite(id, name, bi))
    case UpdateWrite(id, name, bi) =>
      var t' := Updated(t, id, name, bi, now);
      if id in t && UniqueIndex(t') then (t', Answered(UpdateDone)) else (t, Answered(Crashed))
    case DeleteLookup(id) =>
      (t, if IsLive(t, id) then DeleteWrite(id) else Answered(NotFound))
    case DeleteWrite(id) =>
      (SoftDeleted(t, id, now), Answered(DeleteDone))
    case Answered(_) => (t, p)
  }

  ghost function Next(s: System, e: Event): System
    requires Enabled(s, e)
  {
    match e
    case Arrive(r, first) => s.(requests := s.requests[r := first])
    case Call(r, newId, now) =>
      var (t', p') := CallStep(s.t, s.requests[r], newId, now);
      System(t', s.requests[r := p'])
  }

  ghost predicate Possible(s: System, events: seq<Event>)
    decreases |events|
  {
    events == [] || (Enabled(s, events[0]) && Possible(Next(s, events[0]), events[1..]))
  }

  ghost function After(s: System, events: seq<Event>): System
    requires Possible(s, events)
    decreases |events|
  {
    if events == [] then s else After(Next(s, events[0]), events[1..])
  }

  lemma {:induction false} Then(s: System, events: seq<Event>, e: Event) returns (longer: seq<Event>)
    requires Possible(s, events) && Enabled(After(s, events), e)
    ensures Possible(s, longer) && After(s, longer) == Next(After(s, events), e)
    ensures longer == events + [e]
    decreases |events|
  {
    longer := events + [e];
    if events == [] {
      assert longer[1..] == [];
    } else {
      var rest := Then(Next(s, events[0]), events[1..], e);
      assert longer[1..] == rest;
    }
  }

  // ---------- a request that nothing interrupts ----------

  /** The calls of one request, back to back; no request makes more than three. */
  ghost function Alone(t: Table, p: Progress, newId: Id, now: Timestamp): (Table, Progress) {
    var (t1, p1) := CallStep(t, p, newId, now);
    var (t2, p2) := CallStep(t1, p1, newId, now);
    CallStep(t2, p2, newId, now)
  }

  ghost function FirstCall(req: S.Request): Progress
    requires !req.List?
  {
    match req
    case Create(_, name, bi, _) => CreateLookup(name, bi)
    case Update(id, name, bi, _) => UpdateLookup(id, name, bi)
    case Delete(id, _) => DeleteLookup(id)
  }

  ghost predicate SameAnswer(req: S.Request, reply: S.Reply, p: Progress)
    requires !req.List?
  {
    && p.Answered?
    && match p.outcome
       case Created(id, bi) => req.Create? && id == req.id && bi == req.businessIdentifier && reply.Saved?
       case UpdateDone => req.Update? && reply.Saved?
       case DeleteDone => req.Delete? && reply.Deleted?
       case AlreadyExists => reply.AlreadyExists?
       case NotFound => reply.NotFound?
       case Crashed => reply.Crash?
  }

  lemma CreateAlone(t: Table, like: Like, req: S.Request)
    requires req.Create?
    ensures
      var (t', p) := Alone(t, FirstCall(req), req.id, req.now);
      t' == S.Serve(t, like, req).0 && SameAnswer(req, S.Serve(t, like, req).1, p)
  {
  }

  lemma UpdateAlone(t: Table, like: Like, req: S.Request, newId: Id)
    requires req.Update?
    ensures
      var (t', p) := Alone(t, FirstCall(req), newId, req.now);
      t' == S.Serve(t, like, req).0 && SameAnswer(req, S.Serve(t, like, req).1, p)
  {
    hide UniqueIndex, UpdatedRow, S.RowOutput;
    var id, name, bi := req.id, req.name, req.businessIdentifier;
    if IsLive(t, id) && t[id].businessIdentifier != bi {
      assert CallStep(t, FirstCall(req), newId, req.now) == (t, UpdateOwner(id, name, bi));
    }
  }

  /** The calls, made without interruption, are the service's method. */
  lemma AloneIsServe(t: Table, like: Like, req: S.Request, newId: Id)
    requires !req.List?
    requires req.Create? ==> req.id == newId
    ensures
      var (t', p) := Alone(t, FirstCall(req), newId, req.now);
      t' == S.Serve(t, like, req).0 && SameAnswer(req, S.Serve(t, like, req).1, p)
  {
    match req
    case Create(_, _, _, _) => CreateAlone(t, like, req);
    case Update(_, _, _, _) => UpdateAlone(t, like, req, newId);
    case Delete(_, _) =>
  }

  // ---------- what every step keeps ----------

  /** Rows are never removed, never re-created and never brought back to life. */
  ghost predicate Evolved(t: Table, t': Table) {
    forall id :: id in t ==>
      && id in t'
      && t'[id].createdAt == t[id].createdAt
      && (IsLive(t', id) ==> IsLive(t, id))
  }

  lemma StepKeeps(s: System, e: Event)
    requires UniqueIndex(s.t) && Enabled(s, e)
    ensures UniqueIndex(Next(s, e).t) && Evolved(s.t, Next(s, e).t)
  {
    if e.Call? && s.requests[e.request].DeleteWrite? {
      SoftDeleteFits(s.t, s.requests[e.request].id, e.now);
    }
  }

  lemma {:induction false} TrafficKeeps(s: System, events: seq<Event>)
    requires UniqueIndex(s.t) && Possible(s, events)
    ensures UniqueIndex(After(s, events).t) && Evolved(s.t, After(s, events).t)
    decreases |events|
  {
    if events != [] {
      StepKeeps(s, events[0]);
      TrafficKeeps(Next(s, events[0]), events[1..]);
    }
  }

  /** In every interleaving no two live customers share an identifier, and a stale
      update that lands after a soft delete leaves the customer deleted. */
  lemma NoDuplicatesAndNoRevival(s: System, events: seq<Event>, id: Id)
    requires UniqueIndex(s.t) && Possible(s, events)
    ensures forall bi, i, j :: Owns(After(s, events).t, i, bi) && Owns(After(s, events).t, j, bi) ==> i == j
    ensures id in s.t && !IsLive(s.t, id) ==> id in After(s, events).t && !IsLive(After(s, events).t, id)
  {
    TrafficKeeps(s, events);
  }

  // ---------- concurrent creates for one identifier ----------

  /** No step takes the identifier away from a customer that has it. */
  ghost predicate NeverFreed(s: System, events: seq<Event>, bi: string)
    requires Possible(s, events)
    decreases |events|
  {
    events == [] ||
    (Owners(s.t, bi) <= Owners(Next(s, events[0]).t, bi) && NeverFreed(Next(s, events[0]), events[1..], bi))
  }

  /** Only the writes of an update or of a delete can free an identifier. */
  lemma OnlyUpdateOrDeleteFrees(s: System, e: Event, bi: string)
    requires UniqueIndex(s.t) && Enabled(s, e)
    requires !(Owners(s.t, bi) <= Owners(Next(s, e).t, bi))
    ensures e.Call? && (s.requests[e.request].UpdateWrite? || s.requests[e.request].DeleteWrite?)
  {
    var id :| id in Owners(s.t, bi) && id !in Owners(Next(s, e).t, bi);
    assert Owns(s.t, id, bi);
  }

  /** Request `r` was answered Created for `bi` since `s0`. */
  ghost predicate Won(s0: System, s: System, r: nat, bi: string) {
    && r in s.requests && s.requests[r].Answered? && s.requests[r].outcome.Created?
    && s.requests[r].outcome.identifier == bi
    && (r in s0.requests ==> !s0.requests[r].Answered?)
  }

  /** Each winner's row is still the owner, it is new, and it is its own. */
  ghost predicate WinnersOwn(s0: System, s: System, bi: string) {
    && (forall r :: Won(s0, s, r, bi) ==>
          Owns(s.t, s.requests[r].outcome.id, bi) && s.requests[r].outcome.id !in s0.t)
    && (forall q, r :: Won(s0, s, q, bi) && Won(s0, s, r, bi) && q != r ==>
          s.requests[q].outcome.id != s.requests[r].outcome.id)
    && Owners(s0.t, bi) <= Owners(s.t, bi)
    && s0.t.Keys <= s.t.Keys
    && (forall r :: r in s0.requests && s0.requests[r].Answered? ==> r in s.requests && s.requests[r] == s0.requests[r])
  }

  lemma WinnersStep(s0: System, s: System, e: Event, bi: string)
    requires UniqueIndex(s.t) && Enabled(s, e) && WinnersOwn(s0, s, bi)
    requires Owners(s.t, bi) <= Owners(Next(s, e).t, bi)
    ensures WinnersOwn(s0, Next(s, e), bi)
  {
    var s' := Next(s, e);
    StepKeeps(s, e);
    forall r | Won(s0, s', r, bi)
      ensures Owns(s'.t, s'.requests[r].outcome.id, bi) && s'.requests[r].outcome.id !in s0.t
      ensures Won(s0, s, r, bi) || (e.Call? && r == e.request && s'.requests[r].outcome.id == e.newId)
      ensures Won(s0, s, r, bi) ==> s'.requests[r] == s.requests[r] && s.requests[r].outcome.id in s.t
    {
      if Won(s0, s, r, bi) {
        assert s.requests[r].outcome.id in Owners(s.t, bi);
        assert s'.requests[r] == s.requests[r];
      }
    }
  }

  lemma {:induction false} WinnersRun(s0: System, s: System, events: seq<Event>, bi: string)
    requires UniqueIndex(s.t) && Possible(s, events) && WinnersOwn(s0, s, bi) && NeverFreed(s, events, bi)
    ensures WinnersOwn(s0, After(s, events), bi) && UniqueIndex(After(s, events).t)
    decreases |events|
  {
    if events != [] {
      StepKeeps(s, events[0]);
      WinnersStep(s0, s, events[0], bi);
      WinnersRun(s0, Next(s, events[0]), events[1..], bi);
    }
  }

  /** While nothing frees the identifier, at most one of any number of concurrent
      creates for it succeeds, and none does if it was taken at the start. */
  lemma AtMostOneCreateWins(s: System, events: seq<Event>, bi: string)
    requires UniqueIndex(s.t) && Possible(s, events) && NeverFreed(s, events, bi)
    ensures
      var end := After(s, events);
      && (forall q, r :: Won(s, end, q, bi) && Won(s, end, r, bi) ==> q == r)
      && (Owners(s.t, bi) != {} ==> forall r :: !Won(s, end, r, bi))
  {
    var end := After(s, events);
    WinnersRun(s, s, events, bi);
    forall q, r | Won(s, end, q, bi) && Won(s, end, r, bi) ensures q == r {
      assert Owns(end.t, end.requests[q].outcome.id, bi) && Owns(end.t, end.requests[r].outcome.id, bi);
    }
    if r :| Won(s, end, r, bi) {
      var id := end.requests[r].outcome.id;
      if i :| i in Owners(s.t, bi) {
        assert i in Owners(end.t, bi);
        assert Owns(end.t, i, bi) && Owns(end.t, id, bi);
      }
    }
  }

  // ---------- exactly when a call crashes ----------

  /** The unique index refuses the write that the request makes next. */
  ghost predicate Refused(t: Table, p: Progress) {
    match p
    case CreateInsert(_, bi) => Owners(t, bi) != {}
    case UpdateWrite(id, _, bi) => IsLive(t, id) && !(Owners(t, bi) <= {id})
    case _ => false
  }

  /** A call crashes exactly when its write is refused, or is an update of no row. */
  lemma StepCrashesIff(s: System, e: Event)
    requires UniqueIndex(s.t) && Enabled(s, e) && e.Call?
    ensures
      var p := s.requests[e.request];
      Next(s, e).requests[e.request] == Answered(Crashed) <==> Refused(s.t, p) || (p.UpdateWrite? && p.id !in s.t)
  {
    match s.requests[e.request]
    case CreateInsert(name, bi) => InsertFits(s.t, e.newId, name, bi, e.now);
    case UpdateWrite(id, name, bi) => UpdateFits(s.t, id, name, bi, e.now);
    case _ =>
  }

  /** Requests past their lookup hold the id of a row. */
  ghost predicate KnowRows(s: System) {
    forall r :: r in s.requests && (s.requests[r].UpdateOwner? || s.requests[r].UpdateWrite?) ==>
                  s.requests[r].id in s.t
  }

  lemma {:induction false} RunsKnowRows(s: System, events: seq<Event>)
    requires UniqueIndex(s.t) && KnowRows(s) && Possible(s, events)
    ensures KnowRows(After(s, events))
    decreases |events|
  {
    if events != [] {
      StepKeeps(s, events[0]);
      RunsKnowRows(Next(s, events[0]), events[1..]);
    }
  }

  /** In every run, a call ends in a database error if and only if it is the insert of
      a create whose identifier is taken by then, or the write of an update to a live
      row whose identifier is another's by then, looked up before or not. */
  lemma CrashesIff(s: System, events: seq<Event>, e: Event)
    requires UniqueIndex(s.t) && KnowRows(s) && Possible(s, events)
    requires Enabled(After(s, events), e) && e.Call?
    ensures
      var s' := After(s, events);
      Next(s', e).requests[e.request] == Answered(Crashed) <==> Refused(s'.t, s'.requests[e.request])
  {
    TrafficKeeps(s, events);
    RunsKnowRows(s, events);
    StepCrashesIff(After(s, events), e);
  }

  /** The traffic has no call of request `r`. */
  predicate Without(events: seq<Event>, r: nat) {
    forall e :: e in events && e.Call? ==> e.request != r
  }

  lemma {:induction false} Waits(s: System, events: seq<Event>, r: nat)
    requires Possible(s, events) && Without(events, r) && r in s.requests
    ensures r in After(s, events).requests && After(s, events).requests[r] == s.requests[r]
    decreases |events|
  {
    if events != [] {
      assert events[0] in events;
      Waits(Next(s, events[0]), events[1..], r);
    }
  }

  /** The whole life of a create among any traffic: taken at its lookup, it answers
      AlreadyExists; otherwise it waits, and its insert crashes if the identifier has an
      owner by then and succeeds if it has none. */
  lemma CreateOutcome(s: System, lookup: Event, traffic: seq<Event>, insert: Event)
    requires UniqueIndex(s.t) && Enabled(s, lookup) && lookup.Call? && s.requests[lookup.request].CreateLookup?
    requires Possible(Next(s, lookup), traffic) && Without(traffic, lookup.request)
    ensures
      var r := lookup.request;
      var bi, s' := s.requests[r].bi, After(Next(s, lookup), traffic);
      && r in s'.requests
      && if Owners(s.t, bi) != {} then s'.requests[r] == Answered(AlreadyExists)
         else
           && s'.requests[r].CreateInsert?
           && (insert.Call? && insert.request == r && Enabled(s', insert) ==>
                 Next(s', insert).requests[r] ==
                 Answered(if Owners(s'.t, bi) != {} then Crashed else Created(insert.newId, bi)))
  {
    var r := lookup.request;
    var bi, s1 := s.requests[r].bi, Next(s, lookup);
    assert forall i :: Owns(s.t, i, bi) <==> i in Owners(s.t, bi);
    StepKeeps(s, lookup);
    Waits(s1, traffic, r);
    TrafficKeeps(s1, traffic);
    var s' := After(s1, traffic);
    if Owners(s.t, bi) == {} && insert.Call? && insert.request == r && Enabled(s', insert) {
      StepCrashesIff(s', insert);
    }
  }

  /** An identifier with no owner gets one only by the insert of a create for it or the
      write of an update to it. */
  lemma OnlyInsertOrUpdateTakes(s: System, e: Event, bi: string)
    requires UniqueIndex(s.t) && Enabled(s, e)
    requires Owners(s.t, bi) == {} && Owners(Next(s, e).t, bi) != {}
    ensures e.Call? && (s.requests[e.request].CreateInsert? || s.requests[e.request].UpdateWrite?)
    ensures s.requests[e.request].bi == bi
  {
    var id :| id in Owners(Next(s, e).t, bi);
    assert Owns(Next(s, e).t, id, bi);
    assert forall i :: Owns(s.t, i, bi) ==> i in Owners(s.t, bi);
    assert !Owns(s.t, id, bi);
  }

  /** The write of a delete of `id` is among the calls that the traffic makes. */
  ghost predicate DeleteLands(s: System, events: seq<Event>, id: Id)
    requires Possible(s, events)
    decreases |events|
  {
    events != [] && (IsDeleteOf(s, events[0], id) || DeleteLands(Next(s, events[0]), events[1..], id))
  }

  ghost predicate IsDeleteOf(s: System, e: Event, id: Id)
    requires Enabled(s, e)
  {
    e.Call? && s.requests[e.request] == DeleteWrite(id)
  }

  /** A live customer is live after any traffic exactly when no delete of it landed. */
  lemma {:induction false} LiveUnlessDeleteLands(s: System, events: seq<Event>, id: Id)
    requires UniqueIndex(s.t) && Possible(s, events) && IsLive(s.t, id)
    ensures id in After(s, events).t
    ensures IsLive(After(s, events).t, id) <==> !DeleteLands(s, events, id)
    decreases |events|
  {
    if events != [] {
      var s1, rest := Next(s, events[0]), events[1..];
      StepKeeps(s, events[0]);
      TrafficKeeps(s1, rest);
      if !IsDeleteOf(s, events[0], id) {
        LiveUnlessDeleteLands(s1, rest, id);
      }
    }
  }

  lemma {:induction false} AnswersStay(s: System, events: seq<Event>, r: nat)
    requires Possible(s, events) && r in s.requests && s.requests[r].Answered?
    ensures r in After(s, events).requests && After(s, events).requests[r] == s.requests[r]
    decreases |events|
  {
    if events != [] {
      AnswersStay(Next(s, events[0]), events[1..], r);
    }
  }

  /** The whole life of an update that got as far as its write, among any traffic: the
      row it looked up is still there; the write crashes exactly when the row is live
      and the identifier is another's by then; and an answer of Done leaves the row live
      exactly when no delete of it landed since the lookup. */
  lemma UpdateOutcome(s: System, lookup: Event, traffic: seq<Event>, write: Event)
    requires UniqueIndex(s.t) && Enabled(s, lookup) && lookup.Call? && s.requests[lookup.request].UpdateLookup?
    requires Possible(Next(s, lookup), traffic)
    requires Enabled(After(Next(s, lookup), traffic), write) && write.Call? && write.request == lookup.request
    requires
      var p := s.requests[lookup.request];
      After(Next(s, lookup), traffic).requests[write.request] == UpdateWrite(p.id, p.name, p.bi)
    ensures
      var p, s' := s.requests[lookup.request], After(Next(s, lookup), traffic);
      var end := Next(s', write);
      && IsLive(s.t, p.id) && p.id in s'.t && p.id in end.t
      && end.requests[write.request] ==
         Answered(if IsLive(s'.t, p.id) && !(Owners(s'.t, p.bi) <= {p.id}) then Crashed else UpdateDone)
      && (end.requests[write.request] == Answered(UpdateDone) ==>
           && end.t[p.id].name == p.name && end.t[p.id].businessIdentifier == p.bi
           && (IsLive(end.t, p.id) <==> !DeleteLands(Next(s, lookup), traffic, p.id)))
  {
    var id, s1 := s.requests[lookup.request].id, Next(s, lookup);
    StepKeeps(s, lookup);
    TrafficKeeps(s1, traffic);
    if !IsLive(s.t, id) {
      AnswersStay(s1, traffic, lookup.request);
    }
    LiveUnlessDeleteLands(s1, traffic, id);
    StepCrashesIff(After(s1, traffic), write);
  }

  // ---------- such runs exist ----------

  /** Two creates that both looked before either wrote end with one answer and one
      database error, not a 409. */
  lemma RacingCreatesCrash(t: Table, name: string, bi: string, a: Id, b: Id, now: Timestamp)
    returns (events: seq<Event>)
    requires UniqueIndex(t) && Owners(t, bi) == {}
    requires a !in t && b !in t && a != b
    ensures
      var s := System(t, map[0 := CreateLookup(name, bi), 1 := CreateLookup(name, bi)]);
      && Possible(s, events)
      && After(s, events).requests == map[0 := Answered(Created(a, bi)), 1 := Answered(Crashed)]
  {
    var s := System(t, map[0 := CreateLookup(name, bi), 1 := CreateLookup(name, bi)]);
    assert forall i :: Owns(t, i, bi) ==> i in Owners(t, bi);
    var first, second := Call(0, a, now), Call(1, b, now);
    var s1 := Next(s, first);
    var s2 := Next(s1, second);
    InsertFits(t, a, name, bi, now);
    var s3 := Next(s2, first);
    assert s3.t == Inserted(t, a, name, bi, now) && a in Owners(s3.t, bi);
    InsertFits(s3.t, b, name, bi, now);
    var s4 := Next(s3, second);
    events := Then(s, [], first);
    events := Then(s, events, second);
    events := Then(s, events, first);
    events := Then(s, events, second);
    assert s4.requests == map[0 := Answered(Created(a, bi)), 1 := Answered(Crashed)];
  }

  lemma IdentifierChangesHands(t: Table, id: Id, name: string, other: string, a: Id, now: Timestamp)
    requires UniqueIndex(t) && IsLive(t, id) && a !in t && Owners(t, other) == {}
    ensures
      var bi := t[id].businessIdentifier;
      var t1 := Updated(t, id, name, other, now);
      var t2 := Inserted(t1, a, name, bi, now);
      && bi != other && FindOwner(t, other).None? && UniqueIndex(t1)
      && a !in t1 && FindOwner(t1, bi).None? && UniqueIndex(t2)
      && t2.Keys == t.Keys + {a} && !UniqueIndex(Updated(t2, id, name, bi, now))
  {
    var bi := t[id].businessIdentifier;
    assert forall i :: Owns(t, i, other) ==> i in Owners(t, other);
    assert Owns(t, id, bi);
    UpdateFits(t, id, name, other, now);
    var t1 := Updated(t, id, name, other, now);
    assert forall i :: Owns(t1, i, bi) ==> Owns(t, i, bi);
    InsertFits(t1, a, name, bi, now);
    var t2 := Inserted(t1, a, name, bi, now);
    assert a in Owners(t2, bi) && IsLive(t2, id);
    UpdateFits(t2, id, name, bi, now);
  }

  function ThreeRequests(t: Table, id: Id, name: string, bi: string, other: string): System {
    System(t, map[0 := UpdateLookup(id, name, bi), 1 := UpdateLookup(id, name, other), 2 := CreateLookup(name, bi)])
  }

  /** An update that keeps its row's identifier skips the lookup, and crashes if the
      identifier was given up and taken by another before it writes. */
  lemma SkippedLookupCrashes(t: Table, id: Id, name: string, other: string, a: Id, b: Id, now: Timestamp)
    returns (events: seq<Event>)
    requires UniqueIndex(t) && IsLive(t, id) && a !in t && b !in t && a != b
    requires Owners(t, other) == {}
    ensures
      var bi := t[id].businessIdentifier;
      var s := ThreeRequests(t, id, name, bi, other);
      && Possible(s, events)
      && After(s, events).requests ==
         map[0 := Answered(Crashed), 1 := Answered(UpdateDone), 2 := Answered(Created(a, bi))]
  {
    var bi := t[id].businessIdentifier;
    var s := ThreeRequests(t, id, name, bi, other);
    var keep, move, take := Call(0, b, now), Call(1, a, now), Call(2, a, now);
    IdentifierChangesHands(t, id, name, other, a, now);
    var t1 := Updated(t, id, name, other, now);
    var t2 := Inserted(t1, a, name, bi, now);
    hide Updated, Inserted, UniqueIndex, Owners, Owns;
    events := Then(s, [], keep);
    events := Then(s, events, move);
    events := Then(s, events, move);
    events := Then(s, events, move);
    assert After(s, events).t == t1;
    events := Then(s, events, take);
    events := Then(s, events, take);
    assert After(s, events).t == t2;
    events := Then(s, events, keep);
    assert After(s, events).requests ==
           map[0 := Answered(Crashed), 1 := Answered(UpdateDone), 2 := Answered(Created(a, bi))];
  }

  /** An update that read its row before a delete is told that it succeeded; the
      row it wrote stays deleted. */
  lemma StaleUpdateAnswersDone(t: Table, id: Id, name: string, newId: Id, now: Timestamp)
    returns (events: seq<Event>)
    requires UniqueIndex(t) && IsLive(t, id) && newId !in t
    ensures
      var bi := t[id].businessIdentifier;
      var s := System(t, map[0 := UpdateLookup(id, name, bi), 1 := DeleteLookup(id)]);
      && Possible(s, events)
      && After(s, events).requests == map[0 := Answered(UpdateDone), 1 := Answered(DeleteDone)]
      && id in After(s, events).t && !IsLive(After(s, events).t, id) && After(s, events).t[id].name == name
  {
    var bi := t[id].businessIdentifier;
    var s := System(t, map[0 := UpdateLookup(id, name, bi), 1 := DeleteLookup(id)]);
    var update, delete := Call(0, newId, now), Call(1, newId, now);
    var s1 := Next(s, update);
    var s2 := Next(s1, delete);
    var s3 := Next(s2, delete);
    SoftDeleteFits(t, id, now);
    assert s3.t == SoftDeleted(t, id, now);
    UpdateFits(s3.t, id, name, bi, now);
    var s4 := Next(s3, update);
    events := Then(s, [], update);
    events := Then(s, events, delete);
    events := Then(s, events, delete);
    events := Then(s, events, update);
    assert s4.requests == map[0 := Answered(UpdateDone), 1 := Answered(DeleteDone)];
  }

  // ---------- a client that pages through the table meanwhile ----------

  /** `states` is the system at each page read, with any traffic between the reads. */
  ghost predicate Observed(states: seq<System>, traffic: seq<seq<Event>>) {
    && |traffic| == |states|
    && forall i :: 0 < i < |states| ==>
         Possible(states[i - 1], traffic[i]) && states[i] == After(states[i - 1], traffic[i])
  }

  lemma EvolvedTransitive(a: Table, b: Table, c: Table)
    requires Evolved(a, b) && Evolved(b, c)
    ensures Evolved(a, c)
  {
  }

  lemma {:induction false} TablesEvolve(states: seq<System>, traffic: seq<seq<Event>>, i: nat, j: nat)
    requires Observed(states, traffic) && i <= j < |states|
    requires UniqueIndex(states[i].t)
    ensures Evolved(states[i].t, states[j].t) && UniqueIndex(states[j].t)
    decreases j
  {
    if i < j {
      TablesEvolve(states, traffic, i, j - 1);
      TrafficKeeps(states[j - 1], traffic[j]);
      EvolvedTransitive(states[i].t, states[j - 1].t, states[j].t);
    }
  }

  /** The walk reads the matching customers of the table as it is at each read. */
  ghost predicate ReadsTable(walk: seq<Read>, states: seq<System>, like: Like, search: string) {
    && |walk| == |states|
    && forall i :: 0 <= i < |walk| ==> walk[i].snap == Matching(states[i].t, like, search)
  }

  lemma SameKey(
    states: seq<System>, traffic: seq<seq<Event>>, like: Like, search: string, i: nat, j: nat, k: Key, l: Key)
    requires Observed(states, traffic) && i <= j < |states| && UniqueIndex(states[0].t)
    requires k in Matching(states[i].t, like, search) && l in Matching(states[j].t, like, search) && k.id == l.id
    ensures k == l
  {
    TablesEvolve(states, traffic, 0, i);
    TablesEvolve(states, traffic, i, j);
    MatchingIsTheTable(states[i].t, like, search, k);
    MatchingIsTheTable(states[j].t, like, search, l);
  }

  lemma TrafficKeepsKeys(states: seq<System>, traffic: seq<seq<Event>>, walk: seq<Read>, like: Like, search: string)
    requires Observed(states, traffic) && ReadsTable(walk, states, like, search)
    requires states != [] ==> UniqueIndex(states[0].t)
    ensures StableKeys(walk)
  {
    hide Matching, Observed, UniqueIndex;
    forall i, j, k, l |
      0 <= i < |walk| && 0 <= j < |walk| && k in walk[i].snap && l in walk[j].snap && k.id == l.id
      ensures k == l
    {
      if i <= j {
        SameKey(states, traffic, like, search, i, j, k, l);
      } else {
        SameKey(states, traffic, like, search, j, i, l, k);
      }
    }
  }

  /** A listing walked while customers are created, updated and deleted by anyone:
      newest first, no customer twice, and every customer that stays listed throughout
      appears exactly once, unless the cursor of some page skipped it: then never. With
      whole-millisecond creation times none is skipped. */
  lemma WalkUnderTraffic(states: seq<System>, traffic: seq<seq<Event>>, walk: seq<Read>,
                         like: Like, search: string, limit: nat)
    requires limit > 0 && Observed(states, traffic) && ReadsTable(walk, states, like, search)
    requires states != [] ==> UniqueIndex(states[0].t)
    requires IsWalk(walk, limit, Millis)
    ensures Descending(Emitted(walk)) && DistinctIds(Emitted(walk))
    ensures Finished(walk) ==>
              forall k :: (forall i :: 0 <= i < |walk| ==> k in walk[i].snap) ==>
                multiset(Emitted(walk))[k] == if Skipped(walk, k) then 0 else 1
    ensures AllWhole(walk, Millis) ==> forall k :: !Skipped(walk, k)
  {
    TrafficKeepsKeys(states, traffic, walk, like, search);
    hide Observed, ReadsTable, UniqueIndex, IsWalk, Emitted, Skipped, AllWhole, Finished, StableKeys;
    WalkDescends(walk, limit, Millis);
    WalkRepeatsNoId(walk, limit, Millis);
    if Finished(walk) {
      forall k | forall i :: 0 <= i < |walk| ==> k in walk[i].snap
        ensures multiset(Emitted(walk))[k] == if Skipped(walk, k) then 0 else 1
      {
        WalkCounts(walk, limit, Millis, k);
      }
    }
    if AllWhole(walk, Millis) {
      forall k ensures !Skipped(walk, k) {
        WholeSkipsNothing(walk, limit, Millis, k);
      }
    }
  }
}
