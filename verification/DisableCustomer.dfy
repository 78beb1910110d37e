/** The broker's transaction wrapper, and DisableCustomer inside it, under every
    failure and every panic that the database can answer with. */
module DisableCustomer {
  import opened Prelude

  type Uuid = nat
  type Time = int

  datatype CustomerRow = CustomerRow(deletedAt: Option<Time>)
  datatype ApiKeyRow = ApiKeyRow(customerID: Uuid, revokedAt: Option<Time>)
  datatype Tables = Tables(customers: map<Uuid, CustomerRow>, apiKeys: map<Uuid, ApiKeyRow>)

  datatype Error = NotFound | DatabaseFailure | NoTransaction | BeginFailure | CommitFailure

  /** How a Go call ends: nil, an error, or a panic that unwinds the caller. */
  datatype Ending = Nil | Failed(error: Error) | Panicked

  /** What the environment does to one statement. */
  datatype Fate = Runs | Fails | Panics

  /** A commit that fails or panics may still have reached the disk. */
  datatype CommitFate = Commits | CommitFails(applied: bool) | CommitPanics(applied: bool)

  // ---------- the statements ----------

  /** UPDATE customers SET deleted_at = $2 WHERE id = $1 */
  function DeleteCustomer(t: Tables, id: Uuid, now: Time): Tables {
    if id in t.customers then t.(customers := t.customers[id := CustomerRow(Some(now))]) else t
  }

  /** UPDATE api_keys SET revoked_at = $2 WHERE customer_id = $1 */
  function RevokeAllKeys(t: Tables, id: Uuid, now: Time): Tables {
    t.(apiKeys := map k | k in t.apiKeys ::
      if t.apiKeys[k].customerID == id then t.apiKeys[k].(revokedAt := Some(now)) else t.apiKeys[k])
  }

  /** A store write: it needs the transaction in its context. */
  function Write(ctx: Option<Tables>, written: Tables, fate: Fate): (Option<Tables>, Ending) {
    if ctx.None? then (None, Failed(NoTransaction))
    else match fate
      case Runs => (Some(written), Nil)
      case Fails => (ctx, Failed(DatabaseFailure))
      case Panics => (ctx, Panicked)
  }

  function StoreDelete(ctx: Option<Tables>, id: Uuid, now: Time, fate: Fate): (Option<Tables>, Ending) {
    Write(ctx, if ctx.Some? then DeleteCustomer(ctx.value, id, now) else Tables(map[], map[]), fate)
  }

  function StoreRevokeAll(ctx: Option<Tables>, id: Uuid, now: Time, fate: Fate): (Option<Tables>, Ending) {
    Write(ctx, if ctx.Some? then RevokeAllKeys(ctx.value, id, now) else Tables(map[], map[]), fate)
  }

  /** The function given to WithinTransaction: what it makes of the transaction's
      view of the tables, and how it ends. */
  type Body = Option<Tables> -> (Option<Tables>, Ending)

  datatype Weather = Weather(
    lookup: Fate, begin: Fate, delete: Fate, revoke: Fate, commit: CommitFate, deleteTime: Time, revokeTime: Time)

  function DisableBody(id: Uuid, w: Weather): Body {
    ctx =>
      var (ctx1, deleted) := StoreDelete(ctx, id, w.deleteTime, w.delete);
      if !deleted.Nil? then (ctx1, deleted) else StoreRevokeAll(ctx1, id, w.revokeTime, w.revoke)
  }

  // ---------- transactions, from Begin to their one closing ----------

  /** What the database did with transaction `tx`. */
  datatype Entry = Began(tx: nat) | Published(tx: nat) | Dropped(tx: nat)

  /** Each transaction began once, and has been closed once unless it is still open. */
  ghost predicate Balanced(log: seq<Entry>, begun: nat, open: set<nat>) {
    && (forall tx :: tx in open ==> tx < begun)
    && forall tx: nat ::
         && multiset(log)[Began(tx)] == (if tx < begun then 1 else 0)
         && multiset(log)[Published(tx)] + multiset(log)[Dropped(tx)] == (if tx < begun && tx !in open then 1 else 0)
  }

  lemma BalancedBegin(log: seq<Entry>, begun: nat, open: set<nat>)
    requires Balanced(log, begun, open)
    ensures Balanced(log + [Began(begun)], begun + 1, open + {begun})
  {
    assert multiset(log + [Began(begun)]) == multiset(log) + multiset{Began(begun)};
  }

  lemma BalancedClose(log: seq<Entry>, begun: nat, open: set<nat>, e: Entry)
    requires Balanced(log, begun, open) && !e.Began? && e.tx in open
    ensures Balanced(log + [e], begun, open - {e.tx})
  {
    assert multiset(log + [e]) == multiset(log) + multiset{e};
  }

  lemma BalancedPair(log: seq<Entry>, begun: nat, open: set<nat>, e: Entry)
    requires Balanced(log, begun, open) && !e.Began? && e.tx == begun
    ensures Balanced(log + [Began(begun), e], begun + 1, open)
  {
    BalancedBegin(log, begun, open);
    BalancedClose(log + [Began(begun)], begun + 1, open + {begun}, e);
    assert log + [Began(begun)] + [e] == log + [Began(begun), e];
    assert open + {begun} - {begun} == open;
  }

  /** The committed tables, and the log of all transactions so far. */
  datatype State = State(tables: Tables, begun: nat, log: seq<Entry>)

  predicate Applied(commit: CommitFate) {
    commit.Commits? || commit.applied
  }

  function Closed(s: State, effective: bool, written: Tables): State {
    var tx := s.begun;
    State(if effective then written else s.tables, tx + 1,
          s.log + [Began(tx), if effective then Published(tx) else Dropped(tx)])
  }

  /** Begin, the body, and the one closing: the work is published when the body ended
      well and the commit took effect, and dropped in every other case. */
  function Transact(s: State, body: Body, begin: Fate, commit: CommitFate): (State, Ending) {
    if begin.Fails? then (s, Failed(BeginFailure))
    else if begin.Panics? then (s, Panicked)
    else
      var (ctx, ending) := body(Some(s.tables));
      var written := if ctx.Some? then ctx.value else s.tables;
      (Closed(s, ending.Nil? && Applied(commit), written),
       if !ending.Nil? then ending
       else match commit
         case Commits => Nil
         case CommitFails(_) => Failed(CommitFailure)
         case CommitPanics(_) => Panicked)
  }

  function Disable(s: State, id: Uuid, w: Weather): (State, Ending) {
    match w.lookup
    case Fails => (s, Failed(DatabaseFailure))
    case Panics => (s, Panicked)
    case Runs =>
      if id !in s.tables.customers then (s, Failed(NotFound))
      else Transact(s, DisableBody(id, w), w.begin, w.commit)
  }

  class Database {
    var committed: Tables
    var begun: nat
    /** The private work of each open transaction, by its number. */
    var open: map<nat, Tables>
    ghost var log: seq<Entry>

    ghost predicate Valid()
      reads this
    {
      Balanced(log, begun, open.Keys)
    }

    ghost function Contents(): State
      reads this
    {
      State(committed, begun, log)
    }

    constructor (tables: Tables)
      ensures Valid() && Contents() == State(tables, 0, []) && open == map[]
    {
      committed, begun, open, log := tables, 0, map[], [];
    }

    method Begin() returns (tx: nat)
      requires Valid()
      modifies this
      ensures Valid() && tx == old(begun) && tx !in old(open)
      ensures Contents() == State(old(committed), tx + 1, old(log) + [Began(tx)])
      ensures open == old(open)[tx := committed]
    {
      BalancedBegin(log, begun, open.Keys);
      assert begun !in open.Keys;
      hide Balanced;
      tx := begun;
      begun := begun + 1;
      open := open[tx := committed];
      log := log + [Began(tx)];
      assert open.Keys == old(open.Keys) + {tx};
    }

    /** Drops the work; a transaction that is closed already is left alone. */
    method Rollback(tx: nat)
      requires Valid()
      modifies this
      ensures Valid() && open == old(open) - {tx}
      ensures Contents() ==
              State(old(committed), old(begun), if tx in old(open) then old(log) + [Dropped(tx)] else old(log))
    {
      hide Balanced;
      if tx in open {
        BalancedClose(log, begun, open.Keys, Dropped(tx));
        log := log + [Dropped(tx)];
      }
      open := open - {tx};
      assert open.Keys == old(open.Keys) - {tx};
      assert tx !in old(open) ==> open == old(open);
    }

    /** Publishes the transaction's work, or fails with or without doing so. A commit
        that fails ends the transaction; one that panics before it took effect does not. */
    method Commit(tx: nat, fate: CommitFate) returns (ending: Ending)
      requires Valid() && tx in open
      modifies this
      ensures Valid()
      ensures ending == match fate
                        case Commits => Nil
                        case CommitFails(_) => Failed(CommitFailure)
                        case CommitPanics(_) => Panicked
      ensures Contents() ==
              if Applied(fate) then State(old(open)[tx], old(begun), old(log) + [Published(tx)])
              else if fate.CommitFails? then State(old(committed), old(begun), old(log) + [Dropped(tx)])
              else old(Contents())
      ensures open == if !Applied(fate) && fate.CommitPanics? then old(open) else old(open) - {tx}
    {
      hide Balanced;
      if Applied(fate) {
        BalancedClose(log, begun, open.Keys, Published(tx));
        committed := open[tx];
        open := open - {tx};
        log := log + [Published(tx)];
        assert open.Keys == old(open.Keys) - {tx};
      } else if fate.CommitFails? {
        Rollback(tx);
      }
      match fate {
        case Commits => ending := Nil;
        case CommitFails(_) => ending := Failed(CommitFailure);
        case CommitPanics(_) => ending := Panicked;
      }
    }

    /** However the body and the commit end, the transaction that was begun is closed
        exactly once before the call ends, and no other is touched. */
    method WithinTransaction(body: Body, begin: Fate, commit: CommitFate) returns (ending: Ending)
      requires Valid()
      modifies this
      ensures Valid() && open == old(open)
      ensures (Contents(), ending) == Transact(old(Contents()), body, begin, commit)
    {
      hide Balanced;
      match begin {
        case Fails => return Failed(BeginFailure);
        case Panics => return Panicked;
        case Runs =>
      }
      var tx := Begin();
      var (work, outcome) := body(Some(open[tx]));
      assert old(log) + [Began(tx)] + [Published(tx)] == old(log) + [Began(tx), Published(tx)];
      assert old(log) + [Began(tx)] + [Dropped(tx)] == old(log) + [Began(tx), Dropped(tx)];
      ghost var keys := open.Keys;
      if work.Some? {
        open := open[tx := work.value];
      }
      assert open.Keys == keys;
      assert open - {tx} == old(open);
      if outcome.Panicked? {
        // the deferred recover: roll back, then panic again
        Rollback(tx);
        return Panicked;
      }
      if outcome.Failed? {
        Rollback(tx);
        return outcome;
      }
      ending := Commit(tx, commit);
      if ending.Panicked? {
        Rollback(tx);
      }
      assert old(open) - {tx} == old(open);
    }

    method DisableCustomer(id: Uuid, w: Weather) returns (ending: Ending)
      requires Valid()
      modifies this
      ensures Valid() && open == old(open)
      ensures (Contents(), ending) == Disable(old(Contents()), id, w)
    {
      match w.lookup {
        case Fails => return Failed(DatabaseFailure);
        case Panics => return Panicked;
        case Runs =>
      }
      if id !in committed.customers {
        return Failed(NotFound);
      }
      ending := WithinTransaction(DisableBody(id, w), w.begin, w.commit);
    }
  }

  // ---------- atomicity ----------

  predicate IsDeleted(t: Tables, id: Uuid) {
    id in t.customers && t.customers[id].deletedAt.Some?
  }

  ghost predicate AllRevoked(t: Tables, id: Uuid) {
    forall k :: k in t.apiKeys && t.apiKeys[k].customerID == id ==> t.apiKeys[k].revokedAt.Some?
  }

  /** Both writes and nothing else: no row appears, vanishes or changes otherwise. */
  ghost predicate Disabled(t: Tables, t': Tables, id: Uuid, deletedAt: Time, revokedAt: Time) {
    && id in t'.customers && t'.customers[id].deletedAt == Some(deletedAt)
    && (forall k :: k in t'.apiKeys && t'.apiKeys[k].customerID == id ==> t'.apiKeys[k].revokedAt == Some(revokedAt))
    && t'.customers.Keys == t.customers.Keys && t'.apiKeys.Keys == t.apiKeys.Keys
    && (forall c :: c in t.customers && c != id ==> t'.customers[c] == t.customers[c])
    && (forall k :: k in t.apiKeys ==> t'.apiKeys[k].customerID == t.apiKeys[k].customerID)
    && (forall k :: k in t.apiKeys && t.apiKeys[k].customerID != id ==> t'.apiKeys[k] == t.apiKeys[k])
  }

  /** The two writes inside a transaction, and only there: without one the body stops at
      its first write, whatever the database would have answered. */
  lemma BodyNeedsTransaction(id: Uuid, w: Weather, ctx: Option<Tables>)
    ensures
      var (ctx', ending) := DisableBody(id, w)(ctx);
      && (ctx'.Some? <==> ctx.Some?)
      && (ctx.None? ==> ending == Failed(NoTransaction))
      && (ending.Nil? <==> ctx.Some? && w.delete.Runs? && w.revoke.Runs?)
      && (ending.Nil? && id in ctx.value.customers ==>
            Disabled(ctx.value, ctx'.value, id, w.deleteTime, w.revokeTime))
  {
    if ctx.Some? && id in ctx.value.customers && w.delete.Runs? && w.revoke.Runs? {
      var written := RevokeAllKeys(DeleteCustomer(ctx.value, id, w.deleteTime), id, w.revokeTime);
      assert DisableBody(id, w)(ctx) == (Some(written), Nil);
      assert Disabled(ctx.value, written, id, w.deleteTime, w.revokeTime);
    }
  }

  predicate Begins(t: Tables, id: Uuid, w: Weather) {
    w.lookup.Runs? && id in t.customers && w.begin.Runs?
  }

  /** The writes reach the committed tables exactly when both statements ran and the
      commit took effect; the caller is told nil exactly when it was clean. */
  predicate TakesEffect(t: Tables, id: Uuid, w: Weather) {
    Begins(t, id, w) && w.delete.Runs? && w.revoke.Runs? && Applied(w.commit)
  }

  /** The steps of a call in their order, each with what it does to one that reaches it. */
  function StepFates(w: Weather): seq<(Fate, Error)> {
    [(w.lookup, DatabaseFailure), (w.begin, BeginFailure), (w.delete, DatabaseFailure), (w.revoke, DatabaseFailure)]
  }

  /** The first step that does not run decides the ending; a missing customer ends the
      call after the lookup, and if every step runs the commit decides. */
  function EndingOf(t: Tables, id: Uuid, w: Weather): Ending {
    if !w.lookup.Runs? then EndedBy(StepFates(w)[0])
    else if id !in t.customers then Failed(NotFound)
    else if !w.begin.Runs? then EndedBy(StepFates(w)[1])
    else if !w.delete.Runs? then EndedBy(StepFates(w)[2])
    else if !w.revoke.Runs? then EndedBy(StepFates(w)[3])
    else if w.commit.Commits? then Nil
    else if w.commit.CommitFails? then Failed(CommitFailure)
    else Panicked
  }

  function EndedBy(step: (Fate, Error)): Ending {
    if step.0.Fails? then Failed(step.1) else Panicked
  }

  /** The wrapper hides nothing of how the function inside it ended: an error comes back
      as it was and a panic goes on, whatever the commit would have done. */
  lemma BodyEndingIsPassedOn(s: State, body: Body, commit: CommitFate)
    ensures
      var inside := body(Some(s.tables)).1;
      var (s', ending) := Transact(s, body, Runs, commit);
      && (!inside.Nil? ==> ending == inside && s'.tables == s.tables)
      && (inside.Nil? ==> (ending.Nil? <==> commit.Commits?) && (ending.Panicked? <==> commit.CommitPanics?))
  {
  }

  /** Wherever DisableCustomer fails or panics, the committed tables hold both of its
      writes or neither; and the transaction, if one began, is closed once, published
      or dropped to match. */
  lemma DisableIsAtomic(s: State, id: Uuid, w: Weather)
    ensures
      var (s', ending) := Disable(s, id, w);
      && (if TakesEffect(s.tables, id, w) then Disabled(s.tables, s'.tables, id, w.deleteTime, w.revokeTime)
          else s'.tables == s.tables)
      && ending == EndingOf(s.tables, id, w)
      && (ending.Nil? <==> TakesEffect(s.tables, id, w) && w.commit.Commits?)
      && (ending == Failed(NotFound) <==> w.lookup.Runs? && id !in s.tables.customers)
      && s'.log == s.log + (if !Begins(s.tables, id, w) then []
                            else if TakesEffect(s.tables, id, w) then [Began(s.begun), Published(s.begun)]
                            else [Began(s.begun), Dropped(s.begun)])
      && s'.begun == s.begun + if Begins(s.tables, id, w) then 1 else 0
  {
    BodyNeedsTransaction(id, w, Some(s.tables));
  }

  /** No deleted customer has a key that still works. */
  ghost predicate NoOrphanKeys(t: Tables) {
    forall k :: k in t.apiKeys && IsDeleted(t, t.apiKeys[k].customerID) ==> t.apiKeys[k].revokedAt.Some?
  }

  datatype Call = Call(id: Uuid, weather: Weather)

  function RunCalls(s: State, calls: seq<Call>): State
    decreases |calls|
  {
    if calls == [] then s else RunCalls(Disable(s, calls[0].id, calls[0].weather).0, calls[1..])
  }

  lemma DisableKeepsKeysSafe(s: State, id: Uuid, w: Weather)
    requires NoOrphanKeys(s.tables)
    ensures NoOrphanKeys(Disable(s, id, w).0.tables)
  {
    DisableIsAtomic(s, id, w);
    var t, t' := s.tables, Disable(s, id, w).0.tables;
    forall k | k in t'.apiKeys && IsDeleted(t', t'.apiKeys[k].customerID) ensures t'.apiKeys[k].revokedAt.Some? {
      if t'.apiKeys[k].customerID != id && TakesEffect(t, id, w) {
        assert k in t.apiKeys && t.apiKeys[k] == t'.apiKeys[k];
        assert IsDeleted(t, t.apiKeys[k].customerID);
      }
    }
  }

  lemma DisableKeepsBalance(s: State, id: Uuid, w: Weather, open: set<nat>)
    requires Balanced(s.log, s.begun, open)
    ensures Balanced(Disable(s, id, w).0.log, Disable(s, id, w).0.begun, open)
  {
    hide Balanced, Disable, Disabled, TakesEffect;
    DisableIsAtomic(s, id, w);
    assert s.log + [] == s.log;
    if Begins(s.tables, id, w) {
      BalancedPair(s.log, s.begun, open,
                   if TakesEffect(s.tables, id, w) then Published(s.begun) else Dropped(s.begun));
    }
  }

  lemma DeletedStaysDeleted(s: State, call: Call, id: Uuid)
    requires IsDeleted(s.tables, id)
    ensures IsDeleted(Disable(s, call.id, call.weather).0.tables, id)
  {
    DisableIsAtomic(s, call.id, call.weather);
  }

  /** Over any run of calls, whatever fails in each, deleted customers have no live key
      and stay deleted, and every transaction that a call began is closed exactly once. */
  lemma {:induction false} RunsKeepKeysSafe(s: State, calls: seq<Call>)
    requires NoOrphanKeys(s.tables)
    ensures
      var s' := RunCalls(s, calls);
      && NoOrphanKeys(s'.tables)
      && (forall id :: IsDeleted(s.tables, id) ==> IsDeleted(s'.tables, id) && AllRevoked(s'.tables, id))
      && (forall open :: Balanced(s.log, s.begun, open) ==> Balanced(s'.log, s'.begun, open))
    decreases |calls|
  {
    if calls != [] {
      var call := calls[0];
      var s1 := Disable(s, call.id, call.weather).0;
      DisableKeepsKeysSafe(s, call.id, call.weather);
      forall open | Balanced(s.log, s.begun, open) ensures Balanced(s1.log, s1.begun, open) {
        DisableKeepsBalance(s, call.id, call.weather, open);
      }
      forall id | IsDeleted(s.tables, id) ensures IsDeleted(s1.tables, id) {
        DeletedStaysDeleted(s, call, id);
      }
      hide Disable, Balanced;
      RunsKeepKeysSafe(s1, calls[1..]);
    }
  }

  /** A customer whose call returned nil is deleted for good, with no key that works,
      whatever calls follow. */
  lemma NilIsForGood(s: State, call: Call, later: seq<Call>)
    requires NoOrphanKeys(s.tables) && Disable(s, call.id, call.weather).1.Nil?
    ensures
      var t := RunCalls(Disable(s, call.id, call.weather).0, later).tables;
      IsDeleted(t, call.id) && AllRevoked(t, call.id)
  {
    DisableIsAtomic(s, call.id, call.weather);
    DisableKeepsKeysSafe(s, call.id, call.weather);
    hide Disable;
    RunsKeepKeysSafe(Disable(s, call.id, call.weather).0, later);
  }
}
