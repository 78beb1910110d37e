/** AdminsService over the admins table: the unique email, and whose password a
    stored hash is. */
module AdminsService {
  import opened Prelude
  import opened Keyset
  import opened CursorCodec
  import C = CustomersTable

  type Timestamp = C.Timestamp

  datatype Status = Active | Blocked

  datatype Admin = Admin(
    name: string, email: string, birthDate: Timestamp,
    passwordHash: Option<string>, status: Status, statusChangedAt: Option<Timestamp>,
    isPasswordCreationPending: bool, createdAt: Timestamp, modifiedAt: Option<Timestamp>)

  type Table = map<Id, Admin>

  predicate Has(t: Table, id: Id, email: string) {
    id in t && t[id].email == email
  }

  /** email text NOT NULL UNIQUE */
  ghost predicate UniqueEmail(t: Table) {
    forall email, i, j :: Has(t, i, email) && Has(t, j, email) ==> i == j
  }

  function Holders(t: Table, email: string): set<Id> {
    set id | id in t && Has(t, id, email)
  }

  ghost function FindHolder(t: Table, email: string): (id: Option<Id>)
    ensures id.Some? ==> Has(t, id.value, email)
    ensures id.None? ==> forall i :: !Has(t, i, email)
  {
    if i :| Has(t, i, email) then Some(i) else None
  }

  // ---------- the statements, as functions of the table ----------

  function Inserted(t: Table, id: Id, name: string, email: string, birthDate: Timestamp, now: Timestamp): Table {
    t[id := Admin(name, email, birthDate, None, Active, None, true, now, None)]
  }

  function UpdatedRow(row: Admin, name: string, email: string, birthDate: Timestamp, reset: bool, now: Timestamp): Admin
  {
    var row := row.(name := name, email := email, birthDate := birthDate, modifiedAt := Some(now));
    if reset then row.(passwordHash := None, isPasswordCreationPending := true) else row
  }

  function Updated(
    t: Table, id: Id, name: string, email: string, birthDate: Timestamp, reset: bool, now: Timestamp): Table
  {
    if id in t then t[id := UpdatedRow(t[id], name, email, birthDate, reset, now)] else t
  }

  function StatusSet(t: Table, id: Id, status: Status, now: Timestamp): Table {
    if id in t then t[id := t[id].(status := status, statusChangedAt := Some(now))] else t
  }

  function Removed(t: Table, id: Id): Table {
    t - {id}
  }

  /** The admin chooses a password: a step of another service on this table. */
  function PasswordSet(t: Table, id: Id, hash: string): Table {
    if id in t then t[id := t[id].(passwordHash := Some(hash), isPasswordCreationPending := false)] else t
  }

  lemma InsertFits(t: Table, id: Id, name: string, email: string, birthDate: Timestamp, now: Timestamp)
    requires UniqueEmail(t) && id !in t
    ensures UniqueEmail(Inserted(t, id, name, email, birthDate, now)) <==> Holders(t, email) == {}
  {
    var t' := Inserted(t, id, name, email, birthDate, now);
    assert Has(t', id, email);
    assert forall i :: Has(t, i, email) <==> i in Holders(t, email);
    if i :| i in Holders(t, email) {
      assert Has(t', i, email);
    }
    assert forall i, e :: Has(t', i, e) && i != id ==> Has(t, i, e);
  }

  lemma UpdateFits(t: Table, id: Id, name: string, email: string, birthDate: Timestamp, reset: bool, now: Timestamp)
    requires UniqueEmail(t)
    ensures UniqueEmail(Updated(t, id, name, email, birthDate, reset, now)) <==> id in t ==> Holders(t, email) <= {id}
  {
    var t' := Updated(t, id, name, email, birthDate, reset, now);
    assert forall i :: Has(t, i, email) <==> i in Holders(t, email);
    assert forall i, e :: Has(t', i, e) && i != id ==> Has(t, i, e);
    if id in t {
      assert Has(t', id, email);
      if i :| i in Holders(t, email) && i != id {
        assert Has(t', i, email);
      }
    }
  }

  lemma OthersFit(t: Table, id: Id, status: Status, hash: string, now: Timestamp)
    requires UniqueEmail(t)
    ensures UniqueEmail(StatusSet(t, id, status, now))
    ensures UniqueEmail(PasswordSet(t, id, hash)) && UniqueEmail(Removed(t, id))
  {
    assert forall i, e :: Has(StatusSet(t, id, status, now), i, e) ==> Has(t, i, e);
    assert forall i, e :: Has(PasswordSet(t, id, hash), i, e) ==> Has(t, i, e);
    assert forall i, e :: Has(Removed(t, id), i, e) ==> Has(t, i, e);
  }

  // ---------- one operation, run alone ----------

  datatype Operation =
    | Create(id: Id, name: string, email: string, birthDate: Timestamp, now: Timestamp)
    | Update(id: Id, name: string, email: string, birthDate: Timestamp, now: Timestamp)
    | SetStatus(id: Id, status: Status, now: Timestamp)
    | Delete(id: Id)
    | SetPassword(id: Id, hash: string)

  datatype Reply = Saved(admin: Admin) | Deleted | AlreadyExists | NotFound | Crash

  ghost function Serve(t: Table, op: Operation): (Table, Reply) {
    match op
    case Create(id, name, email, birthDate, now) =>
      if FindHolder(t, email).Some? then (t, AlreadyExists)
      else
        var t' := Inserted(t, id, name, email, birthDate, now);
        if UniqueEmail(t') then (t', Saved(t'[id])) else (t, Crash)
    case Update(id, name, email, birthDate, now) =>
      if id !in t then (t, NotFound)
      else
        var emailChanged := email != t[id].email;
        if emailChanged && FindHolder(t, email).Some? && FindHolder(t, email) != Some(id) then (t, AlreadyExists)
        else
          var t' := Updated(t, id, name, email, birthDate, emailChanged, now);
          if UniqueEmail(t') then (t', Saved(t'[id])) else (t, Crash)
    case SetStatus(id, status, now) =>
      if id !in t then (t, NotFound) else (StatusSet(t, id, status, now), Saved(StatusSet(t, id, status, now)[id]))
    case Delete(id) =>
      if id !in t then (t, NotFound) else (Removed(t, id), Deleted)
    case SetPassword(id, hash) =>
      if id !in t then (t, NotFound) else (PasswordSet(t, id, hash), Saved(PasswordSet(t, id, hash)[id]))
  }

  function Matching(t: Table, like: C.Like, search: string): set<Key> {
    set id | id in t && (search == "" || like(t[id].name, search)) :: Key(t[id].createdAt, id)
  }

  /** Which admins match, and the key that places each in the listing. */
  lemma MatchingIsTheTable(t: Table, like: C.Like, search: string, k: Key)
    ensures k in Matching(t, like, search) <==>
            && k.id < UUID_COUNT && k.id in t && k.at == t[k.id].createdAt
            && (search == "" || like(t[k.id].name, search))
  {
  }

  lemma PageIsFromTable(t: Table, like: C.Like, search: string, cursor: Option<Key>, limit: nat)
    ensures forall k :: k in ListPage(Matching(t, like, search), cursor, limit, Millis).items ==>
              k.id < UUID_COUNT && k.id in t && k.at == t[k.id].createdAt
  {
    PageWithin(Matching(t, like, search), cursor, limit, Millis);
  }

  class AdminsRepository {
    var rows: Table

    ghost predicate Valid()
      reads this
    {
      UniqueEmail(rows)
    }

    constructor ()
      ensures Valid() && rows == map[]
    {
      rows := map[];
    }

    method GetByID(id: Id) returns (admin: Option<Admin>)
      ensures admin == if id in rows then Some(rows[id]) else None
    {
      admin := if id in rows then Some(rows[id]) else None;
    }

    method GetByEmail(email: string) returns (holder: Option<Id>)
      requires Valid()
      ensures holder == FindHolder(rows, email)
    {
      var found := Holders(rows, email);
      assert forall i :: Has(rows, i, email) <==> i in found;
      if found == {} {
        holder := None;
      } else {
        var id :| id in found;
        holder := Some(id);
      }
    }

    /** One page: the rows of the keyset page, each as the table holds it. */
    method List(like: C.Like, search: string, cursor: Option<Key>, limit: nat)
      returns (items: seq<(Id, Admin)>, next: Option<Key>)
      ensures
        var page := ListPage(Matching(rows, like, search), cursor, limit, Millis);
        && |items| == |page.items|
        && (forall i :: 0 <= i < |items| ==>
              items[i].0 == page.items[i].id && items[i].0 in rows && items[i].1 == rows[items[i].0])
        && next == page.next
        && (next.Some? ==>
              && items != []
              && var (id, last) := items[|items| - 1];
                 next.value.id == id && next.value.at % 1000 == 0
                 && next.value.at <= last.createdAt < next.value.at + 1000)
    {
      var page := ListPage(Matching(rows, like, search), cursor, limit, Millis);
      PageIsFromTable(rows, like, search, cursor, limit);
      NextIsCursor(Matching(rows, like, search), cursor, limit, Millis);
      hide Matching, Sorted, ListPage, Truncate;
      assert page.items != [] ==> Last(page.items) in page.items;
      var t := rows;
      items := seq(|page.items|, i requires 0 <= i < |page.items| =>
        assert page.items[i] in page.items;
        var id: Id := page.items[i].id; (id, t[id]));
      next := page.next;
    }

    method Create(id: Id, name: string, email: string, birthDate: Timestamp, now: Timestamp) returns (ok: bool)
      requires Valid() && id !in rows
      modifies this
      ensures Valid()
      ensures ok <==> UniqueEmail(Inserted(old(rows), id, name, email, birthDate, now))
      ensures rows == if ok then Inserted(old(rows), id, name, email, birthDate, now) else old(rows)
    {
      InsertFits(rows, id, name, email, birthDate, now);
      ok := Holders(rows, email) == {};
      if ok {
        rows := Inserted(rows, id, name, email, birthDate, now);
      }
    }

    method Update(id: Id, name: string, email: string, birthDate: Timestamp, resetPassword: bool, now: Timestamp)
      returns (ok: bool)
      requires Valid()
      modifies this
      ensures Valid()
      ensures ok <==> UniqueEmail(Updated(old(rows), id, name, email, birthDate, resetPassword, now))
      ensures rows == if ok then Updated(old(rows), id, name, email, birthDate, resetPassword, now) else old(rows)
    {
      UpdateFits(rows, id, name, email, birthDate, resetPassword, now);
      ok := id !in rows || Holders(rows, email) <= {id};
      if ok && id in rows {
        var values := rows[id].(name := name, email := email, birthDate := birthDate, modifiedAt := Some(now));
        if resetPassword {
          values := values.(passwordHash := None);
          values := values.(isPasswordCreationPending := true);
        }
        rows := rows[id := values];
      }
    }

    method SetStatus(id: Id, status: Status, now: Timestamp)
      requires Valid()
      modifies this
      ensures Valid() && rows == StatusSet(old(rows), id, status, now)
    {
      OthersFit(rows, id, status, "", now);
      rows := StatusSet(rows, id, status, now);
    }

    method Delete(id: Id)
      requires Valid()
      modifies this
      ensures Valid() && rows == Removed(old(rows), id)
    {
      OthersFit(rows, id, Active, "", 0);
      rows := Removed(rows, id);
    }
  }

  class AdminsService {
    const repository: AdminsRepository

    constructor (repository: AdminsRepository)
      ensures this.repository == repository
    {
      this.repository := repository;
    }

    method Create(id: Id, name: string, email: string, birthDate: Timestamp, now: Timestamp) returns (r: Reply)
      requires repository.Valid() && id !in repository.rows
      modifies repository
      ensures repository.Valid()
      ensures (repository.rows, r) == Serve(old(repository.rows), Operation.Create(id, name, email, birthDate, now))
    {
      var holder := repository.GetByEmail(email);
      if holder.Some? {
        return AlreadyExists;
      }
      var created := repository.Create(id, name, email, birthDate, now);
      r := if created then Saved(repository.rows[id]) else Crash;
    }

    method Update(id: Id, name: string, email: string, birthDate: Timestamp, now: Timestamp) returns (r: Reply)
      requires repository.Valid()
      modifies repository
      ensures repository.Valid()
      ensures (repository.rows, r) == Serve(old(repository.rows), Operation.Update(id, name, email, birthDate, now))
    {
      var existing := repository.GetByID(id);
      if existing.None? {
        return NotFound;
      }
      var emailChanged := email != existing.value.email;
      if emailChanged {
        var emailOwner := repository.GetByEmail(email);
        if emailOwner.Some? && emailOwner.value != id {
          return AlreadyExists;
        }
      }
      var updated := repository.Update(id, name, email, birthDate, emailChanged, now);
      r := if updated then Saved(repository.rows[id]) else Crash;
    }

    method SetStatus(id: Id, status: Status, now: Timestamp) returns (r: Reply)
      requires repository.Valid()
      modifies repository
      ensures repository.Valid()
      ensures (repository.rows, r) == Serve(old(repository.rows), Operation.SetStatus(id, status, now))
    {
      var existing := repository.GetByID(id);
      if existing.None? {
        return NotFound;
      }
      repository.SetStatus(id, status, now);
      r := Saved(repository.rows[id]);
    }

    method Delete(id: Id) returns (r: Reply)
      requires repository.Valid()
      modifies repository
      ensures repository.Valid()
      ensures (repository.rows, r) == Serve(old(repository.rows), Operation.Delete(id))
    {
      var existing := repository.GetByID(id);
      if existing.None? {
        return NotFound;
      }
      repository.Delete(id);
      r := Deleted;
    }
  }

  // ---------- sequential runs ----------

  /** The pre-checks are exact, so the constraint never fires. */
  lemma PreChecksAreExact(t: Table, op: Operation)
    requires UniqueEmail(t)
    requires op.Create? ==> op.id !in t
    ensures op.Create? ==>
              (Serve(t, op).1 == AlreadyExists <==>
               !UniqueEmail(Inserted(t, op.id, op.name, op.email, op.birthDate, op.now)))
    ensures op.Update? && op.id in t ==>
              (Serve(t, op).1 == AlreadyExists <==>
               !UniqueEmail(Updated(t, op.id, op.name, op.email, op.birthDate, op.email != t[op.id].email, op.now)))
    ensures Serve(t, op).1 != Crash && UniqueEmail(Serve(t, op).0)
  {
    match op
    case Create(id, name, email, birthDate, now) =>
      InsertFits(t, id, name, email, birthDate, now);
      assert forall i :: Has(t, i, email) <==> i in Holders(t, email);
    case Update(id, name, email, birthDate, now) =>
      assert forall i :: Has(t, i, email) <==> i in Holders(t, email);
      if id in t {
        UpdateFits(t, id, name, email, birthDate, email != t[id].email, now);
        assert t[id].email == email ==> Has(t, id, email);
      }
    case SetStatus(id, status, now) => OthersFit(t, id, status, "", now);
    case Delete(id) => OthersFit(t, id, Active, "", 0);
    case SetPassword(id, hash) => OthersFit(t, id, Active, hash, 0);
  }

  /** `states[i]` is the table before `ops[i]`, and `states[i + 1]` the one after. */
  ghost predicate IsRun(states: seq<Table>, ops: seq<Operation>) {
    && |states| == |ops| + 1
    && forall i :: 0 <= i < |ops| ==> Follows(states, ops, i)
  }

  ghost predicate Follows(states: seq<Table>, ops: seq<Operation>, i: nat)
    requires i < |ops| && |states| == |ops| + 1
  {
    && states[i + 1] == Serve(states[i], ops[i]).0
    && (ops[i].Create? ==> ops[i].id !in states[i])
  }

  lemma {:induction false} ConstraintNeverFires(states: seq<Table>, ops: seq<Operation>, n: nat)
    requires IsRun(states, ops) && UniqueEmail(states[0]) && n < |states|
    ensures UniqueEmail(states[n])
    ensures n < |ops| ==> Serve(states[n], ops[n]).1 != Crash
  {
    if n > 0 {
      ConstraintNeverFires(states, ops, n - 1);
      assert Follows(states, ops, n - 1);
      PreChecksAreExact(states[n - 1], ops[n - 1]);
    }
    if n < |ops| {
      assert Follows(states, ops, n);
      PreChecksAreExact(states[n], ops[n]);
    }
  }

  // ---------- what each operation promises ----------

  ghost predicate TakenByOther(t: Table, id: Id, email: string) {
    exists other :: other in t && other != id && t[other].email == email
  }

  predicate OthersKept(t: Table, t': Table, id: Id) {
    forall other :: other in t && other != id ==> other in t' && t'[other] == t[other]
  }

  /** The row after an update: the three inputs and the time of the change are new, and
      a password is kept exactly under the email it was chosen for. */
  predicate IsUpdate(row: Admin, row': Admin, name: string, email: string, birthDate: Timestamp, now: Timestamp) {
    && row'.name == name && row'.email == email && row'.birthDate == birthDate && row'.modifiedAt == Some(now)
    && row'.status == row.status && row'.statusChangedAt == row.statusChangedAt && row'.createdAt == row.createdAt
    && (if email == row.email then
          row'.passwordHash == row.passwordHash && row'.isPasswordCreationPending == row.isPasswordCreationPending
        else row'.passwordHash.None? && row'.isPasswordCreationPending)
  }

  /** A new admin is active, changed by nobody, and has a password still to choose. */
  predicate IsNew(row: Admin, name: string, email: string, birthDate: Timestamp, now: Timestamp) {
    && row.name == name && row.email == email && row.birthDate == birthDate && row.createdAt == now
    && row.status.Active? && row.passwordHash.None? && row.isPasswordCreationPending
    && row.statusChangedAt.None? && row.modifiedAt.None?
  }

  /** The whole behaviour promised to a client, member by member, with no lookups that
      can be skipped and no constraint. */
  ghost predicate Answers(t: Table, op: Operation, t': Table, reply: Reply) {
    match op
    case Create(id, name, email, birthDate, now) =>
      if TakenByOther(t, id, email) then t' == t && reply == AlreadyExists
      else
        && t'.Keys == t.Keys + {id} && OthersKept(t, t', id)
        && IsNew(t'[id], name, email, birthDate, now) && reply == Saved(t'[id])
    case Update(id, name, email, birthDate, now) =>
      if id !in t then t' == t && reply == NotFound
      else if TakenByOther(t, id, email) then t' == t && reply == AlreadyExists
      else
        && t'.Keys == t.Keys && OthersKept(t, t', id)
        && IsUpdate(t[id], t'[id], name, email, birthDate, now) && reply == Saved(t'[id])
    case SetStatus(id, status, now) =>
      if id !in t then t' == t && reply == NotFound
      else
        && t'.Keys == t.Keys && OthersKept(t, t', id)
        && t'[id].status == status && t'[id].statusChangedAt == Some(now)
        && t[id] == t'[id].(status := t[id].status, statusChangedAt := t[id].statusChangedAt)
        && reply == Saved(t'[id])
    case Delete(id) =>
      if id !in t then t' == t && reply == NotFound
      else t'.Keys == t.Keys - {id} && OthersKept(t, t', id) && reply == Deleted
    case SetPassword(id, hash) =>
      if id !in t then t' == t && reply == NotFound
      else
        && t'.Keys == t.Keys && OthersKept(t, t', id)
        && t'[id].passwordHash == Some(hash) && !t'[id].isPasswordCreationPending
        && t[id] == t'[id].(passwordHash := t[id].passwordHash,
                            isPasswordCreationPending := t[id].isPasswordCreationPending)
        && reply == Saved(t'[id])
  }

  lemma SameHolders(t: Table, id: Id, email: string)
    requires UniqueEmail(t)
    ensures TakenByOther(t, id, email) <==> FindHolder(t, email).Some? && FindHolder(t, email) != Some(id)
    ensures id in t && t[id].email == email ==> !TakenByOther(t, id, email)
  {
    if TakenByOther(t, id, email) {
      var other :| other in t && other != id && t[other].email == email;
      assert Has(t, other, email);
      assert !Has(t, id, email);
    }
  }

  lemma ServeAnswers(t: Table, op: Operation)
    requires UniqueEmail(t)
    requires op.Create? ==> op.id !in t
    ensures Answers(t, op, Serve(t, op).0, Serve(t, op).1)
  {
    PreChecksAreExact(t, op);
    match op
    case Create(id, _, email, _, _) => SameHolders(t, id, email);
    case Update(id, _, email, _, _) => SameHolders(t, id, email);
    case _ =>
  }

  /** Over every sequential run each operation does and answers just that. */
  lemma RunsAnswer(states: seq<Table>, ops: seq<Operation>, n: nat)
    requires IsRun(states, ops) && UniqueEmail(states[0]) && n < |ops|
    ensures Answers(states[n], ops[n], states[n + 1], Serve(states[n], ops[n]).1)
  {
    ConstraintNeverFires(states, ops, n);
    assert Follows(states, ops, n);
    ServeAnswers(states[n], ops[n]);
  }

  ghost predicate NoPasswords(t: Table) {
    forall id :: id in t ==> t[id].passwordHash.None? && t[id].isPasswordCreationPending
  }

  ghost predicate HeldSince(states: seq<Table>, i: nat, n: nat, id: Id)
    requires i <= n < |states|
  {
    forall j :: i <= j <= n ==> id in states[j] && id in states[n] && states[j][id].email == states[n][id].email
  }

  /** The hash was chosen at step `i`, under the email that the admin has had ever since. */
  ghost predicate ChosenAt(states: seq<Table>, ops: seq<Operation>, i: nat, n: nat, id: Id)
    requires i < n < |states| && |states| == |ops| + 1 && id in states[n]
  {
    && ops[i].SetPassword? && ops[i].id == id
    && states[n][id].passwordHash == Some(ops[i].hash)
    && HeldSince(states, i, n, id)
  }

  ghost predicate Trusted(states: seq<Table>, ops: seq<Operation>, n: nat, id: Id)
    requires n < |states| && |states| == |ops| + 1
  {
    id in states[n] ==>
      && (states[n][id].passwordHash.None? <==> states[n][id].isPasswordCreationPending)
      && (states[n][id].passwordHash.Some? ==> exists i :: 0 <= i < n && ChosenAt(states, ops, i, n, id))
  }

  /** What one operation does to one admin's credentials. */
  lemma CredentialsStep(t: Table, op: Operation, id: Id)
    requires op.Create? ==> op.id !in t
    ensures
      var t' := Serve(t, op).0;
      id in t' ==>
        || (op.SetPassword? && op.id == id && id in t && t'[id].email == t[id].email
            && t'[id].passwordHash == Some(op.hash) && !t'[id].isPasswordCreationPending)
        || (t'[id].passwordHash.None? && t'[id].isPasswordCreationPending)
        || (id in t && t'[id].email == t[id].email && t'[id].passwordHash == t[id].passwordHash
            && t'[id].isPasswordCreationPending == t[id].isPasswordCreationPending)
  {
  }

  /** Any stored hash was chosen while the admin held the email it has now, without
      a break; and no hash is stored exactly while a password is still to be chosen. */
  lemma {:induction false} PasswordsBelongToEmails(states: seq<Table>, ops: seq<Operation>, n: nat, id: Id)
    requires IsRun(states, ops) && NoPasswords(states[0]) && n < |states|
    ensures Trusted(states, ops, n, id)
  {
    if n > 0 && id in states[n] {
      var t, op := states[n - 1], ops[n - 1];
      assert Follows(states, ops, n - 1);
      PasswordsBelongToEmails(states, ops, n - 1, id);
      CredentialsStep(t, op, id);
      var t' := states[n];
      if op.SetPassword? && op.id == id && id in t {
        assert ChosenAt(states, ops, n - 1, n, id);
      } else if t'[id].passwordHash.Some? {
        var i :| 0 <= i < n - 1 && ChosenAt(states, ops, i, n - 1, id);
        assert ChosenAt(states, ops, i, n, id);
      }
    }
  }

  /** Nothing else takes a password away: an update that keeps the email, blocking
      and unblocking leave it as it was, and a changed email always clears it. */
  lemma PasswordKeptUnlessEmailChanges(t: Table, op: Operation, id: Id)
    requires id in t && UniqueEmail(t)
    requires op.Create? ==> op.id !in t
    requires !(op.Delete? && op.id == id) && !(op.SetPassword? && op.id == id)
    ensures
      var t' := Serve(t, op).0;
      && id in t'
      && t'[id].passwordHash == if t'[id].email == t[id].email then t[id].passwordHash else None
  {
  }
}
