/** The customers table, its partial unique index, and the repository's statements. */
module CustomersTable {
  import opened Prelude
  import opened Keyset
  import opened IsoDate
  import opened CursorCodec

  /** A timestamp column, in microseconds, within the range that a Date can hold. */
  type Timestamp = t: int | -MAX_TIME * 1000 <= t <= MAX_TIME * 1000

  datatype Customer = Customer(
    name: string, businessIdentifier: string,
    createdAt: Timestamp, modifiedAt: Option<Timestamp>, deletedAt: Option<Timestamp>)

  type Table = map<Id, Customer>

  predicate IsLive(t: Table, id: Id) {
    id in t && t[id].deletedAt.None?
  }

  predicate Owns(t: Table, id: Id, bi: string) {
    IsLive(t, id) && t[id].businessIdentifier == bi
  }

  /** UNIQUE (business_identifier) WHERE deleted_at IS NULL */
  ghost predicate UniqueIndex(t: Table) {
    forall bi, i, j :: Owns(t, i, bi) && Owns(t, j, bi) ==> i == j
  }

  function Owners(t: Table, bi: string): set<Id> {
    set id | id in t && Owns(t, id, bi)
  }

  // ---------- the statements, as functions of the table ----------

  /** The row that a lookup by business identifier returns. */
  ghost function FindOwner(t: Table, bi: string): (id: Option<Id>)
    ensures id.Some? ==> Owns(t, id.value, bi)
    ensures id.None? ==> forall i :: !Owns(t, i, bi)
  {
    if i :| Owns(t, i, bi) then Some(i) else None
  }

  function Inserted(t: Table, id: Id, name: string, bi: string, now: Timestamp): Table {
    t[id := Customer(name, bi, now, None, None)]
  }

  function UpdatedRow(row: Customer, name: string, bi: string, now: Timestamp): Customer {
    row.(name := name, businessIdentifier := bi, modifiedAt := Some(now))
  }

  /** WHERE id = $1, with no condition on deleted_at. */
  function Updated(t: Table, id: Id, name: string, bi: string, now: Timestamp): Table {
    if id in t then t[id := UpdatedRow(t[id], name, bi, now)] else t
  }

  function SoftDeleted(t: Table, id: Id, now: Timestamp): Table {
    if id in t then t[id := t[id].(deletedAt := Some(now))] else t
  }

  /** The index refuses a statement exactly when its result would break it. */
  lemma InsertFits(t: Table, id: Id, name: string, bi: string, now: Timestamp)
    requires UniqueIndex(t) && id !in t
    ensures UniqueIndex(Inserted(t, id, name, bi, now)) <==> Owners(t, bi) == {}
  {
    var t' := Inserted(t, id, name, bi, now);
    assert Owns(t', id, bi);
    if i :| i in Owners(t, bi) {
      assert Owns(t', i, bi);
    }
    if Owners(t, bi) == {} {
      assert forall i :: Owns(t, i, bi) ==> i in Owners(t, bi);
      forall b, i, j | Owns(t', i, b) && Owns(t', j, b) ensures i == j {
        assert i != id ==> Owns(t, i, b);
        assert j != id ==> Owns(t, j, b);
      }
    }
  }

  lemma UpdateFits(t: Table, id: Id, name: string, bi: string, now: Timestamp)
    requires UniqueIndex(t)
    ensures UniqueIndex(Updated(t, id, name, bi, now)) <==> IsLive(t, id) ==> Owners(t, bi) <= {id}
  {
    var t' := Updated(t, id, name, bi, now);
    if IsLive(t, id) && !(Owners(t, bi) <= {id}) {
      var i :| i in Owners(t, bi) && i != id;
      assert Owns(t', i, bi) && Owns(t', id, bi);
    } else {
      assert forall i :: Owns(t, i, bi) ==> i in Owners(t, bi);
      forall b, i, j | Owns(t', i, b) && Owns(t', j, b) ensures i == j {
        assert i != id ==> Owns(t, i, b);
        assert j != id ==> Owns(t, j, b);
      }
    }
  }

  lemma SoftDeleteFits(t: Table, id: Id, now: Timestamp)
    requires UniqueIndex(t)
    ensures UniqueIndex(SoftDeleted(t, id, now))
  {
    var t' := SoftDeleted(t, id, now);
    assert forall bi, i :: Owns(t', i, bi) ==> Owns(t, i, bi);
  }

  /** A soft delete marks the one row with its time, and changes nothing else. */
  lemma SoftDeletedRow(t: Table, id: Id, now: Timestamp, other: Id)
    requires id in t && other in t
    ensures
      var t' := SoftDeleted(t, id, now);
      && t'.Keys == t.Keys && (other != id ==> t'[other] == t[other])
      && t'[id].deletedAt == Some(now) && t'[id].modifiedAt == t[id].modifiedAt
      && t'[id].name == t[id].name && t'[id].businessIdentifier == t[id].businessIdentifier
      && t'[id].createdAt == t[id].createdAt
  {
  }

  // ---------- the listing query ----------

  /** ILIKE '%term%', an arbitrary relation between a text and a term. */
  type Like = (string, string) -> bool

  predicate Matches(like: Like, search: string, name: string, bi: string) {
    search == "" || like(name, search) || like(bi, search)
  }

  function KeyOf(t: Table, id: Id): Key
    requires id in t
  {
    Key(t[id].createdAt, id)
  }

  function Matching(t: Table, like: Like, search: string): set<Key> {
    set id | id in t && IsLive(t, id) && Matches(like, search, t[id].name, t[id].businessIdentifier) :: KeyOf(t, id)
  }

  /** Which customers match, and the key that places each in the listing. */
  lemma MatchingIsTheTable(t: Table, like: Like, search: string, k: Key)
    ensures k in Matching(t, like, search) <==>
            && k.id < UUID_COUNT && k.id in t && t[k.id].deletedAt.None? && k.at == t[k.id].createdAt
            && (search == "" || like(t[k.id].name, search) || like(t[k.id].businessIdentifier, search))
  {
  }

  class CustomersRepository {
    var rows: Table

    /** What the database guarantees between statements. */
    ghost predicate Valid()
      reads this
    {
      UniqueIndex(rows)
    }

    constructor ()
      ensures Valid() && rows == map[]
    {
      rows := map[];
    }

    method GetByID(id: Id) returns (customer: Option<Customer>)
      ensures customer == if IsLive(rows, id) then Some(rows[id]) else None
    {
      customer := if id in rows && rows[id].deletedAt.None? then Some(rows[id]) else None;
    }

    method GetByBusinessIdentifier(bi: string) returns (owner: Option<Id>)
      requires Valid()
      ensures owner == FindOwner(rows, bi)
    {
      var found := Owners(rows, bi);
      if found == {} {
        assert forall i :: Owns(rows, i, bi) ==> i in found;
        owner := None;
      } else {
        var id :| id in found;
        owner := Some(id);
      }
    }

    /** One page: the rows of the keyset page, each as the table holds it. */
    method List(like: Like, search: string, cursor: Option<Key>, limit: nat)
      returns (items: seq<(Id, Customer)>, next: Option<Key>)
      ensures
        var page := ListPage(Matching(rows, like, search), cursor, limit, Millis);
        && |items| == |page.items|
        && (forall i :: 0 <= i < |items| ==>
              items[i].0 == page.items[i].id && items[i].0 in rows && items[i].1 == rows[items[i].0])
        && next == page.next
        && (next.Some? ==>
              && items != []
              && var (id, last) := items[|items| - 1];
                 next.value.id == id && next.value.at % 1000 == 0
                 && next.value.at <= last.createdAt < next.value.at + 1000)
    {
      var page := ListPage(Matching(rows, like, search), cursor, limit, Millis);
      PageIsFromTable(rows, like, search, cursor, limit);
      NextIsCursor(Matching(rows, like, search), cursor, limit, Millis);
      hide Matching, Sorted, ListPage, Truncate;
      assert page.items != [] ==> Last(page.items) in page.items;
      var t := rows;
      items := seq(|page.items|, i requires 0 <= i < |page.items| =>
        assert page.items[i] in page.items;
        var id: Id := page.items[i].id; (id, t[id]));
      next := page.next;
    }

    /** False when the unique index refuses the row. */
    method Create(id: Id, name: string, bi: string, now: Timestamp) returns (ok: bool)
      requires Valid() && id !in rows
      modifies this
      ensures Valid()
      ensures ok <==> UniqueIndex(Inserted(old(rows), id, name, bi, now))
      ensures rows == if ok then Inserted(old(rows), id, name, bi, now) else old(rows)
    {
      InsertFits(rows, id, name, bi, now);
      ok := Owners(rows, bi) == {};
      if ok {
        rows := Inserted(rows, id, name, bi, now);
      }
    }

    /** False when the unique index refuses the change. */
    method Update(id: Id, name: string, bi: string, now: Timestamp) returns (ok: bool)
      requires Valid()
      modifies this
      ensures Valid()
      ensures ok <==> UniqueIndex(Updated(old(rows), id, name, bi, now))
      ensures rows == if ok then Updated(old(rows), id, name, bi, now) else old(rows)
    {
      UpdateFits(rows, id, name, bi, now);
      ok := !IsLive(rows, id) || Owners(rows, bi) <= {id};
      if ok {
        rows := Updated(rows, id, name, bi, now);
      }
    }

    method SoftDelete(id: Id, now: Timestamp)
      requires Valid()
      modifies this
      ensures Valid()
      ensures rows == SoftDeleted(old(rows), id, now)
    {
      SoftDeleteFits(rows, id, now);
      rows := SoftDeleted(rows, id, now);
    }
  }

  lemma PageIsFromTable(t: Table, like: Like, search: string, cursor: Option<Key>, limit: nat)
    ensures forall k :: k in ListPage(Matching(t, like, search), cursor, limit, Millis).items ==>
              k.id < UUID_COUNT && IsLive(t, k.id) && k == KeyOf(t, k.id)
  {
    PageWithin(Matching(t, like, search), cursor, limit, Millis);
  }
}
