/** CustomersService over the soft-deleting table, and the plain map it stands for. */
module CustomersService {
  import opened Prelude
  import opened Keyset
  import opened IsoDate
  import opened CursorCodec
  import opened CustomersTable

  const PAGE_SIZE := 10

  /** CustomerOutputDto: ids and instants as text. */
  datatype Output = Output(
    id: string, name: string, businessIdentifier: string, createdAt: string, modifiedAt: Option<string>)

  datatype Request =
    | Create(id: Id, name: string, businessIdentifier: string, now: Timestamp)  // id and now: column defaults
    | Update(id: Id, name: string, businessIdentifier: string, now: Timestamp)
    | Delete(id: Id, now: Timestamp)
    | List(search: string, cursor: Option<string>)

  /** `Crash` is a rejected promise: a database error, not an answer of the service. */
  datatype Reply =
    | Saved(output: Output)
    | Deleted
    | AlreadyExists
    | NotFound
    | Listed(items: seq<Output>, nextCursor: Option<string>)
    | Crash

  function InstantText(t: Timestamp): string {
    DateText(t / 1000)
  }

  function ToOutput(id: Id, name: string, bi: string, createdAt: Timestamp, modifiedAt: Option<Timestamp>): Output {
    Output(IdText(id), name, bi, InstantText(createdAt),
           if modifiedAt.None? then None else Some(InstantText(modifiedAt.value)))
  }

  function RowOutput(t: Table, id: Id): Output
    requires id in t
  {
    ToOutput(id, t[id].name, t[id].businessIdentifier, t[id].createdAt, t[id].modifiedAt)
  }

  // ---------- cursors between the service and its clients ----------

  datatype Bound = At(key: Option<Key>) | NotAnId

  function BoundOfCursor(c: Cursor): Bound {
    match ReadId(c.id)
    case None => NotAnId
    case Some(id) => At(Some(Key(c.createdAt * 1000, id)))
  }

  /** A text that decodes to no cursor asks for the first page; one whose id is no
      uuid makes the query fail. */
  function BoundOf(raw: Option<string>): Bound {
    match DecodeCursor(raw)
    case None => At(None)
    case Some(c) => BoundOfCursor(c)
  }

  predicate CursorKey(k: Key) {
    k.at % 1000 == 0 && -MAX_TIME * 1000 <= k.at <= MAX_TIME * 1000 && k.id < UUID_COUNT
  }

  function CursorOf(k: Key): (c: Cursor)
    requires CursorKey(k)
    ensures Encodable(c) && c.createdAt * 1000 == k.at && c.id == IdText(k.id)
  {
    Cursor(k.at / 1000, IdText(k.id))
  }

  function CursorText(k: Key): string
    requires CursorKey(k)
  {
    EncodeCursor(CursorOf(k))
  }

  function NextText(next: Option<Key>): Option<string>
    requires next.Some? ==> CursorKey(next.value)
  {
    if next.None? then None else Some(CursorText(next.value))
  }

  lemma BoundOfCursorOf(k: Key)
    requires CursorKey(k)
    ensures BoundOfCursor(CursorOf(k)) == At(Some(k))
  {
    IdRoundTrip(k.id);
  }

  /** The client hands back exactly the bound that the previous page made. */
  lemma BoundRoundTrip(k: Key)
    requires CursorKey(k)
    ensures CursorText(k) != ""
    ensures BoundOf(Some(CursorText(k))) == At(Some(k))
  {
    CursorRoundTrip(CursorOf(k));
    BoundOfCursorOf(k);
  }

  lemma TruncatedIsCursorKey(at: Timestamp, id: Id)
    ensures CursorKey(Truncate(Key(at, id), Millis))
  {
  }

  lemma NextIsCursorKey(t: Table, like: Like, search: string, bound: Option<Key>, limit: nat)
    requires limit > 0
    ensures
      var next := ListPage(Matching(t, like, search), bound, limit, Millis).next;
      next.Some? ==> CursorKey(next.value)
  {
    var page := ListPage(Matching(t, like, search), bound, limit, Millis);
    PageIsFromTable(t, like, search, bound, limit);
    PageMeaning(Matching(t, like, search), bound, limit, Millis);
    if page.next.Some? {
      var last := Last(page.items);
      assert last in page.items;
      TruncatedIsCursorKey(last.at, last.id);
    }
  }

  /** The page that `GET /customers` answers from. */
  function PageOf(t: Table, like: Like, search: string, bound: Option<Key>): (page: Page)
    ensures forall k :: k in page.items ==> k.id < UUID_COUNT && IsLive(t, k.id) && k == KeyOf(t, k.id)
    ensures page.next.Some? ==> CursorKey(page.next.value)
  {
    PageIsFromTable(t, like, search, bound, PAGE_SIZE);
    NextIsCursorKey(t, like, search, bound, PAGE_SIZE);
    ListPage(Matching(t, like, search), bound, PAGE_SIZE, Millis)
  }

  function Outputs(t: Table, keys: seq<Key>): (items: seq<Output>)
    requires forall k :: k in keys ==> k.id < UUID_COUNT && k.id in t
    ensures |items| == |keys|
    ensures forall i :: 0 <= i < |items| ==> keys[i] in keys && items[i] == RowOutput(t, keys[i].id)
  {
    seq(|keys|, i requires 0 <= i < |keys| => assert keys[i] in keys; RowOutput(t, keys[i].id))
  }

  function ListReply(t: Table, like: Like, search: string, raw: Option<string>): Reply {
    ListFrom(t, like, search, BoundOf(raw))
  }

  function ListFrom(t: Table, like: Like, search: string, bound: Bound): Reply {
    match bound
    case NotAnId => Crash
    case At(bound) =>
      var page := PageOf(t, like, search, bound);
      Listed(Outputs(t, page.items), NextText(page.next))
  }

  // ---------- one request, run alone ----------

  ghost function Serve(t: Table, like: Like, req: Request): (Table, Reply) {
    match req
    case Create(id, name, bi, now) =>
      if FindOwner(t, bi).Some? then (t, AlreadyExists)
      else
        var t' := Inserted(t, id, name, bi, now);
        if UniqueIndex(t') then (t', Saved(RowOutput(t', id))) else (t, Crash)
    case Update(id, name, bi, now) =>
      if !IsLive(t, id) then (t, NotFound)
      else if t[id].businessIdentifier != bi && FindOwner(t, bi).Some? && FindOwner(t, bi) != Some(id) then
        (t, AlreadyExists)
      else
        var t' := Updated(t, id, name, bi, now);
        if UniqueIndex(t') then (t', Saved(RowOutput(t', id))) else (t, Crash)
    case Delete(id, now) =>
      if !IsLive(t, id) then (t, NotFound) else (SoftDeleted(t, id, now), Deleted)
    case List(search, cursor) => (t, ListReply(t, like, search, cursor))
  }

  class CustomersService {
    const repository: CustomersRepository

    constructor (repository: CustomersRepository)
      ensures this.repository == repository
    {
      this.repository := repository;
    }

    method Create(id: Id, name: string, bi: string, now: Timestamp) returns (r: Reply)
      requires repository.Valid() && id !in repository.rows
      modifies repository
      ensures repository.Valid()
      ensures forall like ::
                (repository.rows, r) == Serve(old(repository.rows), like, Request.Create(id, name, bi, now))
    {
      var owner := repository.GetByBusinessIdentifier(bi);
      if owner.Some? {
        return AlreadyExists;
      }
      var created := repository.Create(id, name, bi, now);
      if !created {
        return Crash;
      }
      r := Saved(RowOutput(repository.rows, id));
    }

    method Update(id: Id, name: string, bi: string, now: Timestamp) returns (r: Reply)
      requires repository.Valid()
      modifies repository
      ensures repository.Valid()
      ensures forall like ::
                (repository.rows, r) == Serve(old(repository.rows), like, Request.Update(id, name, bi, now))
    {
      var existing := repository.GetByID(id);
      if existing.None? {
        return NotFound;
      }
      var identifierChanged := bi != existing.value.businessIdentifier;
      if identifierChanged {
        var owner := repository.GetByBusinessIdentifier(bi);
        if owner.Some? && owner.value != id {
          return AlreadyExists;
        }
      }
      var updated := repository.Update(id, name, bi, now);
      if !updated {
        return Crash;
      }
      r := Saved(RowOutput(repository.rows, id));
    }

    method Delete(id: Id, now: Timestamp) returns (r: Reply)
      requires repository.Valid()
      modifies repository
      ensures repository.Valid()
      ensures forall like :: (repository.rows, r) == Serve(old(repository.rows), like, Request.Delete(id, now))
    {
      var existing := repository.GetByID(id);
      if existing.None? {
        return NotFound;
      }
      repository.SoftDelete(id, now);
      r := Deleted;
    }

    method List(like: Like, search: string, cursor: Option<string>) returns (r: Reply)
      ensures r == ListReply(repository.rows, like, search, cursor)
    {
      var bound := BoundOf(cursor);
      if bound.NotAnId? {
        return Crash;
      }
      var rows, next := repository.List(like, search, bound.key, PAGE_SIZE);
      ghost var page := PageOf(repository.rows, like, search, bound.key);
      var items := seq(|rows|, i requires 0 <= i < |rows| =>
        var (id, row) := rows[i];
        ToOutput(id, row.name, row.businessIdentifier, row.createdAt, row.modifiedAt));
      assert items == Outputs(repository.rows, page.items);
      r := Listed(items, NextText(next));
    }
  }

  // ---------- the simple thing: a map of customers with real deletion ----------

  datatype Plain = Plain(name: string, businessIdentifier: string, createdAt: Timestamp, modifiedAt: Option<Timestamp>)

  type Directory = map<Id, Plain>

  /** The time as text, cut to the millisecond that it falls in. */
  ghost predicate Tells(text: string, t: Timestamp) {
    exists ms :: -MAX_TIME <= ms <= MAX_TIME && ms * 1000 <= t < ms * 1000 + 1000 && text == DateText(ms)
  }

  /** What a client is told of a customer, member by member. */
  ghost predicate Describes(o: Output, id: Id, p: Plain) {
    && o.id == IdText(id) && o.name == p.name && o.businessIdentifier == p.businessIdentifier
    && Tells(o.createdAt, p.createdAt)
    && (o.modifiedAt.Some? <==> p.modifiedAt.Some?)
    && (p.modifiedAt.Some? ==> Tells(o.modifiedAt.value, p.modifiedAt.value))
  }

  /** The customers found: all of them for an empty search, otherwise those whose name
      or identifier is like it. */
  function PlainKeys(d: Directory, like: Like, search: string): set<Key> {
    set id | id in d && (search == "" || like(d[id].name, search) || like(d[id].businessIdentifier, search)) ::
      Key(d[id].createdAt, id)
  }

  ghost predicate TakenByOther(d: Directory, id: Id, bi: string) {
    exists other :: other in d && other != id && d[other].businessIdentifier == bi
  }

  /** The whole behaviour promised to a client, with no deleted rows, no index and
      no lookups that can be skipped. */
  ghost predicate Answers(d: Directory, like: Like, req: Request, d': Directory, reply: Reply) {
    match req
    case Create(id, name, bi, now) =>
      if TakenByOther(d, id, bi) then d' == d && reply == AlreadyExists
      else d' == d[id := Plain(name, bi, now, None)] && reply.Saved? && Describes(reply.output, id, d'[id])
    case Update(id, name, bi, now) =>
      if id !in d then d' == d && reply == NotFound
      else if TakenByOther(d, id, bi) then d' == d && reply == AlreadyExists
      else
        && d' == d[id := Plain(name, bi, d[id].createdAt, Some(now))]
        && reply.Saved? && Describes(reply.output, id, d'[id])
    case Delete(id, now) =>
      if id !in d then d' == d && reply == NotFound
      else d' == d - {id} && reply == Deleted
    case List(search, cursor) => d' == d && AnswersList(d, like, search, cursor, reply)
  }

  /** A listing goes on under its cursor. No cursor, and a text that is none, ask for the
      first page; a cursor whose id is no uuid makes the query fail. */
  ghost predicate AnswersList(d: Directory, like: Like, search: string, raw: Option<string>, reply: Reply) {
    match DecodeCursor(raw)
    case None => AnswersPage(d, like, search, None, reply)
    case Some(c) =>
      match ReadId(c.id)
      case None => reply == Crash
      case Some(id) => AnswersPage(d, like, search, Some(Key(c.createdAt * 1000, id)), reply)
  }

  ghost predicate AnswersPage(d: Directory, like: Like, search: string, bound: Option<Key>, reply: Reply) {
    var page := ListPage(PlainKeys(d, like, search), bound, 10, Millis);
    && reply.Listed? && |reply.items| == |page.items|
    && (forall i :: 0 <= i < |page.items| ==>
          var id := page.items[i].id; id < UUID_COUNT && id in d && Describes(reply.items[i], id, d[id]))
    && (reply.nextCursor.Some? <==> page.next.Some?)
    && (page.next.Some? ==> IsCursorText(reply.nextCursor.value, page.next.value))
  }

  /** The text of the cursor that goes on under `k`. */
  ghost predicate IsCursorText(text: string, k: Key) {
    && k.id < UUID_COUNT
    && exists ms :: -MAX_TIME <= ms <= MAX_TIME && ms * 1000 == k.at && text == EncodeCursor(Cursor(ms, IdText(k.id)))
  }

  /** Without a cursor the first page is meant. */
  lemma NoCursorIsFirstPage()
    ensures DecodeCursor(None).None? && DecodeCursor(Some("")).None?
  {
  }

  function Live(t: Table): Directory {
    map id | id in t && IsLive(t, id) :: Plain(t[id].name, t[id].businessIdentifier, t[id].createdAt, t[id].modifiedAt)
  }

  lemma SameOwners(t: Table, id: Id, bi: string)
    requires UniqueIndex(t)
    ensures TakenByOther(Live(t), id, bi) <==> FindOwner(t, bi).Some? && FindOwner(t, bi) != Some(id)
  {
    if TakenByOther(Live(t), id, bi) {
      var other :| other in Live(t) && other != id && Live(t)[other].businessIdentifier == bi;
      assert Owns(t, other, bi);
    }
    var owner := FindOwner(t, bi);
    if owner.Some? {
      assert owner.value in Live(t) && Live(t)[owner.value].businessIdentifier == bi;
    }
  }

  lemma SameKeys(t: Table, like: Like, search: string)
    ensures PlainKeys(Live(t), like, search) == Matching(t, like, search)
  {
    var d := Live(t);
    forall k ensures k in PlainKeys(d, like, search) <==> k in Matching(t, like, search) {
      MatchingIsTheTable(t, like, search, k);
      if k in PlainKeys(d, like, search) {
        var id :| id in d && Matches(like, search, d[id].name, d[id].businessIdentifier)
                  && k == Key(d[id].createdAt, id);
      }
      if k in Matching(t, like, search) {
        assert k.id in d;
      }
    }
  }

  lemma InstantIsTold(t: Timestamp)
    ensures Tells(InstantText(t), t)
  {
    var ms := t / 1000;
    assert -MAX_TIME <= ms <= MAX_TIME && ms * 1000 <= t < ms * 1000 + 1000;
  }

  lemma OutputDescribes(t: Table, id: Id)
    requires IsLive(t, id)
    ensures Describes(RowOutput(t, id), id, Live(t)[id])
  {
    InstantIsTold(t[id].createdAt);
    if t[id].modifiedAt.Some? {
      InstantIsTold(t[id].modifiedAt.value);
    }
  }

  lemma CursorTextIs(k: Key)
    requires CursorKey(k)
    ensures IsCursorText(CursorText(k), k)
  {
    hide EncodeCursor;
    var c := CursorOf(k);
    assert c == Cursor(c.createdAt, IdText(k.id)) && c.createdAt * 1000 == k.at;
  }

  lemma SamePage(t: Table, like: Like, search: string, bound: Option<Key>)
    ensures AnswersPage(Live(t), like, search, bound, ListFrom(t, like, search, At(bound)))
  {
    var page := PageOf(t, like, search, bound);
    SameKeys(t, like, search);
    hide Matching, PlainKeys, ListPage, RowOutput, Describes, CursorText, IsCursorText, CursorKey;
    forall i | 0 <= i < |page.items|
      ensures page.items[i].id in Live(t)
      ensures Describes(RowOutput(t, page.items[i].id), page.items[i].id, Live(t)[page.items[i].id])
    {
      assert page.items[i] in page.items;
      OutputDescribes(t, page.items[i].id);
    }
    if page.next.Some? {
      CursorTextIs(page.next.value);
    }
  }

  lemma SameListing(t: Table, like: Like, search: string, raw: Option<string>)
    ensures AnswersList(Live(t), like, search, raw, ListReply(t, like, search, raw))
  {
    hide AnswersPage, ListFrom, DecodeCursor, ReadId;
    var bound := BoundOf(raw);
    if bound.At? {
      SamePage(t, like, search, bound.key);
    } else {
      NotAnIdCrashes(t, like, search);
    }
  }

  lemma NotAnIdCrashes(t: Table, like: Like, search: string)
    ensures ListFrom(t, like, search, NotAnId) == Crash
  {
  }

  /** In a sequential run the pre-checks are exact: AlreadyExists is answered
      exactly when the write would have broken the index, so the index never fires. */
  lemma PreChecksAreExact(t: Table, like: Like, req: Request)
    requires UniqueIndex(t)
    requires req.Create? ==> req.id !in t
    ensures req.Create? ==>
              (Serve(t, like, req).1 == AlreadyExists <==>
               !UniqueIndex(Inserted(t, req.id, req.name, req.businessIdentifier, req.now)))
    ensures req.Update? && IsLive(t, req.id) ==>
              (Serve(t, like, req).1 == AlreadyExists <==>
               !UniqueIndex(Updated(t, req.id, req.name, req.businessIdentifier, req.now)))
    ensures !req.List? ==> Serve(t, like, req).1 != Crash
    ensures UniqueIndex(Serve(t, like, req).0)
  {
    match req
    case Create(id, name, bi, now) =>
      InsertFits(t, id, name, bi, now);
      assert forall i :: Owns(t, i, bi) <==> i in Owners(t, bi);
    case Update(id, name, bi, now) =>
      UpdateFits(t, id, name, bi, now);
      assert forall i :: Owns(t, i, bi) <==> i in Owners(t, bi);
      var owner := FindOwner(t, bi);
      assert owner.Some? ==> owner.value in Owners(t, bi);
      assert IsLive(t, id) && t[id].businessIdentifier == bi ==> Owns(t, id, bi);
    case Delete(id, now) =>
      SoftDeleteFits(t, id, now);
    case List(_, _) =>
  }

  lemma LiveAfterInsert(t: Table, id: Id, name: string, bi: string, now: Timestamp)
    requires id !in t
    ensures Live(Inserted(t, id, name, bi, now)) == Live(t)[id := Plain(name, bi, now, None)]
  {
  }

  lemma LiveAfterUpdate(t: Table, id: Id, name: string, bi: string, now: Timestamp)
    requires IsLive(t, id)
    ensures Live(Updated(t, id, name, bi, now)) == Live(t)[id := Plain(name, bi, t[id].createdAt, Some(now))]
  {
  }

  lemma LiveAfterSoftDelete(t: Table, id: Id, now: Timestamp)
    ensures Live(SoftDeleted(t, id, now)) == Live(t) - {id}
  {
  }

  lemma CreateRefinesPlain(t: Table, like: Like, req: Request)
    requires UniqueIndex(t) && req.Create? && req.id !in t
    ensures Answers(Live(t), like, req, Live(Serve(t, like, req).0), Serve(t, like, req).1)
  {
    PreChecksAreExact(t, like, req);
    SameOwners(t, req.id, req.businessIdentifier);
    LiveAfterInsert(t, req.id, req.name, req.businessIdentifier, req.now);
    OutputDescribes(Inserted(t, req.id, req.name, req.businessIdentifier, req.now), req.id);
    hide Describes, RowOutput, Live;
  }

  lemma UpdateRefinesPlain(t: Table, like: Like, req: Request)
    requires UniqueIndex(t) && req.Update?
    ensures Answers(Live(t), like, req, Live(Serve(t, like, req).0), Serve(t, like, req).1)
  {
    hide Describes, RowOutput, UniqueIndex, UpdatedRow;
    PreChecksAreExact(t, like, req);
    SameOwners(t, req.id, req.businessIdentifier);
    if IsLive(t, req.id) {
      LiveAfterUpdate(t, req.id, req.name, req.businessIdentifier, req.now);
      UpdatedIsLive(t, req.id, req.name, req.businessIdentifier, req.now);
      OutputDescribes(Updated(t, req.id, req.name, req.businessIdentifier, req.now), req.id);
      if t[req.id].businessIdentifier == req.businessIdentifier {
        KeepsItsIdentifier(t, req.id);
      }
    }
  }

  lemma UpdatedIsLive(t: Table, id: Id, name: string, bi: string, now: Timestamp)
    requires IsLive(t, id)
    ensures IsLive(Updated(t, id, name, bi, now), id)
  {
  }

  lemma KeepsItsIdentifier(t: Table, id: Id)
    requires UniqueIndex(t) && IsLive(t, id)
    ensures !TakenByOther(Live(t), id, t[id].businessIdentifier)
  {
    var bi := t[id].businessIdentifier;
    assert Owns(t, id, bi);
    if TakenByOther(Live(t), id, bi) {
      var other :| other in Live(t) && other != id && Live(t)[other].businessIdentifier == bi;
      assert Owns(t, other, bi);
    }
  }

  lemma ServeRefinesPlain(t: Table, like: Like, req: Request)
    requires UniqueIndex(t)
    requires req.Create? ==> req.id !in t
    ensures UniqueIndex(Serve(t, like, req).0)
    ensures Answers(Live(t), like, req, Live(Serve(t, like, req).0), Serve(t, like, req).1)
  {
    PreChecksAreExact(t, like, req);
    match req
    case Create(_, _, _, _) => CreateRefinesPlain(t, like, req);
    case Update(_, _, _, _) => UpdateRefinesPlain(t, like, req);
    case Delete(id, now) => LiveAfterSoftDelete(t, id, now);
    case List(search, cursor) => SameListing(t, like, search, cursor);
  }

  /** A business identifier freed by a delete can be used again at once. */
  lemma FreedIdentifierIsReusable(t: Table, like: Like, id: Id, again: Id, name: string, now: Timestamp)
    requires UniqueIndex(t) && IsLive(t, id) && again !in t
    ensures
      var bi := t[id].businessIdentifier;
      var t1 := Serve(t, like, Request.Delete(id, now)).0;
      Serve(t1, like, Request.Create(again, name, bi, now)).1.Saved?
  {
    var bi := t[id].businessIdentifier;
    var t1 := SoftDeleted(t, id, now);
    var create := Request.Create(again, name, bi, now);
    ServeRefinesPlain(t, like, Request.Delete(id, now));
    ServeRefinesPlain(t1, like, create);
    LiveAfterSoftDelete(t, id, now);
    if TakenByOther(Live(t1), again, bi) {
      var other :| other in Live(t1) && Live(t1)[other].businessIdentifier == bi;
      assert Owns(t, other, bi) && Owns(t, id, bi);
    }
  }

  // ---------- whole runs ----------

  predicate FreshAt(t: Table, reqs: seq<Request>, i: nat)
    requires i < |reqs|
  {
    reqs[i].Create? ==>
      reqs[i].id !in t && forall j :: 0 <= j < i && reqs[j].Create? ==> reqs[j].id != reqs[i].id
  }

  /** Each create draws an id that no row has, deleted rows included, and no other create draws. */
  predicate FreshIds(t: Table, reqs: seq<Request>) {
    forall i :: 0 <= i < |reqs| ==> FreshAt(t, reqs, i)
  }

  lemma FreshAfterServe(t: Table, like: Like, reqs: seq<Request>)
    requires FreshIds(t, reqs) && reqs != []
    ensures reqs[0].Create? ==> reqs[0].id !in t
    ensures FreshIds(Serve(t, like, reqs[0]).0, reqs[1..])
  {
    var t1, rest := Serve(t, like, reqs[0]).0, reqs[1..];
    assert FreshAt(t, reqs, 0);
    assert forall id :: id in t1 ==> id in t || (reqs[0].Create? && id == reqs[0].id);
    hide Serve;
    forall i | 0 <= i < |rest| ensures FreshAt(t1, rest, i) {
      assert FreshAt(t, reqs, i + 1);
      assert forall j :: 0 <= j < i ==> rest[j] == reqs[j + 1];
    }
  }

  ghost function Run(t: Table, like: Like, reqs: seq<Request>): (Table, seq<Reply>)
    decreases |reqs|
  {
    if reqs == [] then (t, []) else
      var (t1, reply) := Serve(t, like, reqs[0]);
      var (t2, replies) := Run(t1, like, reqs[1..]);
      (t2, [reply] + replies)
  }

  ghost predicate PlainRun(d: Directory, like: Like, reqs: seq<Request>, d': Directory, replies: seq<Reply>)
    decreases |reqs|
  {
    if reqs == [] then d' == d && replies == [] else
      && |replies| == |reqs|
      && exists d1 :: Answers(d, like, reqs[0], d1, replies[0]) && PlainRun(d1, like, reqs[1..], d', replies[1..])
  }

  /** No client can tell the soft-deleting table from a map with real deletion. */
  lemma {:induction false} RunsLikeAPlainMap(t: Table, like: Like, reqs: seq<Request>)
    requires UniqueIndex(t) && FreshIds(t, reqs)
    ensures
      var (t', replies) := Run(t, like, reqs);
      UniqueIndex(t') && PlainRun(Live(t), like, reqs, Live(t'), replies)
    decreases |reqs|
  {
    if reqs != [] {
      var (t1, reply) := Serve(t, like, reqs[0]);
      FreshAfterServe(t, like, reqs);
      ServeRefinesPlain(t, like, reqs[0]);
      hide Serve, FreshIds, Answers;
      RunsLikeAPlainMap(t1, like, reqs[1..]);
      var (t', replies) := Run(t, like, reqs);
      assert replies[1..] == Run(t1, like, reqs[1..]).1;
      assert Answers(Live(t), like, reqs[0], Live(t1), replies[0]);
    }
  }
}
