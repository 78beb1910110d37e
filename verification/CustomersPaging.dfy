/** The store, the service, the cursor codec and the keyset query together: what
    the screen shows is a slice of one sorted, filtered list, and exactly when it is
    the slice that the number of pages says. */
module CustomersPaging {
  import opened Prelude
  import opened Keyset
  import opened StaticListing
  import opened CursorCodec
  import opened CustomersTable
  import opened CustomersService
  import S = CustomersService
  import opened ListStore
  import L = ListStore
  import opened KeysetWalk
  import A = ListStoreAsync
  import Traffic = CustomersTraffic

  function AsReply(r: S.Reply): L.Reply<Output> {
    match r
    case Listed(items, next) => Arrived(items, next)
    case _ => Lost
  }

  function TableServer(t: Table, like: Like): Server<Output> {
    (search, raw) => AsReply(ListReply(t, like, search, raw))
  }

  /** The keys of all matching customers, newest first. */
  function Listing(t: Table, like: Like, search: string): (all: seq<Key>)
    ensures forall k :: k in all ==> k.id < UUID_COUNT && k.id in t
  {
    SortedEnumerates(Matching(t, like, search));
    Sorted(Matching(t, like, search))
  }

  /** The one sorted, filtered list that pages are slices of. */
  function AllRows(t: Table, like: Like, search: string): (rows: seq<Output>)
    ensures |rows| == |Listing(t, like, search)|
  {
    Outputs(t, Listing(t, like, search))
  }

  /** A request whose cursor is the bound after `m` rows answers the slice at the
      position where that cursor resumes. */
  lemma ServedSlice(t: Table, like: Like, search: string, m: nat)
    requires m <= |Listing(t, like, search)|
    ensures
      var all := Listing(t, like, search);
      var page := Slice(all, Resume(all, m, Millis), PAGE_SIZE, Millis);
      && (forall k :: k in page.items ==> k.id < UUID_COUNT && k.id in t)
      && (page.next.Some? ==> CursorKey(page.next.value))
      && ListFrom(t, like, search, At(BoundAt(all, m, Millis))) == Listed(Outputs(t, page.items), NextText(page.next))
  {
    var all := Listing(t, like, search);
    SortedEnumerates(Matching(t, like, search));
    if m > 0 {
      assert all[m - 1] in all;
    }
    PageIsSlice(Matching(t, like, search), m, PAGE_SIZE, Millis);
    var page := PageOf(t, like, search, BoundAt(all, m, Millis));
  }

  /** The cursor issued with the slice at `q` is the bound after `q + 10` rows. */
  lemma IssuedPosition(t: Table, like: Like, search: string, m: nat, answer: S.Reply)
    requires m <= |Listing(t, like, search)|
    requires answer == ListFrom(t, like, search, At(BoundAt(Listing(t, like, search), m, Millis)))
    requires answer.Listed? && answer.nextCursor.Some?
    ensures
      var all := Listing(t, like, search);
      var q := Resume(all, m, Millis) + PAGE_SIZE;
      q < |all| && BoundOf(answer.nextCursor) == At(BoundAt(all, q, Millis))
  {
    hide BoundOf, CursorText, Sorted, ListFrom, Outputs, Resume;
    var all := Listing(t, like, search);
    ServedSlice(t, like, search, m);
    BoundRoundTrip(Slice(all, Resume(all, m, Millis), PAGE_SIZE, Millis).next.value);
  }

  lemma ChainStep(t: Table, like: Like, search: string, stack: seq<Option<string>>, j: nat, m: nat)
    requires 0 < j < |stack| && Issued(TableServer(t, like), search, stack, j)
    requires m <= |Listing(t, like, search)|
    requires BoundOf(stack[j - 1]) == At(BoundAt(Listing(t, like, search), m, Millis))
    ensures
      var all := Listing(t, like, search);
      var q := Resume(all, m, Millis) + PAGE_SIZE;
      q < |all| && BoundOf(stack[j]) == At(BoundAt(all, q, Millis))
  {
    hide BoundOf, BoundAt, ListFrom, Sorted, Resume;
    IssuedPosition(t, like, search, m, ListReply(t, like, search, stack[j - 1]));
  }

  lemma NoCursor()
    ensures BoundOf(None) == At(None)
  {
  }

  /** The j-th cursor of a chain is the bound after the rows that the pages before it
      passed, and those are at least 10 * j. */
  lemma {:induction false} ChainIsPositions(t: Table, like: Like, search: string, stack: seq<Option<string>>, j: nat)
    requires Chain(TableServer(t, like), search, stack) && j < |stack|
    ensures
      var all := Listing(t, like, search);
      && BoundOf(stack[j]) == At(BoundAt(all, Passed(all, j, PAGE_SIZE, Millis), Millis))
      && (j == 0 || j * PAGE_SIZE < |all|)
      && Passed(all, j, PAGE_SIZE, Millis) >= j * PAGE_SIZE
  {
    hide BoundOf, Sorted, TableServer, Issued, Listing, Resume;
    var all := Listing(t, like, search);
    if j > 0 {
      var m := Passed(all, j - 1, PAGE_SIZE, Millis);
      ChainIsPositions(t, like, search, stack, j - 1);
      ChainStep(t, like, search, stack, j, m);
      assert PageStart(all, j - 1, PAGE_SIZE, Millis) == Resume(all, m, Millis);
    } else {
      NoCursor();
    }
  }

  lemma OutputsOfSlice(t: Table, all: seq<Key>, m: nat, end: nat)
    requires m <= end <= |all|
    requires forall k :: k in all ==> k.id < UUID_COUNT && k.id in t
    ensures forall k :: k in all[m..end] ==> k.id < UUID_COUNT && k.id in t
    ensures Outputs(t, all[m..end]) == Outputs(t, all)[m..end]
  {
    hide RowOutput;
    forall k | k in all[m..end] ensures k in all {
      var i :| m <= i < end && all[i] == k;
    }
  }

  lemma ServedRows(t: Table, like: Like, search: string, m: nat, answer: S.Reply)
    requires m <= |Listing(t, like, search)|
    requires answer == ListFrom(t, like, search, At(BoundAt(Listing(t, like, search), m, Millis)))
    ensures
      var rows := AllRows(t, like, search);
      var q := Resume(Listing(t, like, search), m, Millis);
      && answer.Listed?
      && answer.items == rows[q..Min(q + PAGE_SIZE, |rows|)]
      && (answer.nextCursor.Some? <==> q + PAGE_SIZE < |rows|)
      && answer.nextCursor != Some("")
  {
    hide BoundOf, ListFrom, CursorText, RowOutput, Sorted, Resume;
    var all := Listing(t, like, search);
    var q := Resume(all, m, Millis);
    var page := Slice(all, q, PAGE_SIZE, Millis);
    ServedSlice(t, like, search, m);
    OutputsOfSlice(t, all, q, Min(q + PAGE_SIZE, |all|));
    assert page.items == all[q..Min(q + PAGE_SIZE, |all|)];
    if page.next.Some? {
      BoundRoundTrip(page.next.value);
    }
  }

  // ---------- one screen ----------

  /** Which page is on screen, counted from 0. */
  function PageNumber(v: View<Output>): nat
    requires v.stack != []
  {
    |v.stack| - 1
  }

  /** The position of the first row on screen in the listing. */
  function ShownFrom(t: Table, like: Like, v: View<Output>): (q: nat)
    requires v.stack != []
    ensures q <= |AllRows(t, like, v.search)|
  {
    PageStart(Listing(t, like, v.search), PageNumber(v), PAGE_SIZE, Millis)
  }

  /** The screen shows the ten rows from `first` on. */
  ghost predicate Shows(t: Table, like: Like, v: View<Output>, first: nat) {
    var rows := AllRows(t, like, v.search);
    && first <= |rows|
    && v.items == rows[first..Min(first + PAGE_SIZE, |rows|)]
    && (HasNext(v) <==> first + PAGE_SIZE < |rows|)
    && (CanNext(v) <==> HasNext(v))
  }

  /** Page k is rows 10k to 10k + 9, and Previous is offered exactly off the first. */
  ghost predicate ShowsItsSlice(t: Table, like: Like, v: View<Output>) {
    && v.stack != []
    && Shows(t, like, v, PageNumber(v) * PAGE_SIZE)
    && (HasPrev(v) <==> PageNumber(v) * PAGE_SIZE > 0)
  }

  lemma ScreenPosition(t: Table, like: Like, w: World<Output>)
    requires w.server == TableServer(t, like) && Consistent(w) && Showing(w)
    ensures Shows(t, like, w.view, ShownFrom(t, like, w.view))
  {
    hide BoundOf, ListFrom, Sorted, Outputs, Matching, Listing, Resume;
    var v := w.view;
    var all, k := Listing(t, like, v.search), PageNumber(v);
    ChainIsPositions(t, like, v.search, v.stack, k);
    ServedRows(t, like, v.search, Passed(all, k, PAGE_SIZE, Millis), ListReply(t, like, v.search, L.Top(v)));
  }

  /** No two rows of the list are the same: each carries its own id. */
  lemma RowsDiffer(t: Table, like: Like, search: string, i: nat, j: nat)
    requires i < j < |AllRows(t, like, search)|
    ensures AllRows(t, like, search)[i] != AllRows(t, like, search)[j]
  {
    var all := Listing(t, like, search);
    SortedEnumerates(Matching(t, like, search));
    assert all[i] in all && all[j] in all;
    MatchingIsTheTable(t, like, search, all[i]);
    MatchingIsTheTable(t, like, search, all[j]);
    hide Matching, Sorted, IdText, ReadId;
    IdRoundTrip(all[i].id);
    IdRoundTrip(all[j].id);
  }

  lemma SlicesApart(rows: seq<Output>, p: nat, q: nat)
    requires p < q <= |rows|
    requires q < |rows| ==> rows[p] != rows[q]
    ensures rows[p..Min(p + PAGE_SIZE, |rows|)] != rows[q..Min(q + PAGE_SIZE, |rows|)]
  {
    var a, b := rows[p..Min(p + PAGE_SIZE, |rows|)], rows[q..Min(q + PAGE_SIZE, |rows|)];
    assert a[0] == rows[p];
    assert q < |rows| ==> b[0] == rows[q];
  }

  lemma OneScreenOnePosition(t: Table, like: Like, v: View<Output>, q: nat)
    requires v.stack != [] && Shows(t, like, v, q) && PageNumber(v) * PAGE_SIZE <= q
    ensures ShowsItsSlice(t, like, v) <==> q == PageNumber(v) * PAGE_SIZE
  {
    var rows, first := AllRows(t, like, v.search), PageNumber(v) * PAGE_SIZE;
    hide AllRows;
    if first < q {
      if q < |rows| {
        RowsDiffer(t, like, v.search, first, q);
      }
      SlicesApart(rows, first, q);
    }
  }

  /** After a successful load, for every table: the screen shows ten rows of the list
      from `ShownFrom` on; and those are rows 10k to 10k + 9 of page k, with Previous
      and Next to match, if and only if none of the k page boundaries before it falls
      between two rows that the millisecond cursor cannot tell apart. */
  lemma ScreenIsASlice(t: Table, like: Like, w: World<Output>)
    requires w.server == TableServer(t, like) && Consistent(w) && Showing(w)
    ensures Shows(t, like, w.view, ShownFrom(t, like, w.view))
    ensures ShownFrom(t, like, w.view) >= PageNumber(w.view) * PAGE_SIZE
    ensures ShowsItsSlice(t, like, w.view) <==>
            CleanTo(Listing(t, like, w.view.search), PageNumber(w.view), PAGE_SIZE, Millis)
  {
    var v := w.view;
    var all, k := Listing(t, like, v.search), PageNumber(v);
    hide TableServer, Listing, CleanTo, Shows, ShowsItsSlice, Passed, Resume, Issued, BoundOf, BoundAt, Showing;
    ScreenPosition(t, like, w);
    ChainIsPositions(t, like, v.search, v.stack, k);
    PageStartsInStep(all, k, PAGE_SIZE, Millis);
    PageStartAtLeast(all, k, PAGE_SIZE, Millis);
    OneScreenOnePosition(t, like, v, ShownFrom(t, like, v));
  }

  /** The same for every run of completed actions from a fresh store, whatever loads
      failed and whatever tables the store's own mutations left behind, as long as
      the last one is `t`. */
  lemma EveryRunShowsASlice(server: Server<Output>, actions: seq<Action<Output>>, t: Table, like: Like)
    requires Acts(Initial(server), actions).server == TableServer(t, like)
    ensures
      var w := Acts(Initial(server), actions);
      && Consistent(w)
      && (Showing(w) ==>
           && Shows(t, like, w.view, ShownFrom(t, like, w.view))
           && (ShowsItsSlice(t, like, w.view) <==>
               CleanTo(Listing(t, like, w.view.search), PageNumber(w.view), PAGE_SIZE, Millis)))
  {
    hide Act, TableServer, Shows, ShowsItsSlice, CleanTo, Listing;
    var w := Acts(Initial(server), actions);
    RunsAreConsistent(Initial(server), actions);
    if Showing(w) {
      ScreenIsASlice(t, like, w);
    }
  }

  // ---------- every screen ----------

  /** A fresh store after a search for `term` and then `n` times Next, with every
      request answered. */
  function Clicked(t: Table, like: Like, term: string, n: nat): (w: World<Output>)
    ensures w.view.stack != []
  {
    if n == 0 then Act(Initial(TableServer(t, like)), Action.SetSearch(term, true))
    else Act(Clicked(t, like, term, n - 1), Action.FetchNext(true))
  }

  lemma ServerAnswers(t: Table, like: Like, search: string, stack: seq<Option<string>>)
    requires Chain(TableServer(t, like), search, stack)
    ensures TableServer(t, like)(search, stack[|stack| - 1]).Arrived?
  {
    hide Listing, BoundOf, ListFrom, AllRows, Resume, Passed, Issued, BoundAt;
    var j := |stack| - 1;
    var m := Passed(Listing(t, like, search), j, PAGE_SIZE, Millis);
    ChainIsPositions(t, like, search, stack, j);
    ServedRows(t, like, search, m, ListReply(t, like, search, stack[j]));
  }

  lemma {:induction false} ClickedShows(t: Table, like: Like, term: string, n: nat)
    ensures
      var w := Clicked(t, like, term, n);
      && w.server == TableServer(t, like) && Consistent(w) && Showing(w)
      && w.view.search == Trim(term) && PageNumber(w.view) <= n
  {
    hide Trim, TableServer, Issued;
    var server := TableServer(t, like);
    if n == 0 {
      var v := Searched(Initial(server).view, term);
      ServerAnswers(t, like, Trim(term), v.stack);
      LoadIsConsistent(v, server, true);
    } else {
      var w := Clicked(t, like, term, n - 1);
      ClickedShows(t, like, term, n - 1);
      if CanNext(w.view) {
        PushKeepsChain(w);
        ServerAnswers(t, like, Trim(term), Pushed(w.view).stack);
        LoadIsConsistent(Pushed(w.view), server, true);
      }
    }
  }

  /** As long as the boundaries passed are clean and rows remain, each Next turns a page. */
  lemma {:induction false} ClickedTurns(t: Table, like: Like, term: string, n: nat)
    requires n == 0 || n * PAGE_SIZE < |Listing(t, like, Trim(term))|
    requires n == 0 || CleanTo(Listing(t, like, Trim(term)), n - 1, PAGE_SIZE, Millis)
    ensures PageNumber(Clicked(t, like, term, n).view) == n
  {
    hide Trim, TableServer, Listing, CleanAt, Showing, Consistent, PageStart, AllRows;
    ClickedShows(t, like, term, n);
    if n > 0 {
      var before := Clicked(t, like, term, n - 1);
      ClickedTurns(t, like, term, n - 1);
      ClickedShows(t, like, term, n - 1);
      ScreenIsASlice(t, like, before);
      assert HasNext(before.view);
    }
  }

  /** Every page that can be reached shows its slice if and only if no page boundary of
      the listing skips a row: at the first one that does, the page that Next opens is
      another part of the list. */
  lemma AllScreensAreSlicesIff(t: Table, like: Like, term: string)
    ensures (forall n: nat :: ShowsItsSlice(t, like, Clicked(t, like, term, n).view)) <==>
            Lossless(Listing(t, like, Trim(term)), PAGE_SIZE, Millis)
  {
    var all := Listing(t, like, Trim(term));
    LosslessIsCleanTo(all, PAGE_SIZE, Millis);
    hide Trim, TableServer, Listing, Clicked, Lossless, ShowsItsSlice, Showing, Consistent;
    if forall k: nat :: CleanTo(all, k, PAGE_SIZE, Millis) {
      forall n: nat ensures ShowsItsSlice(t, like, Clicked(t, like, term, n).view) {
        ClickedShows(t, like, term, n);
        ScreenIsASlice(t, like, Clicked(t, like, term, n));
      }
    } else {
      var k: nat :| !CleanTo(all, k, PAGE_SIZE, Millis);
      var n := FirstLoss(all, k);
      ClickedTurns(t, like, term, n);
      ClickedShows(t, like, term, n);
      ScreenIsASlice(t, like, Clicked(t, like, term, n));
    }
  }

  lemma {:induction false} FirstLoss(all: seq<Key>, k: nat) returns (n: nat)
    requires !CleanTo(all, k, PAGE_SIZE, Millis)
    ensures 0 < n <= k && n * PAGE_SIZE < |all|
    ensures CleanTo(all, n - 1, PAGE_SIZE, Millis) && !CleanTo(all, n, PAGE_SIZE, Millis)
  {
    n := k;
    if !CleanTo(all, k - 1, PAGE_SIZE, Millis) {
      n := FirstLoss(all, k - 1);
    }
  }

  /** With whole-millisecond creation times every page shows its slice. */
  lemma WholeTimesShowSlices(t: Table, like: Like, term: string, n: nat)
    requires forall k :: k in Matching(t, like, Trim(term)) ==> Whole(k, Millis)
    ensures ShowsItsSlice(t, like, Clicked(t, like, term, n).view)
  {
    WholeIsLossless(Matching(t, like, Trim(term)), PAGE_SIZE, Millis);
    hide Matching, Trim, Lossless, Clicked, ShowsItsSlice, Sorted;
    AllScreensAreSlicesIff(t, like, term);
  }

  // ---------- a table that shows the loss ----------

  /** Eleven customers created in eleven successive microseconds of one millisecond. */
  function BusyMillisecond(): Table {
    map id: nat | id <= PAGE_SIZE :: Customer("", IdText(id), 1001 + id, None, None)
  }

  function BusyKeys(): seq<Key> {
    seq(PAGE_SIZE + 1, i requires 0 <= i <= PAGE_SIZE => Key(1001 + PAGE_SIZE - i, PAGE_SIZE - i))
  }

  lemma BusyListing(like: Like)
    ensures UniqueIndex(BusyMillisecond()) && Listing(BusyMillisecond(), like, "") == BusyKeys()
  {
    var t, keys := BusyMillisecond(), BusyKeys();
    hide IdText, ReadId;
    forall bi, i, j | Owns(t, i, bi) && Owns(t, j, bi) ensures i == j {
      IdRoundTrip(i);
      IdRoundTrip(j);
    }
    forall k ensures k in keys <==> k in Matching(t, like, "") {
      MatchingIsTheTable(t, like, "", k);
      if k in Matching(t, like, "") {
        assert keys[PAGE_SIZE - k.id] == k;
      }
    }
    SortedIsUnique(Matching(t, like, ""), keys);
  }

  lemma BusyPositions()
    ensures |BusyKeys()| == 11
    ensures PageStart(BusyKeys(), 0, PAGE_SIZE, Millis) == 0 && PageStart(BusyKeys(), 1, PAGE_SIZE, Millis) == 11
    ensures CleanTo(BusyKeys(), 0, PAGE_SIZE, Millis)
  {
    var keys := BusyKeys();
    assert Truncate(keys[9], Millis) == Key(1000, 1);
    assert !Less(keys[10], Key(1000, 1));
    assert Passed(keys, 1, PAGE_SIZE, Millis) == 10;
  }

  lemma BusyScreen(like: Like, n: nat)
    requires n <= 1
    ensures
      var v := Clicked(BusyMillisecond(), like, "", n).view;
      && v.search == "" && PageNumber(v) == n
      && Shows(BusyMillisecond(), like, v, if n == 0 then 0 else 11)
  {
    var t := BusyMillisecond();
    var w := Clicked(t, like, "", n);
    BusyListing(like);
    BusyPositions();
    assert Trim("") == "";
    hide Trim, Listing, BusyKeys, PageStart, Shows, UniqueIndex, Showing, Consistent, BusyMillisecond, Clicked;
    ClickedTurns(t, like, "", n);
    ClickedShows(t, like, "", n);
    ScreenPosition(t, like, w);
  }

  /** The oldest of them is on no page: the first shows the ten others and offers Next,
      and Next shows an empty page, with nothing after it. */
  lemma BusyMillisecondLosesACustomer(like: Like)
    ensures
      var t := BusyMillisecond();
      var first, second := Clicked(t, like, "", 0).view, Clicked(t, like, "", 1).view;
      && UniqueIndex(t) && |AllRows(t, like, "")| == 11
      && first.items == AllRows(t, like, "")[..10] && HasNext(first)
      && second.items == [] && PageNumber(second) == 1 && !HasNext(second)
  {
    BusyListing(like);
    BusyPositions();
    hide Clicked, Listing, AllRows, BusyKeys, UniqueIndex, BusyMillisecond;
    BusyScreen(like, 0);
    BusyScreen(like, 1);
  }

  // ---------- Next clicked twice ----------

  /** No page issues the cursor that it was asked for with. */
  lemma CursorsAdvance(t: Table, like: Like, search: string, raw: string)
    ensures !A.IssuesItself(TableServer(t, like), search, Some(raw))
  {
    hide BoundOf, CursorText, Matching, Sorted, Outputs, CursorKey;
    var bound := BoundOf(Some(raw));
    if A.IssuesItself(TableServer(t, like), search, Some(raw)) {
      var page := PageOf(t, like, search, bound.key);
      PageMeaning(Matching(t, like, search), bound.key, PAGE_SIZE, Millis);
      BoundRoundTrip(page.next.value);
      assert bound.key == page.next;
      var last := Last(page.items);
      assert last in page.items;
      TruncateWhole(last, Millis);
    }
  }

  /** So over every table, Next clicked twice on a screen in order breaks the chain. */
  lemma DoubleNextBreaksTheChain(t: Table, like: Like, s: A.State<Output>) returns (events: seq<A.Event<Output>>)
    requires A.WellFormed(s) && A.Chained(TableServer(t, like), s) && CanNext(s.view) && s.loads == multiset{}
    requires A.PushesIssued(TableServer(t, like), s, A.Event.FetchNext)
    ensures A.Possible(s, events) && A.Honest(TableServer(t, like), events)
    ensures
      var s' := A.After(s, events);
      && s'.loads == multiset{} && s'.view.stack == s.view.stack + [s.view.next, s.view.next]
      && !A.Chained(TableServer(t, like), s')
  {
    events := A.DoubleNextRepeatsAPage(TableServer(t, like), s);
    CursorsAdvance(t, like, s.view.search, s.view.next.value);
  }

  // ---------- pages turned while others change the table ----------

  /** The store after a search for `term` and a Next for each further table, when the
      server answers each request from the next of these tables. */
  function Turned(tables: seq<Table>, like: Like, term: string): (w: World<Output>)
    requires tables != []
    ensures w.view.stack != []
  {
    var n := |tables| - 1;
    var server := TableServer(tables[n], like);
    if n == 0 then Act(Initial(server), Action.SetSearch(term, true))
    else Act(Turned(tables[..n], like, term).(server := server), Action.FetchNext(true))
  }

  /** What a client reads that follows nextCursor over these tables. */
  function Reads(tables: seq<Table>, like: Like, search: string): (walk: seq<Read>)
    ensures |walk| == |tables|
  {
    if tables == [] then [] else
      var n := |tables| - 1;
      var before := Reads(tables[..n], like, search);
      var snap := Matching(tables[n], like, search);
      before + [Read(snap, ListPage(snap, NextOf(before), PAGE_SIZE, Millis))]
  }

  /** Each Next but the last found one to follow. */
  predicate KeepsTurning(tables: seq<Table>, like: Like, term: string) {
    |tables| <= 1 ||
    (var before := tables[..|tables| - 1];
     KeepsTurning(before, like, term) && HasNext(Turned(before, like, term).view))
  }

  /** The screen shows a page as the table has it, and holds its next cursor. */
  ghost predicate ShowsPage(v: View<Output>, t: Table, page: Page) {
    && (forall k :: k in page.items ==> k.id < UUID_COUNT && k.id in t)
    && (page.next.Some? ==> CursorKey(page.next.value))
    && v.items == Outputs(t, page.items) && v.next == NextText(page.next)
  }

  lemma LoadShowsPage(t: Table, like: Like, v: View<Output>, bound: Option<Key>)
    requires bound.Some? ==> CursorKey(bound.value)
    requires v.stack != [] && L.Top(v) == NextText(bound)
    ensures
      var page := ListPage(Matching(t, like, v.search), bound, PAGE_SIZE, Millis);
      ShowsPage(Loaded(v, TableServer(t, like), true), t, page)
  {
    hide BoundOf, CursorText, Matching, Sorted, CursorKey, Outputs;
    if bound.Some? {
      BoundRoundTrip(bound.value);
    } else {
      NoCursor();
    }
    var page := PageOf(t, like, v.search, bound);
    assert ListReply(t, like, v.search, L.Top(v)) == ListFrom(t, like, v.search, At(bound));
  }

  lemma SearchShows(t: Table, like: Like, term: string)
    ensures
      var v := Act(Initial(TableServer(t, like)), Action.SetSearch(term, true)).view;
      && v.search == Trim(term)
      && ShowsPage(v, t, ListPage(Matching(t, like, Trim(term)), None, PAGE_SIZE, Millis))
  {
    hide Trim, TableServer, Matching, ListPage, ShowsPage;
    LoadShowsPage(t, like, Searched(Initial(TableServer(t, like)).view, term), None);
  }

  lemma NextShows(v: View<Output>, before: Table, page: Page, t: Table, like: Like)
    requires v.stack != [] && ShowsPage(v, before, page) && HasNext(v)
    ensures
      var v' := Act(World(v, TableServer(t, like)), Action.FetchNext(true)).view;
      && page.next.Some? && v'.search == v.search
      && ShowsPage(v', t, ListPage(Matching(t, like, v.search), page.next, PAGE_SIZE, Millis))
  {
    hide CursorText, BoundOf, TableServer, Matching, ListPage, Outputs, CursorKey;
    BoundRoundTrip(page.next.value);
    LoadShowsPage(t, like, Pushed(v), page.next);
  }

  lemma ShownNext(v: View<Output>, t: Table, page: Page)
    requires ShowsPage(v, t, page)
    ensures (page.next.Some? ==> CursorKey(page.next.value)) && v.next == NextText(page.next)
  {
  }

  /** Turning pages while the table changes in any way between the clicks is a walk
      along nextCursor, and each screen is the page that the walk reads. */
  lemma {:induction false} TurningIsAWalk(tables: seq<Table>, like: Like, term: string)
    requires tables != [] && KeepsTurning(tables, like, term)
    ensures
      var v, walk := Turned(tables, like, term).view, Reads(tables, like, Trim(term));
      && IsWalk(walk, PAGE_SIZE, Millis) && v.search == Trim(term)
      && ShowsPage(v, tables[|tables| - 1], walk[|tables| - 1].page)
  {
    hide Trim, TableServer, Matching, ListPage, ShowsPage, Act, IsWalk;
    var n := |tables| - 1;
    var t, before := tables[n], Reads(tables[..n], like, Trim(term));
    if n == 0 {
      assert tables[..0] == [];
      SearchShows(t, like, term);
      NoReads(PAGE_SIZE);
    } else {
      var v := Turned(tables[..n], like, term).view;
      TurningIsAWalk(tables[..n], like, term);
      NextShows(v, tables[n - 1], before[n - 1].page, t, like);
    }
    NextRead(before, Reads(tables, like, Trim(term))[n], PAGE_SIZE, Millis);
  }

  lemma NoReads(limit: nat)
    ensures IsWalk([], limit, Millis)
  {
  }

  function TablesOf(states: seq<Traffic.System>): seq<Table> {
    seq(|states|, i requires 0 <= i < |states| => states[i].t)
  }

  lemma {:induction false} ReadsEach(tables: seq<Table>, like: Like, search: string, i: nat)
    requires i < |tables|
    ensures Reads(tables, like, search)[i].snap == Matching(tables[i], like, search)
  {
    if i < |tables| - 1 {
      ReadsEach(tables[..|tables| - 1], like, search, i);
    }
  }

  /** Whatever requests others interleave between the clicks: the pages turned are
      strictly descending, show no customer twice, and, once the last has been turned,
      have shown every customer that stayed listed exactly once unless a cursor skipped it. */
  lemma TurningDuringTraffic(
    states: seq<Traffic.System>, events: seq<seq<Traffic.Event>>, like: Like, term: string)
    requires states != [] && Traffic.Observed(states, events) && UniqueIndex(states[0].t)
    requires KeepsTurning(TablesOf(states), like, term)
    ensures
      var walk := Reads(TablesOf(states), like, Trim(term));
      && Descending(Emitted(walk)) && DistinctIds(Emitted(walk))
      && (!HasNext(Turned(TablesOf(states), like, term).view) ==>
            forall k :: (forall i :: 0 <= i < |walk| ==> k in walk[i].snap) ==>
              multiset(Emitted(walk))[k] == if Skipped(walk, k) then 0 else 1)
  {
    hide Trim, Turned, Matching, Traffic.Observed, UniqueIndex, Skipped, Emitted, IsWalk;
    var tables, search := TablesOf(states), Trim(term);
    var walk := Reads(tables, like, search);
    TurningIsAWalk(tables, like, term);
    ShownNext(Turned(tables, like, term).view, tables[|tables| - 1], walk[|tables| - 1].page);
    forall i | 0 <= i < |walk| ensures walk[i].snap == Matching(states[i].t, like, search) {
      ReadsEach(tables, like, search, i);
    }
    hide Reads;
    Traffic.WalkUnderTraffic(states, events, walk, like, search, PAGE_SIZE);
  }
}
