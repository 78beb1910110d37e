/** One page of a keyset listing, as the two Drizzle repositories compute it.

    A row is placed in a listing by its key alone: the creation time, then the
    primary key. Times are whole microseconds, the resolution of the column. What
    a cursor keeps of them is a parameter: `Exact` is a cursor that carries the
    time as it is stored, `Millis` the one that a JavaScript Date gives. */
module Keyset {
  import opened Prelude

  datatype Key = Key(at: int, id: nat)

  /** The order that the queries sort by, descending. */
  predicate Less(a: Key, b: Key) {
    a.at < b.at || (a.at == b.at && a.id < b.id)
  }

  predicate Descending(s: seq<Key>) {
    forall i, j :: 0 <= i < j < |s| ==> Less(s[j], s[i])
  }

  datatype Resolution = Exact | Millis

  function Truncate(k: Key, res: Resolution): Key {
    match res
    case Exact => k
    case Millis => Key(k.at - k.at % 1000, k.id)
  }

  predicate Whole(k: Key, res: Resolution) {
    res.Exact? || k.at % 1000 == 0
  }

  /** What a cursor `c` made of the row `k` keeps: the id, and the row's own time or the
      whole millisecond that it falls in. */
  predicate IsCursorOf(c: Key, k: Key, res: Resolution) {
    && c.id == k.id
    && match res
       case Exact => c.at == k.at
       case Millis => c.at % 1000 == 0 && c.at <= k.at < c.at + 1000
  }

  lemma TruncateIsCursor(k: Key, res: Resolution)
    ensures IsCursorOf(Truncate(k, res), k, res)
    ensures forall c :: IsCursorOf(c, k, res) ==> c == Truncate(k, res)
  {
  }

  lemma TruncateWhole(k: Key, res: Resolution)
    ensures Whole(k, res) ==> Truncate(k, res) == k
    ensures !Less(k, Truncate(k, res))
  {
  }

  // ---------- ORDER BY created_at DESC, id DESC ----------

  predicate IsTop(s: set<Key>, k: Key) {
    k in s && forall j :: j in s && j != k ==> Less(j, k)
  }

  lemma {:induction false} TopExists(s: set<Key>)
    requires s != {}
    ensures exists k :: IsTop(s, k)
  {
    var k :| k in s;
    var rest := s - {k};
    assert forall j :: j in s ==> j == k || j in rest;
    if rest == {} {
      assert IsTop(s, k);
    } else {
      TopExists(rest);
      var m :| IsTop(rest, m);
      var top := if Less(m, k) then k else m;
      forall j | j in s && j != top ensures Less(j, top) {
        assert j == k || j in rest;
      }
      assert IsTop(s, top);
    }
  }

  function Top(s: set<Key>): (k: Key)
    requires s != {}
    ensures IsTop(s, k)
  {
    TopExists(s);
    var k :| k in s && IsTop(s, k);
    k
  }

  function Sorted(s: set<Key>): (r: seq<Key>)
    ensures |r| == |s|
  {
    if s == {} then [] else [Top(s)] + Sorted(s - {Top(s)})
  }

  lemma {:induction false} SortedEnumerates(s: set<Key>)
    ensures Descending(Sorted(s))
    ensures forall k :: k in Sorted(s) <==> k in s
  {
    if s != {} {
      SortedEnumerates(s - {Top(s)});
    }
  }

  /** The ORDER BY in the columns' own terms: newest first, and of rows created at the
      same time the one with the greater id. */
  lemma SortedIsNewestFirst(s: set<Key>, i: nat, j: nat)
    requires i < j < |Sorted(s)|
    ensures Sorted(s)[i].at >= Sorted(s)[j].at
    ensures Sorted(s)[i].at == Sorted(s)[j].at ==> Sorted(s)[i].id > Sorted(s)[j].id
  {
    SortedEnumerates(s);
  }

  /** A set of keys has one descending enumeration, so `Sorted` is what any
      correct execution of the ORDER BY returns. */
  lemma {:induction false} SortedIsUnique(s: set<Key>, r: seq<Key>)
    requires Descending(r)
    requires forall k :: k in r <==> k in s
    ensures r == Sorted(s)
  {
    assert |r| > 0 ==> r[0] in s;
    if s != {} {
      assert Top(s) in r;
      assert r[0] in s;
      assert r[0] == Top(s);
      var rest := s - {Top(s)};
      forall k ensures k in r[1..] <==> k in rest {
        if k in r[1..] {
          var i :| 1 <= i < |r| && r[i] == k;
          assert Less(r[i], r[0]);
        }
        if k in rest { assert k in r; }
      }
      SortedIsUnique(rest, r[1..]);
    }
  }

  // ---------- the page ----------

  datatype Page = Page(items: seq<Key>, next: Option<Key>)

  /** WHERE created_at < c.created_at OR (created_at = c.created_at AND id < c.id) */
  function Below(s: set<Key>, bound: Option<Key>): set<Key> {
    set k | k in s && (bound.None? || Less(k, bound.value))
  }

  function Limit(s: seq<Key>, n: nat): seq<Key> {
    if |s| > n then s[..n] else s
  }

  function ListPage(s: set<Key>, bound: Option<Key>, limit: nat, res: Resolution): Page
  {
    Cut(Limit(Sorted(Below(s, bound)), limit + 1), limit, res)
  }

  /** `rows` is what the query returned, at most one row more than the page. */
  function Cut(rows: seq<Key>, limit: nat, res: Resolution): Page
  {
    var hasMore := |rows| > limit;
    var items := if hasMore then rows[..limit] else rows;
    Page(items, if hasMore && items != [] then Some(Truncate(items[|items| - 1], res)) else None)
  }

  /** The page that starts `m` keys into a listing. */
  function Slice(all: seq<Key>, m: nat, limit: nat, res: Resolution): Page
    requires limit > 0 && m <= |all|
  {
    if m + limit < |all|
    then Page(all[m..m + limit], Some(Truncate(all[m + limit - 1], res)))
    else Page(all[m..], None)
  }

  function BoundAt(all: seq<Key>, m: nat, res: Resolution): Option<Key>
    requires m <= |all|
  {
    if m == 0 then None else Some(Truncate(all[m - 1], res))
  }

  lemma CutIsSlice(all: seq<Key>, m: nat, limit: nat, res: Resolution)
    requires limit > 0 && m <= |all|
    ensures Cut(Limit(all[m..], limit + 1), limit, res) == Slice(all, m, limit, res)
  {
    if m + limit < |all| {
      assert Limit(all[m..], limit + 1)[..limit] == all[m..m + limit];
    }
  }

  function Last(s: seq<Key>): Key
    requires s != []
  {
    s[|s| - 1]
  }

  /** What a page is: the `limit` greatest keys under the bound, in order, with a
      cursor exactly when some key under the bound is left out. */
  ghost predicate IsPage(page: Page, s: set<Key>, bound: Option<Key>, limit: nat, res: Resolution) {
    && Descending(page.items)
    && (forall k :: k in page.items ==> k in Below(s, bound))
    && (page.next.None? <==> forall k :: k in Below(s, bound) ==> k in page.items)
    && (page.next.Some? ==>
         && |page.items| == limit > 0
         && page.next == Some(Truncate(Last(page.items), res))
         && IsCursorOf(page.next.value, Last(page.items), res)
         && forall k :: k in Below(s, bound) ==> k in page.items || Less(k, Last(page.items)))
  }

  lemma FirstSliceIsPage(all: seq<Key>, limit: nat, res: Resolution)
    requires limit > 0 && Descending(all)
    ensures
      var page := Slice(all, 0, limit, res);
      && Descending(page.items)
      && (forall k :: k in page.items ==> k in all)
      && (page.next.None? <==> forall k :: k in all ==> k in page.items)
      && (page.next.Some? ==>
           && |page.items| == limit
           && page.next == Some(Truncate(Last(page.items), res))
           && forall k :: k in all ==> k in page.items || Less(k, Last(page.items)))
  {
    var page := Slice(all, 0, limit, res);
    if page.next.Some? {
      forall i | 0 <= i < |all| ensures all[i] in page.items || Less(all[i], Last(page.items)) {
        if i < limit { assert page.items[i] == all[i]; }
      }
      assert all[limit] in all && all[limit] !in page.items;
    } else {
      assert page.items == all;
    }
  }

  lemma PageMeaning(s: set<Key>, bound: Option<Key>, limit: nat, res: Resolution)
    requires limit > 0
    ensures IsPage(ListPage(s, bound, limit, res), s, bound, limit, res)
  {
    var all := Sorted(Below(s, bound));
    SortedEnumerates(Below(s, bound));
    assert all[0..] == all;
    CutIsSlice(all, 0, limit, res);
    FirstSliceIsPage(all, limit, res);
    NextIsCursor(s, bound, limit, res);
  }

  /** The cursor that is issued, for any limit: the page's last row, cut to a tick. */
  lemma NextIsCursor(s: set<Key>, bound: Option<Key>, limit: nat, res: Resolution)
    ensures
      var page := ListPage(s, bound, limit, res);
      page.next.Some? ==> page.items != [] && IsCursorOf(page.next.value, Last(page.items), res)
  {
    var page := ListPage(s, bound, limit, res);
    hide Sorted, Below, Limit;
    if page.next.Some? {
      TruncateIsCursor(Last(page.items), res);
    }
  }

  lemma PageWithin(s: set<Key>, bound: Option<Key>, limit: nat, res: Resolution)
    ensures forall k :: k in ListPage(s, bound, limit, res).items ==> k in s
  {
    var page, all := ListPage(s, bound, limit, res), Sorted(Below(s, bound));
    SortedEnumerates(Below(s, bound));
    forall k | k in page.items ensures k in s {
      var i :| 0 <= i < |page.items| && page.items[i] == k;
      assert all[i] == k && all[i] in all;
    }
  }

  /** The first key after position `m` that is under the cursor made of the key before
      `m`: where a reader who has passed `m` keys of the listing goes on. */
  function Resume(all: seq<Key>, m: nat, res: Resolution): (q: nat)
    requires m <= |all|
    ensures m <= q <= |all|
  {
    if m == 0 then 0 else FirstUnder(all, m, Truncate(all[m - 1], res))
  }

  function FirstUnder(all: seq<Key>, m: nat, bound: Key): (q: nat)
    requires m <= |all|
    ensures m <= q <= |all|
    ensures forall i :: m <= i < q ==> !Less(all[i], bound)
    ensures q < |all| ==> Less(all[q], bound)
    decreases |all| - m
  {
    if m < |all| && !Less(all[m], bound) then FirstUnder(all, m + 1, bound) else m
  }

  /** The cursor made of the key before `m` does not skip the key at `m`. */
  predicate CleanAt(all: seq<Key>, m: nat, res: Resolution) {
    0 < m < |all| ==> Less(all[m], Truncate(all[m - 1], res))
  }

  lemma CleanResumes(all: seq<Key>, m: nat, res: Resolution)
    requires m <= |all|
    ensures Resume(all, m, res) == m <==> CleanAt(all, m, res)
  {
  }

  lemma UnderIsSuffix(all: seq<Key>, m: nat, bound: Key, i: nat)
    requires Descending(all) && 0 < m <= |all| && !Less(all[m - 1], bound)
    requires i < |all|
    ensures Less(all[i], bound) <==> i >= FirstUnder(all, m, bound)
  {
    var q := FirstUnder(all, m, bound);
    if i < m - 1 {
      assert Less(all[m - 1], all[i]);
    } else if i > q {
      assert Less(all[i], all[q]);
    }
  }

  /** The keys under a bound that is not above the m-th key are a suffix of the listing. */
  lemma SuffixUnder(s: set<Key>, all: seq<Key>, m: nat, bound: Key)
    requires Descending(all) && forall k :: k in all <==> k in s
    requires 0 < m <= |all| && !Less(all[m - 1], bound)
    ensures Sorted(Below(s, Some(bound))) == all[FirstUnder(all, m, bound)..]
  {
    hide Sorted, FirstUnder, Less;
    var under, q := Below(s, Some(bound)), FirstUnder(all, m, bound);
    forall k ensures k in all[q..] <==> k in under {
      if k in under {
        var i :| 0 <= i < |all| && all[i] == k;
        UnderIsSuffix(all, m, bound, i);
        assert all[q..][i - q] == k;
      }
      if k in all[q..] {
        var i :| q <= i < |all| && all[i] == k;
        UnderIsSuffix(all, m, bound, i);
      }
    }
    SortedIsUnique(under, all[q..]);
  }

  lemma UnderBoundAt(s: set<Key>, m: nat, res: Resolution)
    requires m <= |s|
    ensures Sorted(Below(s, BoundAt(Sorted(s), m, res))) == Sorted(s)[Resume(Sorted(s), m, res)..]
  {
    var all := Sorted(s);
    SortedEnumerates(s);
    if m == 0 {
      assert Below(s, BoundAt(all, m, res)) == s;
      assert all[0..] == all;
    } else {
      TruncateWhole(all[m - 1], res);
      SuffixUnder(s, all, m, Truncate(all[m - 1], res));
    }
  }

  /** Paging by position, for every table and either resolution: after the first `m`
      keys of a listing, the next page is the slice of that same listing at the
      position where the cursor resumes; and that is `m` exactly when the cursor does
      not skip the key at `m`. */
  lemma PageIsSlice(s: set<Key>, m: nat, limit: nat, res: Resolution)
    requires limit > 0 && m <= |s|
    ensures
      var all := Sorted(s);
      && ListPage(s, BoundAt(all, m, res), limit, res) == Slice(all, Resume(all, m, res), limit, res)
      && (ListPage(s, BoundAt(all, m, res), limit, res) == Slice(all, m, limit, res) <==> CleanAt(all, m, res))
  {
    var all := Sorted(s);
    var bound, q := BoundAt(all, m, res), Resume(all, m, res);
    UnderBoundAt(s, m, res);
    CutIsSlice(all, q, limit, res);
    assert ListPage(s, bound, limit, res) == Cut(Limit(Sorted(Below(s, bound)), limit + 1), limit, res);
    CleanResumes(all, m, res);
    SortedEnumerates(s);
    SlicesDiffer(all, m, q, limit, res);
  }

  lemma SlicesDiffer(all: seq<Key>, m: nat, q: nat, limit: nat, res: Resolution)
    requires limit > 0 && Descending(all) && m <= q <= |all|
    ensures Slice(all, q, limit, res).items == Slice(all, m, limit, res).items ==> q == m
  {
    if m < q {
      assert Slice(all, m, limit, res).items[0] == all[m];
      assert q < |all| ==> Slice(all, q, limit, res).items[0] == all[q];
    }
  }
}
