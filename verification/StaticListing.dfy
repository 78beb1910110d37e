/** Walks over a table that nobody changes: they end, and list the table in order,
    exactly when no page boundary falls inside one cursor tick. */
module StaticListing {
  import opened Prelude
  import opened Keyset
  import opened KeysetWalk

  lemma NextIsSmaller(s: set<Key>, bound: Option<Key>, limit: nat, res: Resolution)
    requires limit > 0
    ensures
      var page := ListPage(s, bound, limit, res);
      page.next.Some? ==> Below(s, page.next) < Below(s, bound) && |Below(s, page.next)| < |Below(s, bound)|
  {
    var page := ListPage(s, bound, limit, res);
    PageMeaning(s, bound, limit, res);
    if page.next.Some? {
      var last := Last(page.items);
      assert last in page.items;
      TruncateWhole(last, res);
      var under, next := Below(s, bound), Below(s, page.next);
      assert last in under && last !in next;
      assert next <= under - {last};
      SubsetSize(next, under - {last});
    }
  }

  lemma {:induction false} SubsetSize<T>(a: set<T>, b: set<T>)
    requires a <= b
    ensures |a| <= |b|
  {
    if a != {} {
      var x :| x in a;
      SubsetSize(a - {x}, b - {x});
    }
  }

  ghost predicate AllOver(walk: seq<Read>, s: set<Key>) {
    forall i :: 0 <= i < |walk| ==> walk[i].snap == s
  }

  /** Request page after page until nextCursor is null. */
  function WalkFrom(s: set<Key>, bound: Option<Key>, limit: nat, res: Resolution): (walk: seq<Read>)
    requires limit > 0
    ensures |walk| > 0 && AllOver(walk, s)
    decreases |Below(s, bound)|
  {
    var page := ListPage(s, bound, limit, res);
    NextIsSmaller(s, bound, limit, res);
    [Read(s, page)] + if page.next.None? then [] else WalkFrom(s, page.next, limit, res)
  }

  lemma {:induction false} EmittedSplits(a: seq<Read>, b: seq<Read>)
    ensures Emitted(a + b) == Emitted(a) + Emitted(b)
  {
    if b == [] {
      assert a + b == a;
    } else {
      var front := b[..|b| - 1];
      EmittedSplits(a, front);
      assert (a + b)[..|a + b| - 1] == a + front;
      assert (a + b)[|a + b| - 1] == b[|b| - 1];
      assert Emitted(a + b) == Emitted(a + front) + b[|b| - 1].page.items;
      assert Emitted(b) == Emitted(front) + b[|b| - 1].page.items;
    }
  }

  lemma EmittedFirst(s: set<Key>, bound: Option<Key>, limit: nat, res: Resolution)
    requires limit > 0
    ensures
      var page := ListPage(s, bound, limit, res);
      Emitted(WalkFrom(s, bound, limit, res)) ==
      page.items + if page.next.None? then [] else Emitted(WalkFrom(s, page.next, limit, res))
  {
    var page := ListPage(s, bound, limit, res);
    NextIsSmaller(s, bound, limit, res);
    var first := [Read(s, page)];
    assert Emitted(first) == page.items by {
      assert first[..0] == [];
    }
    if page.next.Some? {
      EmittedSplits(first, WalkFrom(s, page.next, limit, res));
    }
  }

  lemma WalkFromSteps(before: seq<Read>, s: set<Key>, bound: Option<Key>, limit: nat, res: Resolution)
    requires limit > 0
    ensures
      var page := ListPage(s, bound, limit, res);
      before + WalkFrom(s, bound, limit, res) ==
      before + [Read(s, page)] + if page.next.None? then [] else WalkFrom(s, page.next, limit, res)
  {
  }

  lemma {:induction false} WalkFromContinues(
    before: seq<Read>, s: set<Key>, bound: Option<Key>, limit: nat, res: Resolution)
    requires limit > 0 && IsWalk(before, limit, res)
    requires NextOf(before) == bound && (before != [] ==> bound.Some?)
    ensures IsWalk(before + WalkFrom(s, bound, limit, res), limit, res)
    ensures Finished(before + WalkFrom(s, bound, limit, res))
    decreases |Below(s, bound)|
  {
    var page := ListPage(s, bound, limit, res);
    var more := before + [Read(s, page)];
    NextIsSmaller(s, bound, limit, res);
    NextRead(before, Read(s, page), limit, res);
    WalkFromSteps(before, s, bound, limit, res);
    if page.next.Some? {
      WalkFromContinues(more, s, page.next, limit, res);
    } else {
      assert more + [] == more;
    }
  }

  function Walk(s: set<Key>, limit: nat, res: Resolution): seq<Read>
    requires limit > 0
  {
    WalkFrom(s, None, limit, res)
  }

  lemma WalkIsWalk(s: set<Key>, limit: nat, res: Resolution)
    requires limit > 0
    ensures
      var walk := Walk(s, limit, res);
      && IsWalk(walk, limit, res) && Finished(walk)
      && AllOver(walk, s)
  {
    WalkFromContinues([], s, None, limit, res);
    assert [] + Walk(s, limit, res) == Walk(s, limit, res);
  }

  /** What a walk omits: exactly the keys between a page's last key and its cursor. */
  lemma WalkOmitsExactly(s: set<Key>, limit: nat, res: Resolution, k: Key)
    requires limit > 0
    ensures Descending(Emitted(Walk(s, limit, res)))
    ensures k in Emitted(Walk(s, limit, res)) <==> k in s && !Skipped(Walk(s, limit, res), k)
  {
    var walk := Walk(s, limit, res);
    WalkIsWalk(s, limit, res);
    WalkDescends(walk, limit, res);
    if k in s {
      WalkEmitsExactly(walk, limit, res, k);
    } else if k in Emitted(walk) {
      EmittedWasThere(walk, limit, res, k);
    }
  }

  lemma WholeWalkListsAll(s: set<Key>, limit: nat, res: Resolution)
    requires limit > 0
    requires forall k :: k in s ==> Whole(k, res)
    ensures Emitted(Walk(s, limit, res)) == Sorted(s)
  {
    var walk := Walk(s, limit, res);
    WalkIsWalk(s, limit, res);
    forall k ensures k in Emitted(walk) <==> k in s {
      WalkOmitsExactly(s, limit, res, k);
      WholeSkipsNothing(walk, limit, res, k);
    }
    WalkOmitsExactly(s, limit, res, Key(0, 0));
    SortedIsUnique(s, Emitted(walk));
  }

  /** With a cursor that carries the time as stored, the pages are the whole listing. */
  lemma ExactWalkListsAll(s: set<Key>, limit: nat)
    requires limit > 0
    ensures Emitted(Walk(s, limit, Exact)) == Sorted(s)
  {
    WholeWalkListsAll(s, limit, Exact);
  }

  // ---------- exactly when nothing is lost ----------

  /** At each page boundary of the sorted listing, the next row is under the cursor
      that the row before it gives. */
  predicate Lossless(all: seq<Key>, limit: nat, res: Resolution)
    requires limit > 0
  {
    |all| > limit ==> CleanAt(all, limit, res) && Lossless(all[limit..], limit, res)
  }

  lemma FirstPage(s: set<Key>, bound: Option<Key>, limit: nat, res: Resolution)
    requires limit > 0
    ensures ListPage(s, bound, limit, res) == Slice(Sorted(Below(s, bound)), 0, limit, res)
  {
    var all := Sorted(Below(s, bound));
    assert all[0..] == all;
    CutIsSlice(all, 0, limit, res);
  }

  /** The cursor made of the row before the boundary, used on the rest of the listing. */
  lemma UnderBoundary(s: set<Key>, all: seq<Key>, limit: nat, next: Key)
    requires 0 < limit < |all| && Descending(all)
    requires forall k :: k in all ==> k in s
    requires forall k :: k in s && Less(k, all[limit - 1]) ==> k in all
    requires !Less(all[limit - 1], next)
    requires Less(all[limit], next)
    ensures Sorted(Below(s, Some(next))) == all[limit..]
  {
    var rest, under := all[limit..], Below(s, Some(next));
    forall k ensures k in rest <==> k in under {
      if k in rest {
        var i :| limit <= i < |all| && all[i] == k;
        assert all[i] in all;
      }
      if k in under {
        var i :| 0 <= i < |all| && all[i] == k;
        assert i >= limit;
        assert rest[i - limit] == k;
      }
    }
    SortedIsUnique(under, rest);
  }

  lemma CleanBoundary(s: set<Key>, bound: Option<Key>, limit: nat, res: Resolution)
    requires 0 < limit < |Below(s, bound)|
    requires
      var all := Sorted(Below(s, bound));
      Less(all[limit], Truncate(all[limit - 1], res))
    ensures
      var all := Sorted(Below(s, bound));
      Sorted(Below(s, Some(Truncate(all[limit - 1], res)))) == all[limit..]
  {
    var all := Sorted(Below(s, bound));
    SortedEnumerates(Below(s, bound));
    TruncateWhole(all[limit - 1], res);
    assert all[limit - 1] in Below(s, bound);
    UnderBoundary(s, all, limit, Truncate(all[limit - 1], res));
  }

  lemma {:induction false} EmittedIsUnderBound(s: set<Key>, bound: Option<Key>, limit: nat, res: Resolution, k: Key)
    requires limit > 0
    requires k in Emitted(WalkFrom(s, bound, limit, res))
    ensures k in Below(s, bound)
    decreases |Below(s, bound)|
  {
    var page := ListPage(s, bound, limit, res);
    PageMeaning(s, bound, limit, res);
    NextIsSmaller(s, bound, limit, res);
    EmittedFirst(s, bound, limit, res);
    if k !in page.items {
      EmittedIsUnderBound(s, page.next, limit, res, k);
    }
  }

  ghost predicate Covers(keys: seq<Key>, all: seq<Key>) {
    forall k :: k in all ==> k in keys
  }

  lemma CoverSplits(all: seq<Key>, limit: nat, rest: seq<Key>)
    requires limit <= |all| && Descending(all)
    ensures Covers(all[..limit] + rest, all) <==> Covers(rest, all[limit..])
  {
    if Covers(all[..limit] + rest, all) {
      forall k | k in all[limit..] ensures k in rest {
        assert k in all && k !in all[..limit];
      }
    }
    if Covers(rest, all[limit..]) {
      assert all == all[..limit] + all[limit..];
    }
  }

  lemma LostAtBoundary(s: set<Key>, next: Key, limit: nat, res: Resolution, all: seq<Key>, k: Key)
    requires limit > 0 && !Less(k, next) && k in all
    ensures !Covers(Emitted(WalkFrom(s, Some(next), limit, res)), all)
  {
    if k in Emitted(WalkFrom(s, Some(next), limit, res)) {
      EmittedIsUnderBound(s, Some(next), limit, res, k);
    }
  }

  lemma {:induction false} LosslessIffCovered(s: set<Key>, bound: Option<Key>, limit: nat, res: Resolution)
    requires limit > 0
    ensures
      var all := Sorted(Below(s, bound));
      Lossless(all, limit, res) <==> Covers(Emitted(WalkFrom(s, bound, limit, res)), all)
    decreases |Below(s, bound)|
  {
    hide Sorted, WalkFrom, Emitted, ListPage, Truncate, Below;
    var all := Sorted(Below(s, bound));
    EmittedFirst(s, bound, limit, res);
    FirstPage(s, bound, limit, res);
    if |all| > limit {
      var next := Truncate(all[limit - 1], res);
      SortedEnumerates(Below(s, bound));
      CoverSplits(all, limit, Emitted(WalkFrom(s, Some(next), limit, res)));
      NextIsSmaller(s, bound, limit, res);
      if Less(all[limit], next) {
        CleanBoundary(s, bound, limit, res);
        LosslessIffCovered(s, Some(next), limit, res);
      } else {
        LostAtBoundary(s, next, limit, res, all[limit..], all[limit..][0]);
      }
    }
  }

  /** A walk lists the whole table, in order, if and only if no page boundary falls
      between two rows that the cursor cannot tell apart in time. */
  lemma WalkIsCompleteIff(s: set<Key>, limit: nat, res: Resolution)
    requires limit > 0
    ensures Emitted(Walk(s, limit, res)) == Sorted(s) <==> Lossless(Sorted(s), limit, res)
  {
    var emitted := Emitted(Walk(s, limit, res));
    assert Below(s, None) == s;
    LosslessIffCovered(s, None, limit, res);
    SortedEnumerates(s);
    if Lossless(Sorted(s), limit, res) {
      forall k ensures k in emitted <==> k in s {
        if k in emitted { EmittedIsUnderBound(s, None, limit, res, k); }
        if k in s { assert k in Sorted(s); }
      }
      WalkOmitsExactly(s, limit, res, Key(0, 0));
      SortedIsUnique(s, emitted);
    }
  }

  lemma WholeIsLossless(s: set<Key>, limit: nat, res: Resolution)
    requires limit > 0
    requires forall k :: k in s ==> Whole(k, res)
    ensures Lossless(Sorted(s), limit, res)
  {
    WholeWalkListsAll(s, limit, res);
    WalkIsCompleteIff(s, limit, res);
  }

  // ---------- where each page starts ----------

  function Min(a: nat, b: nat): nat {
    if a < b then a else b
  }

  /** How many rows of the listing lie before the cursor that opens page `k`. */
  function Passed(all: seq<Key>, k: nat, limit: nat, res: Resolution): (m: nat)
    ensures m <= |all|
    decreases k, 0
  {
    if k == 0 then 0 else Min(PageStart(all, k - 1, limit, res) + limit, |all|)
  }

  /** The position of page `k`, counted from 0, in the listing. */
  function PageStart(all: seq<Key>, k: nat, limit: nat, res: Resolution): (q: nat)
    ensures q <= |all|
    decreases k, 1
  {
    Resume(all, Passed(all, k, limit, res), res)
  }

  /** None of the first `k` page boundaries of the listing skips a row. */
  predicate CleanTo(all: seq<Key>, k: nat, limit: nat, res: Resolution) {
    k == 0 || (CleanTo(all, k - 1, limit, res) && CleanAt(all, k * limit, res))
  }

  lemma {:induction false} PageStartAtLeast(all: seq<Key>, k: nat, limit: nat, res: Resolution)
    ensures PageStart(all, k, limit, res) >= Min(k * limit, |all|)
  {
    if k > 0 {
      PageStartAtLeast(all, k - 1, limit, res);
      assert k * limit == (k - 1) * limit + limit;
    }
  }

  /** A page starts `limit` rows after the one before it, from the first one on, if
      and only if no boundary up to it skips a row. */
  lemma {:induction false} PageStartsInStep(all: seq<Key>, k: nat, limit: nat, res: Resolution)
    requires k == 0 || k * limit < |all|
    ensures PageStart(all, k, limit, res) == k * limit <==> CleanTo(all, k, limit, res)
  {
    if k > 0 {
      hide Resume, CleanAt;
      assert k * limit == (k - 1) * limit + limit;
      PageStartsInStep(all, k - 1, limit, res);
      PageStartAtLeast(all, k - 1, limit, res);
      CleanResumes(all, k * limit, res);
      var before, m := PageStart(all, k - 1, limit, res), Passed(all, k, limit, res);
      assert m == Min(before + limit, |all|) && PageStart(all, k, limit, res) == Resume(all, m, res);
      assert before == (k - 1) * limit ==> m == k * limit;
      assert CleanTo(all, k, limit, res) <==> CleanTo(all, k - 1, limit, res) && CleanAt(all, k * limit, res);
    }
  }

  lemma {:induction false} CleanToShifts(all: seq<Key>, k: nat, limit: nat, res: Resolution)
    requires 0 < limit <= |all|
    ensures CleanTo(all, k + 1, limit, res) <==> CleanAt(all, limit, res) && CleanTo(all[limit..], k, limit, res)
  {
    assert (k + 1) * limit == k * limit + limit;
    if k > 0 {
      CleanToShifts(all, k - 1, limit, res);
      assert k * limit >= limit by { assert k * limit == (k - 1) * limit + limit; }
      assert CleanAt(all, k * limit + limit, res) <==> CleanAt(all[limit..], k * limit, res);
    } else {
      assert CleanTo(all, 0, limit, res);
    }
  }

  lemma {:induction false} ShortIsClean(all: seq<Key>, k: nat, limit: nat, res: Resolution)
    requires limit > 0 && |all| <= limit
    ensures CleanTo(all, k, limit, res)
  {
    if k > 0 {
      ShortIsClean(all, k - 1, limit, res);
      assert k * limit == (k - 1) * limit + limit;
    }
  }

  lemma CleanToRest(all: seq<Key>, limit: nat, res: Resolution)
    requires 0 < limit <= |all|
    ensures (forall k: nat :: CleanTo(all, k, limit, res)) <==>
            CleanAt(all, limit, res) && forall k: nat :: CleanTo(all[limit..], k, limit, res)
  {
    if forall k: nat :: CleanTo(all, k, limit, res) {
      assert CleanTo(all, 1, limit, res);
      CleanToShifts(all, 0, limit, res);
      forall k: nat ensures CleanTo(all[limit..], k, limit, res) {
        assert CleanTo(all, k + 1, limit, res);
        CleanToShifts(all, k, limit, res);
      }
    } else {
      var k: nat :| !CleanTo(all, k, limit, res);
      CleanToShifts(all, k - 1, limit, res);
    }
  }

  /** A listing is lossless exactly when every page of it starts in step. */
  lemma {:induction false} LosslessIsCleanTo(all: seq<Key>, limit: nat, res: Resolution)
    requires limit > 0
    ensures Lossless(all, limit, res) <==> forall k: nat :: CleanTo(all, k, limit, res)
    decreases |all|
  {
    if |all| <= limit {
      forall k: nat ensures CleanTo(all, k, limit, res) {
        ShortIsClean(all, k, limit, res);
      }
    } else {
      LosslessIsCleanTo(all[limit..], limit, res);
      CleanToRest(all, limit, res);
    }
  }

  /** The millisecond cursor does lose rows: one row more than a page, all created
      in the same microsecond of a running millisecond. */
  lemma MillisecondCursorLosesRows(limit: nat) returns (s: set<Key>)
    requires limit > 0
    ensures |s| == limit + 1
    ensures Emitted(Walk(s, limit, Millis)) != Sorted(s)
  {
    var all := seq(limit + 1, i requires 0 <= i <= limit => Key(1001, limit - i));
    s := set k | k in all;
    SortedIsUnique(s, all);
    assert Truncate(all[limit - 1], Millis) == Key(1000, 1);
    assert all[limit] == Key(1001, 0);
    WalkIsCompleteIff(s, limit, Millis);
  }
}
