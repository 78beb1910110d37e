/** Following nextCursor to the end, over a table that may change between reads. */
module KeysetWalk {
  import opened Prelude
  import opened Keyset

  /** One request of a walk: the matching keys when it was served, and its answer. */
  datatype Read = Read(snap: set<Key>, page: Page)

  function Emitted(walk: seq<Read>): (keys: seq<Key>) {
    if walk == [] then [] else Emitted(walk[..|walk| - 1]) + walk[|walk| - 1].page.items
  }

  function NextOf(walk: seq<Read>): Option<Key> {
    if walk == [] then None else walk[|walk| - 1].page.next
  }

  /** Each request passes the cursor that the previous answer carried. */
  ghost predicate IsWalk(walk: seq<Read>, limit: nat, res: Resolution) {
    walk == [] ||
    (var n := |walk| - 1;
     && IsWalk(walk[..n], limit, res)
     && (n > 0 ==> NextOf(walk[..n]).Some?)
     && walk[n].page == ListPage(walk[n].snap, NextOf(walk[..n]), limit, res))
  }

  ghost predicate Finished(walk: seq<Read>) {
    walk != [] && NextOf(walk).None?
  }

  /** `k` sorts after the page's last key, but not under the cursor made of it. */
  ghost predicate InGap(page: Page, k: Key) {
    page.next.Some? && page.items != [] && Less(k, Last(page.items)) && !Less(k, page.next.value)
  }

  /** `k` lies in the gap of some page of the walk. */
  ghost predicate Skipped(walk: seq<Read>, k: Key) {
    walk != [] && (InGap(walk[|walk| - 1].page, k) || Skipped(walk[..|walk| - 1], k))
  }

  ghost predicate NotUnder(k: Key, bound: Option<Key>) {
    bound.Some? ==> !Less(k, bound.value)
  }

  // ---------- one page at a time ----------

  lemma ItemsNotUnderNext(page: Page, s: set<Key>, bound: Option<Key>, limit: nat, res: Resolution, k: Key)
    requires IsPage(page, s, bound, limit, res)
    requires k in page.items
    ensures NotUnder(k, page.next)
  {
    if page.next.Some? {
      TruncateWhole(Last(page.items), res);
      var i :| 0 <= i < |page.items| && page.items[i] == k;
    }
  }

  /** The cursors of a walk descend, so what is not under one is under no later one. */
  lemma BoundsDescend(page: Page, s: set<Key>, bound: Option<Key>, limit: nat, res: Resolution, k: Key)
    requires IsPage(page, s, bound, limit, res)
    requires bound.Some? && NotUnder(k, bound)
    ensures k !in page.items && NotUnder(k, page.next)
  {
    if page.next.Some? {
      TruncateWhole(Last(page.items), res);
      assert Last(page.items) in page.items;
    }
  }

  lemma GapOfPage(page: Page, s: set<Key>, bound: Option<Key>, limit: nat, res: Resolution, k: Key)
    requires IsPage(page, s, bound, limit, res) && InGap(page, k)
    ensures k !in page.items && NotUnder(k, page.next)
    ensures bound.Some? ==> Less(k, bound.value)
  {
    assert Last(page.items) in page.items;
    if k in page.items {
      var i :| 0 <= i < |page.items| && page.items[i] == k;
    }
  }

  /** A page goes after everything that is not under its bound. */
  lemma AppendDescending(done: seq<Key>, page: Page, s: set<Key>, bound: Option<Key>, limit: nat, res: Resolution)
    requires IsPage(page, s, bound, limit, res)
    requires Descending(done)
    requires forall k :: k in done ==> bound.Some? && NotUnder(k, bound)
    ensures Descending(done + page.items)
  {
    var items := page.items;
    forall i, j | 0 <= i < j < |done + items| ensures Less((done + items)[j], (done + items)[i]) {
      if i < |done| <= j {
        assert done[i] in done && items[j - |done|] in items;
      }
    }
  }

  /** The inductive step of `IsWalk`, with the page's meaning in place of its definition. */
  lemma LastRead(walk: seq<Read>, limit: nat, res: Resolution)
    requires limit > 0 && walk != [] && IsWalk(walk, limit, res)
    ensures
      var before, read := walk[..|walk| - 1], walk[|walk| - 1];
      && IsWalk(before, limit, res)
      && (before != [] ==> NextOf(before).Some?)
      && IsPage(read.page, read.snap, NextOf(before), limit, res)
      && Emitted(walk) == Emitted(before) + read.page.items
  {
    var before, read := walk[..|walk| - 1], walk[|walk| - 1];
    PageMeaning(read.snap, NextOf(before), limit, res);
  }

  lemma NextRead(before: seq<Read>, read: Read, limit: nat, res: Resolution)
    requires IsWalk(before, limit, res)
    requires before != [] ==> NextOf(before).Some?
    requires read.page == ListPage(read.snap, NextOf(before), limit, res)
    ensures IsWalk(before + [read], limit, res)
    ensures NextOf(before + [read]) == read.page.next
  {
    assert (before + [read])[..|before|] == before;
  }

  // ---------- whole walks ----------

  lemma {:induction false} EmittedNotUnderNext(walk: seq<Read>, limit: nat, res: Resolution, k: Key)
    requires limit > 0 && IsWalk(walk, limit, res)
    requires k in Emitted(walk)
    ensures NotUnder(k, NextOf(walk))
  {
    var before, read := walk[..|walk| - 1], walk[|walk| - 1];
    LastRead(walk, limit, res);
    if k in read.page.items {
      ItemsNotUnderNext(read.page, read.snap, NextOf(before), limit, res, k);
    } else {
      assert before != [];
      EmittedNotUnderNext(before, limit, res, k);
      BoundsDescend(read.page, read.snap, NextOf(before), limit, res, k);
    }
  }

  /** Whatever happens to the table between the reads, and whatever the cursor
      rounds off, a walk emits strictly descending keys. */
  lemma {:induction false} WalkDescends(walk: seq<Read>, limit: nat, res: Resolution)
    requires limit > 0 && IsWalk(walk, limit, res)
    ensures Descending(Emitted(walk))
  {
    if walk != [] {
      var before, read := walk[..|walk| - 1], walk[|walk| - 1];
      LastRead(walk, limit, res);
      WalkDescends(before, limit, res);
      forall k | k in Emitted(before) ensures NextOf(before).Some? && NotUnder(k, NextOf(before)) {
        EmittedNotUnderNext(before, limit, res, k);
      }
      AppendDescending(Emitted(before), read.page, read.snap, NextOf(before), limit, res);
    }
  }

  lemma {:induction false} EmittedWasThere(walk: seq<Read>, limit: nat, res: Resolution, k: Key)
    requires limit > 0 && IsWalk(walk, limit, res)
    requires k in Emitted(walk)
    ensures exists i :: 0 <= i < |walk| && k in walk[i].snap
  {
    var before, read := walk[..|walk| - 1], walk[|walk| - 1];
    LastRead(walk, limit, res);
    if k !in read.page.items {
      EmittedWasThere(before, limit, res, k);
      var i :| 0 <= i < |before| && k in before[i].snap;
      assert k in walk[i].snap;
    }
  }

  /** A key in a page's gap is never emitted, by that page or by any other. */
  lemma {:induction false} SkippedIsLost(walk: seq<Read>, limit: nat, res: Resolution, k: Key)
    requires limit > 0 && IsWalk(walk, limit, res)
    requires Skipped(walk, k)
    ensures k !in Emitted(walk) && NotUnder(k, NextOf(walk))
  {
    var before, read := walk[..|walk| - 1], walk[|walk| - 1];
    LastRead(walk, limit, res);
    if InGap(read.page, k) {
      GapOfPage(read.page, read.snap, NextOf(before), limit, res, k);
      if k in Emitted(before) {
        EmittedNotUnderNext(before, limit, res, k);
      }
    } else {
      SkippedIsLost(before, limit, res, k);
      BoundsDescend(read.page, read.snap, NextOf(before), limit, res, k);
    }
  }

  /** A key that matched at every read was emitted, fell into a gap, or is still ahead. */
  lemma {:induction false} NotSkippedOtherwise(walk: seq<Read>, limit: nat, res: Resolution, k: Key)
    requires limit > 0 && IsWalk(walk, limit, res)
    requires forall i :: 0 <= i < |walk| ==> k in walk[i].snap
    requires k !in Emitted(walk) && !Skipped(walk, k)
    ensures walk != [] ==> NextOf(walk).Some? && Less(k, NextOf(walk).value)
  {
    if walk != [] {
      var before, read := walk[..|walk| - 1], walk[|walk| - 1];
      LastRead(walk, limit, res);
      NotSkippedOtherwise(before, limit, res, k);
      assert k in Below(read.snap, NextOf(before));
    }
  }

  /** The whole law of a finished walk, over a changing table: a key that matched at
      every read is emitted unless it fell between some page's last key and the
      cursor made from that key; then it is lost for good. */
  lemma WalkEmitsExactly(walk: seq<Read>, limit: nat, res: Resolution, k: Key)
    requires limit > 0 && IsWalk(walk, limit, res) && Finished(walk)
    requires forall i :: 0 <= i < |walk| ==> k in walk[i].snap
    ensures k in Emitted(walk) <==> !Skipped(walk, k)
  {
    if Skipped(walk, k) {
      SkippedIsLost(walk, limit, res, k);
    } else if k !in Emitted(walk) {
      NotSkippedOtherwise(walk, limit, res, k);
    }
  }

  /** A page's gap does not reach outside the tick of the cursor: none with the stored
      time, the millisecond of the page's last row with the one that the code has. */
  lemma GapIsOneTick(page: Page, s: set<Key>, bound: Option<Key>, limit: nat, res: Resolution, k: Key)
    requires IsPage(page, s, bound, limit, res) && InGap(page, k)
    ensures res.Millis? && k.at / 1000 == Last(page.items).at / 1000
  {
    var c, last := page.next.value, Last(page.items);
    assert IsCursorOf(c, last, res);
    assert res.Millis? ==> c.at <= k.at <= last.at < c.at + 1000;
  }

  /** So whatever a walk loses was created in the same millisecond as a row that it
      listed, and sorts after that row. */
  lemma {:induction false} SkippedSharesItsMillisecond(walk: seq<Read>, limit: nat, res: Resolution, k: Key)
    returns (e: Key)
    requires limit > 0 && IsWalk(walk, limit, res) && Skipped(walk, k)
    ensures res.Millis? && e in Emitted(walk) && Less(k, e) && k.at / 1000 == e.at / 1000
  {
    var before, read := walk[..|walk| - 1], walk[|walk| - 1];
    LastRead(walk, limit, res);
    if InGap(read.page, k) {
      GapIsOneTick(read.page, read.snap, NextOf(before), limit, res, k);
      e := Last(read.page.items);
      assert e in read.page.items;
    } else {
      e := SkippedSharesItsMillisecond(before, limit, res, k);
    }
  }

  ghost predicate AllWhole(walk: seq<Read>, res: Resolution) {
    forall i, k :: 0 <= i < |walk| && k in walk[i].snap ==> Whole(k, res)
  }

  lemma {:induction false} WholeSkipsNothing(walk: seq<Read>, limit: nat, res: Resolution, k: Key)
    requires limit > 0 && IsWalk(walk, limit, res) && AllWhole(walk, res)
    ensures !Skipped(walk, k)
  {
    if walk != [] {
      var before, read := walk[..|walk| - 1], walk[|walk| - 1];
      LastRead(walk, limit, res);
      forall i, k | 0 <= i < |before| && k in before[i].snap ensures Whole(k, res) {
        assert before[i] == walk[i];
      }
      WholeSkipsNothing(before, limit, res, k);
      if read.page.next.Some? {
        assert Last(read.page.items) in read.page.items;
        TruncateWhole(Last(read.page.items), res);
      }
    }
  }

  // ---------- ids ----------

  /** One id is one row: it has the same creation time at every read. */
  ghost predicate StableKeys(walk: seq<Read>) {
    forall i, j, k, l ::
      0 <= i < |walk| && 0 <= j < |walk| && k in walk[i].snap && l in walk[j].snap && k.id == l.id ==> k == l
  }

  ghost predicate DistinctIds(keys: seq<Key>) {
    forall i, j :: 0 <= i < j < |keys| ==> keys[i].id != keys[j].id
  }

  lemma {:induction false} DescendingOnce(keys: seq<Key>, k: Key)
    requires Descending(keys)
    ensures multiset(keys)[k] == if k in keys then 1 else 0
  {
    if keys != [] {
      assert keys == [keys[0]] + keys[1..];
      assert keys[0] !in keys[1..];
      DescendingOnce(keys[1..], k);
    }
  }

  /** No row is listed twice, even when other rows come, go and change between pages. */
  lemma WalkRepeatsNoId(walk: seq<Read>, limit: nat, res: Resolution)
    requires limit > 0 && IsWalk(walk, limit, res) && StableKeys(walk)
    ensures DistinctIds(Emitted(walk))
  {
    var keys := Emitted(walk);
    WalkDescends(walk, limit, res);
    forall i, j | 0 <= i < j < |keys| ensures keys[i].id != keys[j].id {
      EmittedWasThere(walk, limit, res, keys[i]);
      EmittedWasThere(walk, limit, res, keys[j]);
    }
  }

  /** What matched throughout is listed exactly once, or never if it fell into a gap. */
  lemma WalkCounts(walk: seq<Read>, limit: nat, res: Resolution, k: Key)
    requires limit > 0 && IsWalk(walk, limit, res) && Finished(walk)
    requires forall i :: 0 <= i < |walk| ==> k in walk[i].snap
    ensures multiset(Emitted(walk))[k] == if Skipped(walk, k) then 0 else 1
  {
    WalkEmitsExactly(walk, limit, res, k);
    WalkDescends(walk, limit, res);
    DescendingOnce(Emitted(walk), k);
  }

  /** With whole cursor times nothing falls into a gap. */
  lemma WalkListsOnce(walk: seq<Read>, limit: nat, res: Resolution, k: Key)
    requires limit > 0 && IsWalk(walk, limit, res) && Finished(walk)
    requires AllWhole(walk, res)
    requires forall i :: 0 <= i < |walk| ==> k in walk[i].snap
    ensures multiset(Emitted(walk))[k] == 1
  {
    WholeSkipsNothing(walk, limit, res, k);
    WalkCounts(walk, limit, res, k);
  }
}
