/** The Pinia list store, shared by customers and admins: a page of items, the
    search term, and the stack of cursors behind Previous and Next. */
module ListStore {
  import opened Prelude

  /** What a request for one page ends with; `Lost` is a rejected promise. */
  datatype Reply<T> = Arrived(items: seq<T>, next: Option<string>) | Lost

  /** GET /customers or GET /admins, as a function of the search term and the cursor. */
  type Server<!T> = (string, Option<string>) -> Reply<T>

  /** The refs of the store. `error` is whether an error message is set. */
  datatype View<T> = View(
    items: seq<T>, search: string, loading: bool, error: bool,
    stack: seq<Option<string>>, next: Option<string>)

  predicate HasPrev<T>(v: View<T>) {
    |v.stack| > 1
  }

  predicate HasNext<T>(v: View<T>) {
    v.next.Some?
  }

  /** `if (!nextCursor.value) return`: null and the empty text are both falsy. */
  predicate CanNext<T>(v: View<T>) {
    v.next.Some? && v.next.value != ""
  }

  function Top<T>(v: View<T>): Option<string>
    requires v.stack != []
  {
    v.stack[|v.stack| - 1]
  }

  // ---------- String.prototype.trim (ECMA-262 section 22.1.3.32) ----------

  predicate IsSpace(c: char) {
    var u := c as int;
    || 9 <= u <= 13 || u == 0x20 || u == 0xA0 || u == 0x1680 || 0x2000 <= u <= 0x200A
    || u == 0x2028 || u == 0x2029 || u == 0x202F || u == 0x205F || u == 0x3000 || u == 0xFEFF
  }

  /** Tab to carriage return, the space, and the other characters that count as space. */
  const WHITE_SPACE := "\t\n\U{B}\U{C}\r \U{A0}\U{1680}\U{2000}\U{2001}\U{2002}\U{2003}\U{2004}\U{2005}\U{2006}" +
    "\U{2007}\U{2008}\U{2009}\U{200A}\U{2028}\U{2029}\U{202F}\U{205F}\U{3000}\U{FEFF}"

  lemma SpaceTable(c: char)
    ensures IsSpace(c) <==> c in WHITE_SPACE
  {
  }

  function Trim(s: string): string
    decreases |s|
  {
    if s == "" then s
    else if IsSpace(s[0]) then Trim(s[1..])
    else if IsSpace(s[|s| - 1]) then Trim(s[..|s| - 1])
    else s
  }

  predicate AllSpaces(s: string) {
    forall i :: 0 <= i < |s| ==> IsSpace(s[i])
  }

  /** `s[i..j]` is `s` without the spaces at both ends. */
  predicate IsMiddle(s: string, i: nat, j: nat) {
    && i <= j <= |s| && AllSpaces(s[..i]) && AllSpaces(s[j..])
    && (i < j ==> !IsSpace(s[i]) && !IsSpace(s[j - 1]))
  }

  lemma AfterSpace(s: string, i: nat, j: nat)
    requires s != "" && IsSpace(s[0]) && IsMiddle(s[1..], i, j)
    ensures IsMiddle(s, i + 1, j + 1) && s[1..][i..j] == s[i + 1..j + 1]
  {
    hide IsSpace;
    assert s[..i + 1] == [s[0]] + s[1..][..i];
    assert s[j + 1..] == s[1..][j..];
  }

  lemma BeforeSpace(s: string, i: nat, j: nat)
    requires s != "" && IsSpace(s[|s| - 1]) && IsMiddle(s[..|s| - 1], i, j)
    ensures IsMiddle(s, i, j) && s[..|s| - 1][i..j] == s[i..j]
  {
    hide IsSpace;
    assert s[..i] == s[..|s| - 1][..i];
    assert s[j..] == s[..|s| - 1][j..] + [s[|s| - 1]];
  }

  /** Trimming takes the spaces at both ends, and nothing else. */
  lemma {:induction false} TrimMeaning(s: string) returns (i: nat, j: nat)
    ensures IsMiddle(s, i, j) && Trim(s) == s[i..j]
    decreases |s|
  {
    if s != "" && IsSpace(s[0]) {
      var k, l := TrimMeaning(s[1..]);
      hide IsSpace, IsMiddle;
      AfterSpace(s, k, l);
      i, j := k + 1, l + 1;
    } else if s != "" && IsSpace(s[|s| - 1]) {
      i, j := TrimMeaning(s[..|s| - 1]);
      hide IsSpace, IsMiddle;
      BeforeSpace(s, i, j);
    } else {
      hide IsSpace;
      i, j := 0, |s|;
      assert s[..0] == "" && s[|s|..] == "";
    }
  }

  // ---------- the two halves of load(), around its await ----------

  function Started<T>(v: View<T>): View<T> {
    v.(loading := true, error := false)
  }

  function Settled<T>(v: View<T>, reply: Reply<T>): View<T> {
    match reply
    case Arrived(items, next) => v.(items := items, next := next, loading := false)
    case Lost => v.(items := [], next := None, error := true, loading := false)
  }

  // ---------- what each action does before its load ----------

  function Rewound<T>(v: View<T>): View<T> {
    v.(stack := [None])
  }

  function Searched<T>(v: View<T>, term: string): View<T> {
    v.(search := Trim(term), stack := [None])
  }

  function Pushed<T>(v: View<T>): View<T>
    requires CanNext(v)
  {
    v.(stack := v.stack + [v.next])
  }

  function Popped<T>(v: View<T>): View<T>
    requires HasPrev(v)
  {
    v.(stack := v.stack[..|v.stack| - 1])
  }

  /** A load that nothing interrupts, for the cursor on top of the stack. */
  function Loaded<T>(v: View<T>, server: Server<T>, online: bool): View<T>
    requires v.stack != []
  {
    Settled(Started(v), if online then server(v.search, Top(v)) else Lost)
  }

  class Store<T> {
    var items: seq<T>
    var search: string
    var loading: bool
    var error: bool
    var cursorStack: seq<Option<string>>
    var nextCursor: Option<string>

    ghost function Snapshot(): View<T>
      reads this
    {
      View(items, search, loading, error, cursorStack, nextCursor)
    }

    constructor ()
      ensures Snapshot() == View([], "", false, false, [None], None)
    {
      items, search, loading, error := [], "", false, false;
      cursorStack, nextCursor := [None], None;
    }

    method Load(cursor: Option<string>, server: Server<T>, online: bool)
      modifies this
      ensures Snapshot() == Settled(Started(old(Snapshot())), if online then server(old(search), cursor) else Lost)
    {
      loading := true;
      error := false;
      var reply := if online then server(search, cursor) else Lost;
      match reply {
        case Arrived(arrived, next) =>
          items := arrived;
          nextCursor := next;
        case Lost =>
          error := true;
          items := [];
          nextCursor := None;
      }
      loading := false;
    }

    method Refetch(server: Server<T>, online: bool)
      modifies this
      ensures Snapshot() == Loaded(Rewound(old(Snapshot())), server, online)
    {
      cursorStack := [None];
      Load(None, server, online);
    }

    method FetchNext(server: Server<T>, online: bool)
      modifies this
      ensures Snapshot() ==
              if CanNext(old(Snapshot())) then Loaded(Pushed(old(Snapshot())), server, online) else old(Snapshot())
    {
      if nextCursor.None? || nextCursor.value == "" {
        return;
      }
      cursorStack := cursorStack + [nextCursor];
      Load(nextCursor, server, online);
    }

    method FetchPrev(server: Server<T>, online: bool)
      modifies this
      ensures Snapshot() ==
              if HasPrev(old(Snapshot())) then Loaded(Popped(old(Snapshot())), server, online) else old(Snapshot())
    {
      if |cursorStack| <= 1 {
        return;
      }
      cursorStack := cursorStack[..|cursorStack| - 1];
      Load(cursorStack[|cursorStack| - 1], server, online);
    }

    method SetSearch(term: string, server: Server<T>, online: bool)
      modifies this
      ensures Snapshot() == Loaded(Searched(old(Snapshot()), term), server, online)
    {
      search := Trim(term);
      Refetch(server, online);
    }

    /** create, update, remove, block, unblock: a refused request throws before the
        refetch, an accepted one refetches from the server as it is afterwards. */
    method Mutate(accepted: bool, after: Server<T>, online: bool)
      modifies this
      ensures Snapshot() == if accepted then Loaded(Rewound(old(Snapshot())), after, online) else old(Snapshot())
    {
      if !accepted {
        return;
      }
      Refetch(after, online);
    }
  }

  // ---------- runs of completed actions ----------

  datatype Action<!T> =
    | FetchFirst(online: bool)
    | FetchNext(online: bool)
    | FetchPrev(online: bool)
    | SetSearch(term: string, online: bool)
    | Mutate(accepted: bool, after: Server<T>, online: bool)

  /** The store and the server that its requests reach. */
  datatype World<!T> = World(view: View<T>, server: Server<T>)

  function Act<T>(w: World<T>, a: Action<T>): World<T> {
    var v := w.view;
    match a
    case FetchFirst(online) => w.(view := Loaded(Rewound(v), w.server, online))
    case FetchNext(online) => if CanNext(v) then w.(view := Loaded(Pushed(v), w.server, online)) else w
    case FetchPrev(online) => if HasPrev(v) then w.(view := Loaded(Popped(v), w.server, online)) else w
    case SetSearch(term, online) => w.(view := Loaded(Searched(v, term), w.server, online))
    case Mutate(accepted, after, online) =>
      if accepted then World(Loaded(Rewound(v), after, online), after) else w
  }

  function Acts<T>(w: World<T>, actions: seq<Action<T>>): World<T>
    decreases |actions|
  {
    if actions == [] then w else Acts(Act(w, actions[0]), actions[1..])
  }

  function Initial<T>(server: Server<T>): World<T> {
    World(View([], "", false, false, [None], None), server)
  }

  /** The screen after a load that nothing interrupted: the page, or an error. */
  ghost predicate Shown<T(!new)>(v: View<T>, reply: Reply<T>) {
    && !v.loading
    && match reply
       case Arrived(items, next) => v.items == items && v.next == next && !v.error
       case Lost => v.items == [] && v.next.None? && v.error
  }

  function Answer<T>(server: Server<T>, online: bool, search: string, cursor: Option<string>): Reply<T> {
    if online then server(search, cursor) else Lost
  }

  /** Each action in the terms of a user: which page is asked for, under which search,
      what Previous will go back through, and when nothing happens at all. */
  lemma ActMeaning<T(!new)>(w: World<T>, a: Action<T>)
    ensures
      var w' := Act(w, a);
      var v, v' := w.view, w'.view;
      var n := |v.stack|;
      match a
      case FetchFirst(online) =>
        && w'.server == w.server && v'.search == v.search && v'.stack == [None]
        && Shown(v', Answer(w.server, online, v.search, None))
      case SetSearch(term, online) =>
        && w'.server == w.server && v'.search == Trim(term) && v'.stack == [None]
        && Shown(v', Answer(w.server, online, Trim(term), None))
      case FetchNext(online) =>
        if v.next.None? || v.next.value == "" then w' == w
        else
          && w'.server == w.server && v'.search == v.search && v'.stack == v.stack + [v.next]
          && Shown(v', Answer(w.server, online, v.search, v.next))
      case FetchPrev(online) =>
        if n <= 1 then w' == w
        else
          && w'.server == w.server && v'.search == v.search && v'.stack == v.stack[..n - 1]
          && Shown(v', Answer(w.server, online, v.search, v.stack[n - 2]))
      case Mutate(accepted, after, online) =>
        if !accepted then w' == w
        else
          && w'.server == after && v'.search == v.search && v'.stack == [None]
          && Shown(v', Answer(after, online, v.search, None))
  {
    hide Trim;
  }

  /** Each cursor on the stack is the one that the server issues with the page below. */
  predicate Chain<T(!new)>(server: Server<T>, search: string, stack: seq<Option<string>>) {
    && |stack| > 0 && stack[0].None?
    && forall j :: 0 < j < |stack| ==> Issued(server, search, stack, j)
  }

  predicate Issued<T(!new)>(server: Server<T>, search: string, stack: seq<Option<string>>, j: nat)
    requires 0 < j < |stack|
  {
    match server(search, stack[j - 1])
    case Arrived(_, next) => next.Some? && next == stack[j]
    case Lost => false
  }

  /** The items and the next cursor are the server's page for the top of the stack. */
  ghost predicate Showing<T(!new)>(w: World<T>)
    requires w.view.stack != []
  {
    !w.view.error && w.server(w.view.search, Top(w.view)) == Arrived(w.view.items, w.view.next)
  }

  ghost predicate Consistent<T(!new)>(w: World<T>) {
    && Chain(w.server, w.view.search, w.view.stack)
    && !w.view.loading
    && (Showing(w) || (w.view.items == [] && w.view.next == None))
  }

  lemma PushKeepsChain<T(!new)>(w: World<T>)
    requires Consistent(w) && CanNext(w.view)
    ensures Chain(w.server, w.view.search, Pushed(w.view).stack)
  {
    var stack, pushed := w.view.stack, Pushed(w.view).stack;
    forall j | 0 < j < |pushed| ensures Issued(w.server, w.view.search, pushed, j) {
      assert j < |stack| ==> Issued(w.server, w.view.search, stack, j);
    }
  }

  lemma PopKeepsChain<T(!new)>(w: World<T>)
    requires Consistent(w) && HasPrev(w.view)
    ensures Chain(w.server, w.view.search, Popped(w.view).stack)
  {
    var stack, popped := w.view.stack, Popped(w.view).stack;
    forall j | 0 < j < |popped| ensures Issued(w.server, w.view.search, popped, j) {
      assert Issued(w.server, w.view.search, stack, j);
    }
  }

  lemma LoadIsConsistent<T(!new)>(v: View<T>, server: Server<T>, online: bool)
    requires Chain(server, v.search, v.stack)
    ensures Consistent(World(Loaded(v, server, online), server))
    ensures online && server(v.search, Top(v)).Arrived? ==> Showing(World(Loaded(v, server, online), server))
  {
  }

  lemma ActIsConsistent<T(!new)>(w: World<T>, a: Action<T>)
    requires Consistent(w)
    ensures Consistent(Act(w, a))
  {
    var v := w.view;
    match a
    case FetchFirst(online) => LoadIsConsistent(Rewound(v), w.server, online);
    case FetchNext(online) =>
      if CanNext(v) {
        PushKeepsChain(w);
        LoadIsConsistent(Pushed(v), w.server, online);
      }
    case FetchPrev(online) =>
      if HasPrev(v) {
        PopKeepsChain(w);
        LoadIsConsistent(Popped(v), w.server, online);
      }
    case SetSearch(term, online) => LoadIsConsistent(Searched(v, term), w.server, online);
    case Mutate(accepted, after, online) =>
      if accepted {
        LoadIsConsistent(Rewound(v), after, online);
      }
  }

  /** Over every sequence of completed actions, with loads failing at will, the
      stack is the chain of cursors issued for the current search. */
  lemma {:induction false} RunsAreConsistent<T(!new)>(w: World<T>, actions: seq<Action<T>>)
    requires Consistent(w)
    ensures Consistent(Acts(w, actions))
    decreases |actions|
  {
    if actions != [] {
      ActIsConsistent(w, actions[0]);
      RunsAreConsistent(Act(w, actions[0]), actions[1..]);
    }
  }

  /** Next, whether or not its load arrives, then Previous: back to what was shown. */
  lemma PrevUndoesNext<T(!new)>(w: World<T>, online: bool)
    requires Consistent(w) && Showing(w) && CanNext(w.view)
    ensures Act(Act(w, FetchNext(online)), FetchPrev(true)) == w
  {
    var v := w.view;
    var after := Loaded(Pushed(v), w.server, online);
    assert Popped(after).stack == v.stack;
    assert Loaded(Popped(after), w.server, true) == v;
  }
}
