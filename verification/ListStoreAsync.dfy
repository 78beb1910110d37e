/** The same store with its actions overlapping at their awaits: any number of
    loads and mutations may be in flight, and they settle in any order. */
module ListStoreAsync {
  import opened Prelude
  import opened ListStore

  /** A request in flight: the search term and the cursor that it was sent with. Two
      requests that agree in both are one and the same here. */
  datatype Load = Load(search: string, cursor: Option<string>)

  datatype State<T> = State(view: View<T>, loads: multiset<Load>, mutations: nat)

  datatype Event<T> =
    | FetchFirst
    | FetchNext
    | FetchPrev
    | SetSearch(term: string)
    | MutationSent
    | MutationEnded(accepted: bool)
    | LoadEnded(load: Load, reply: Reply<T>)

  predicate Enabled<T>(s: State<T>, e: Event<T>) {
    && (e.MutationEnded? ==> s.mutations > 0)
    && (e.LoadEnded? ==> e.load in s.loads)
  }

  /** The synchronous part of load(), up to its await. */
  function Send<T>(s: State<T>, v: View<T>): State<T>
    requires v.stack != []
  {
    s.(view := Started(v), loads := s.loads + multiset{Load(v.search, Top(v))})
  }

  function Next<T>(s: State<T>, e: Event<T>): State<T>
    requires Enabled(s, e)
  {
    match e
    case FetchFirst => Send(s, Rewound(s.view))
    case FetchNext => if CanNext(s.view) then Send(s, Pushed(s.view)) else s
    case FetchPrev => if HasPrev(s.view) then Send(s, Popped(s.view)) else s
    case SetSearch(term) => Send(s, Searched(s.view, term))
    case MutationSent => s.(mutations := s.mutations + 1)
    case MutationEnded(accepted) =>
      var s' := s.(mutations := s.mutations - 1);
      if accepted then Send(s', Rewound(s.view)) else s'
    case LoadEnded(load, reply) => s.(view := Settled(s.view, reply), loads := s.loads - multiset{load})
  }

  predicate Possible<T>(s: State<T>, events: seq<Event<T>>)
    decreases |events|
  {
    events == [] || (Enabled(s, events[0]) && Possible(Next(s, events[0]), events[1..]))
  }

  function After<T>(s: State<T>, events: seq<Event<T>>): State<T>
    requires Possible(s, events)
    decreases |events|
  {
    if events == [] then s else After(Next(s, events[0]), events[1..])
  }

  function Start<T>(): State<T> {
    State(View([], "", false, false, [None], None), multiset{}, 0)
  }

  // ---------- every interleaving ----------

  /** The stack is never empty, its bottom is undefined, everything above is a cursor;
      and the loading flag is only ever set while something is in flight. */
  ghost predicate WellFormed<T>(s: State<T>) {
    && ProperStack(s.view.stack)
    && (s.view.loading ==> s.loads != multiset{})
  }

  ghost predicate ProperStack(stack: seq<Option<string>>) {
    stack != [] && stack[0].None? && forall j :: 0 < j < |stack| ==> stack[j].Some?
  }

  lemma SendIsWellFormed<T>(s: State<T>, v: View<T>)
    requires ProperStack(v.stack)
    ensures WellFormed(Send(s, v))
  {
    assert Load(v.search, Top(v)) in Send(s, v).loads;
  }

  lemma StepIsWellFormed<T>(s: State<T>, e: Event<T>)
    requires WellFormed(s) && Enabled(s, e)
    ensures WellFormed(Next(s, e))
  {
    match e
    case FetchFirst => SendIsWellFormed(s, Rewound(s.view));
    case FetchNext =>
      if CanNext(s.view) {
        SendIsWellFormed(s, Pushed(s.view));
      }
    case FetchPrev =>
      if HasPrev(s.view) {
        SendIsWellFormed(s, Popped(s.view));
      }
    case SetSearch(term) => SendIsWellFormed(s, Searched(s.view, term));
    case MutationSent =>
    case MutationEnded(accepted) =>
      if accepted {
        SendIsWellFormed(s.(mutations := s.mutations - 1), Rewound(s.view));
      }
    case LoadEnded(_, _) =>
  }

  lemma {:induction false} RunsAreWellFormed<T>(s: State<T>, events: seq<Event<T>>)
    requires WellFormed(s) && Possible(s, events)
    ensures WellFormed(After(s, events))
    decreases |events|
  {
    if events != [] {
      StepIsWellFormed(s, events[0]);
      RunsAreWellFormed(Next(s, events[0]), events[1..]);
    }
  }

  // ---------- an action that nothing interrupts ----------

  /** What a user's action does before its first await that matters: the click, or for
      a mutation the request and its end. */
  function Begun<T>(s: State<T>, a: Action<T>): State<T> {
    match a
    case FetchFirst(_) => Next(s, Event.FetchFirst)
    case FetchNext(_) => Next(s, Event.FetchNext)
    case FetchPrev(_) => Next(s, Event.FetchPrev)
    case SetSearch(term, _) => Next(s, Event.SetSearch(term))
    case Mutate(accepted, _, _) => Next(Next(s, MutationSent), MutationEnded(accepted))
  }

  /** Whether the action asks for a page: a disabled button and a refused mutation do not. */
  predicate Asks<T>(v: View<T>, a: Action<T>) {
    match a
    case FetchNext(_) => v.next.Some? && v.next.value != ""
    case FetchPrev(_) => |v.stack| > 1
    case Mutate(accepted, _, _) => accepted
    case _ => true
  }

  /** An action whose load ends before anything else happens is the action of the store
      whose actions complete one at a time, whatever else is in flight; and one that asks
      for nothing changes nothing. */
  lemma AloneIsAct<T(!new)>(s: State<T>, server: Server<T>, a: Action<T>)
    requires s.view.stack != []
    ensures
      var s1, w := Begun(s, a), Act(World(s.view, server), a);
      if !Asks(s.view, a) then s1 == s && w.view == s.view
      else
        && s1.view.stack != []
        && var load := Load(s1.view.search, Top(s1.view));
           var ended := LoadEnded(load, Answer(w.server, a.online, load.search, load.cursor));
           && s1.mutations == s.mutations && s1.loads == s.loads + multiset{load}
           && Enabled(s1, ended)
           && Next(s1, ended).view == w.view && Next(s1, ended).loads == s.loads
  {
    hide Trim;
    if Asks(s.view, a) {
      var load := Load(Begun(s, a).view.search, Top(Begun(s, a).view));
      assert s.loads + multiset{load} - multiset{load} == s.loads;
    }
  }

  // ---------- Previous goes back the way that Next came ----------

  /** Only these steps touch the stack: a search, a first page and an accepted mutation
      rewind it and ask for the page without a cursor; Next adds to it and Previous takes
      away, and each asks for the page of the new top. */
  lemma StackSteps<T>(s: State<T>, e: Event<T>)
    requires s.view.stack != [] && Enabled(s, e)
    ensures
      var s', n := Next(s, e), |s.view.stack|;
      if e.FetchFirst? || e.SetSearch? || (e.MutationEnded? && e.accepted) then
        && s'.view.stack == [None]
        && s'.view.search == (if e.SetSearch? then Trim(e.term) else s.view.search)
        && s'.loads == s.loads + multiset{Load(s'.view.search, None)}
      else if e.FetchNext? && s.view.next.Some? && s.view.next.value != "" then
        && s'.view.stack == s.view.stack + [s.view.next] && s'.view.search == s.view.search
        && s'.loads == s.loads + multiset{Load(s.view.search, s.view.next)}
      else if e.FetchPrev? && n > 1 then
        && s'.view.stack == s.view.stack[..n - 1] && s'.view.search == s.view.search
        && s'.loads == s.loads + multiset{Load(s.view.search, s.view.stack[n - 2])}
      else
        && s'.view.stack == s.view.stack && s'.view.search == s.view.search
        && s'.loads == if e.LoadEnded? then s.loads - multiset{e.load} else s.loads
  {
    hide Trim;
  }

  /** Clicks on Next, with loads ending in between in any way. */
  predicate OnlyForward<T>(events: seq<Event<T>>) {
    forall i :: 0 <= i < |events| ==> events[i].FetchNext? || events[i].LoadEnded?
  }

  lemma {:induction false} ForwardKeepsBelow<T>(s: State<T>, events: seq<Event<T>>)
    requires s.view.stack != [] && Possible(s, events) && OnlyForward(events)
    ensures s.view.stack <= After(s, events).view.stack
    decreases |events|
  {
    if events != [] {
      StackSteps(s, events[0]);
      hide Next;
      ForwardKeepsBelow(Next(s, events[0]), events[1..]);
    }
  }

  function Previous<T>(n: nat): seq<Event<T>> {
    seq(n, _ => Event.FetchPrev)
  }

  lemma {:induction false} BackTakesAway<T>(s: State<T>, n: nat)
    requires n < |s.view.stack|
    ensures Possible(s, Previous(n))
    ensures After(s, Previous(n)).view.stack == s.view.stack[..|s.view.stack| - n]
    decreases n
  {
    if n > 0 {
      var prev: Event<T> := Event.FetchPrev;
      StackSteps(s, prev);
      assert Previous<T>(n)[0] == prev && Previous<T>(n)[1..] == Previous(n - 1);
      assert Enabled(s, prev);
      hide Next;
      BackTakesAway(Next(s, prev), n - 1);
    } else {
      assert Previous<T>(0) == [];
    }
  }

  /** However many Nexts were clicked, and whatever arrived meanwhile, Previous goes back
      through the same tops: to the one `k` pages on from the start, and with `k` zero to
      the very stack at the start. */
  lemma PreviousGoesBack<T>(s: State<T>, events: seq<Event<T>>, k: nat)
    requires s.view.stack != [] && Possible(s, events) && OnlyForward(events)
    requires |s.view.stack| + k <= |After(s, events).view.stack|
    ensures
      var far := After(s, events);
      var back := Previous(|far.view.stack| - |s.view.stack| - k);
      && Possible(far, back)
      && After(far, back).view.stack == far.view.stack[..|s.view.stack| + k]
      && After(far, back).view.stack[..|s.view.stack|] == s.view.stack
  {
    ForwardKeepsBelow(s, events);
    var far := After(s, events);
    BackTakesAway(far, |far.view.stack| - |s.view.stack| - k);
  }

  // ---------- which answer is on screen ----------

  /** The load that completed last, with its reply. */
  function LastEnded<T>(events: seq<Event<T>>): Option<(Load, Reply<T>)> {
    if events == [] then None
    else
      var later := LastEnded(events[1..]);
      if later.Some? || !events[0].LoadEnded? then later else Some((events[0].load, events[0].reply))
  }

  function ItemsOf<T>(reply: Reply<T>): seq<T> {
    match reply case Arrived(items, _) => items case Lost => []
  }

  function NextOf<T>(reply: Reply<T>): Option<string> {
    match reply case Arrived(_, next) => next case Lost => None
  }

  lemma StepChangesScreenOnlyAtEnd<T>(s: State<T>, e: Event<T>)
    requires Enabled(s, e)
    ensures
      var v := Next(s, e).view;
      if e.LoadEnded? then v.items == ItemsOf(e.reply) && v.next == NextOf(e.reply)
      else v.items == s.view.items && v.next == s.view.next
  {
  }

  /** However the loads overlapped, the page on screen is the one of the load that
      completed last, not of the one that was sent last. */
  lemma {:induction false} ScreenIsLastEnded<T>(s: State<T>, events: seq<Event<T>>)
    requires Possible(s, events)
    ensures
      var v := After(s, events).view;
      match LastEnded(events)
      case None => v.items == s.view.items && v.next == s.view.next
      case Some((_, reply)) => v.items == ItemsOf(reply) && v.next == NextOf(reply)
    decreases |events|
  {
    hide Next;
    if events != [] {
      StepChangesScreenOnlyAtEnd(s, events[0]);
      ScreenIsLastEnded(Next(s, events[0]), events[1..]);
    }
  }

  // ---------- which answer belongs there ----------

  /** The request that a step puts in flight, if any. */
  ghost function SentBy<T>(s: State<T>, e: Event<T>): (sent: Option<Load>)
    requires Enabled(s, e)
  {
    if load :| Next(s, e).loads == s.loads + multiset{load} then Some(load) else None
  }

  /** The load that was sent last. */
  ghost function LastSent<T>(s: State<T>, events: seq<Event<T>>): Option<Load>
    requires Possible(s, events)
    decreases |events|
  {
    if events == [] then None
    else
      var later := LastSent(Next(s, events[0]), events[1..]);
      if later.Some? then later else SentBy(s, events[0])
  }

  /** The request for what the search box and the stack say. */
  function Wanted<T>(v: View<T>): Load
    requires v.stack != []
  {
    Load(v.search, Top(v))
  }

  lemma SendSends<T>(s: State<T>, v: View<T>, load: Load)
    requires v.stack != []
    ensures Send(s, v).loads == s.loads + multiset{load} <==> load == Wanted(v)
  {
    var sent := Load(v.search, Top(v));
    assert Send(s, v).loads[sent] == s.loads[sent] + 1;
    assert load != sent ==> (s.loads + multiset{load})[sent] == s.loads[sent];
  }

  predicate Sends<T>(s: State<T>, e: Event<T>) {
    match e
    case FetchFirst => true
    case SetSearch(_) => true
    case FetchNext => CanNext(s.view)
    case FetchPrev => HasPrev(s.view)
    case MutationEnded(accepted) => accepted
    case MutationSent => false
    case LoadEnded(_, _) => false
  }

  lemma StepSends<T>(s: State<T>, e: Event<T>, load: Load)
    requires WellFormed(s) && Enabled(s, e) && Sends(s, e)
    ensures
      var s' := Next(s, e);
      s'.view.stack != [] && (s'.loads == s.loads + multiset{load} <==> load == Wanted(s'.view))
  {
    hide Trim;
    match e
    case FetchFirst => SendSends(s, Rewound(s.view), load);
    case FetchNext => SendSends(s, Pushed(s.view), load);
    case FetchPrev => SendSends(s, Popped(s.view), load);
    case SetSearch(term) => SendSends(s, Searched(s.view, term), load);
    case MutationEnded(_) => SendSends(s.(mutations := s.mutations - 1), Rewound(s.view), load);
  }

  lemma StepRests<T>(s: State<T>, e: Event<T>, load: Load)
    requires WellFormed(s) && Enabled(s, e) && !Sends(s, e)
    ensures
      var s' := Next(s, e);
      && s'.view.stack != [] && Wanted(s'.view) == Wanted(s.view)
      && s'.loads == (if e.LoadEnded? then s.loads - multiset{e.load} else s.loads) != s.loads + multiset{load}
  {
    assert Next(s, e).loads[load] < (s.loads + multiset{load})[load];
  }

  /** A step sends a request for what is then wanted, or ends one, or touches neither. */
  lemma StepLoads<T>(s: State<T>, e: Event<T>)
    requires WellFormed(s) && Enabled(s, e)
    ensures
      var s' := Next(s, e);
      && s'.view.stack != []
      && match SentBy(s, e)
         case Some(load) => !e.LoadEnded? && load == Wanted(s'.view) && s'.loads == s.loads + multiset{load}
         case None =>
           && Wanted(s'.view) == Wanted(s.view)
           && s'.loads == if e.LoadEnded? then s.loads - multiset{e.load} else s.loads
  {
    hide Next, WellFormed, Wanted;
    if Sends(s, e) {
      StepSends(s, e, Load("", None));
      StepSends(s, e, Wanted(Next(s, e).view));
      if SentBy(s, e).Some? {
        StepSends(s, e, SentBy(s, e).value);
      }
    } else {
      StepRests(s, e, if SentBy(s, e).Some? then SentBy(s, e).value else Load("", None));
    }
  }

  /** A step that sends a request shows that it is loading and takes the error away, and
      leaves the page standing; one that sends none, and ends none, shows nothing new. */
  lemma SendingShowsLoading<T>(s: State<T>, e: Event<T>)
    requires WellFormed(s) && Enabled(s, e) && !e.LoadEnded?
    ensures
      var v, v' := s.view, Next(s, e).view;
      && v'.items == v.items && v'.next == v.next
      && if SentBy(s, e).Some? then v'.loading && !v'.error else v' == v
  {
    StepLoads(s, e);
    hide Trim;
    if SentBy(s, e).Some? {
      var load := SentBy(s, e).value;
      assert Next(s, e).loads[load] == s.loads[load] + 1;
    }
  }

  /** In every interleaving the search box and the top of the stack are those of the
      load that was sent last. */
  lemma {:induction false} WantedIsLastSent<T>(s: State<T>, events: seq<Event<T>>)
    requires WellFormed(s) && Possible(s, events)
    ensures
      var s' := After(s, events);
      && s'.view.stack != []
      && Wanted(s'.view) == match LastSent(s, events) case None => Wanted(s.view) case Some(load) => load
    decreases |events|
  {
    hide Next, SentBy, WellFormed, Wanted;
    if events != [] {
      StepIsWellFormed(s, events[0]);
      StepLoads(s, events[0]);
      WantedIsLastSent(Next(s, events[0]), events[1..]);
    } else {
      StackNotEmpty(s);
    }
  }

  lemma StackNotEmpty<T>(s: State<T>)
    requires WellFormed(s)
    ensures s.view.stack != []
  {
  }

  function LastLoad<T>(events: seq<Event<T>>): Option<Load> {
    match LastEnded(events) case None => None case Some((load, _)) => Some(load)
  }

  /** The exact law, for every interleaving in which some load has ended: the screen
      holds the answer to a request for the current search and the top of the stack if
      and only if the load that ended last is the one that was sent last, or one equal
      to it in search term and cursor. */
  lemma InStepIff<T>(events: seq<Event<T>>)
    requires Possible(Start(), events) && LastEnded(events).Some?
    ensures
      var v := After(Start(), events).view;
      var (load, reply) := LastEnded(events).value;
      && v.items == ItemsOf(reply) && v.next == NextOf(reply)
      && v.stack != []
      && (load == Wanted(v) <==> LastSent(Start(), events) == Some(load))
  {
    hide LastSent, LastEnded;
    ScreenIsLastEnded(Start<T>(), events);
    WantedIsLastSent(Start<T>(), events);
    EndedWasSent(Start<T>(), events);
  }

  /** What ends was in flight before or was sent. */
  lemma {:induction false} EndedWasSent<T>(s: State<T>, events: seq<Event<T>>)
    requires WellFormed(s) && Possible(s, events) && LastEnded(events).Some?
    ensures s.loads != multiset{} || LastSent(s, events).Some?
    decreases |events|
  {
    hide SentBy, WellFormed;
    StepIsWellFormed(s, events[0]);
    StepLoads(s, events[0]);
    if s.loads == multiset{} && SentBy(s, events[0]).None? {
      EndedWasSent(Next(s, events[0]), events[1..]);
    }
  }

  // ---------- runs whose loads never overlap ----------

  /** A load is only sent when no other is in flight; mutations may be. */
  predicate OneAtATime<T>(s: State<T>, e: Event<T>)
    requires Enabled(s, e)
  {
    Next(s, e).loads <= s.loads || s.loads == multiset{}
  }

  predicate NeverOverlaps<T>(s: State<T>, events: seq<Event<T>>)
    requires Possible(s, events)
    decreases |events|
  {
    events == [] || (OneAtATime(s, events[0]) && NeverOverlaps(Next(s, events[0]), events[1..]))
  }

  /** Nothing is in flight, and the last load to end is the last one sent; or only that one is in flight. */
  ghost predicate Orderly(loads: multiset<Load>, ended: Option<Load>, sent: Option<Load>) {
    if loads == multiset{} then ended == sent else sent.Some? && loads == multiset{sent.value}
  }

  function Or<A>(later: Option<A>, earlier: Option<A>): Option<A> {
    if later.Some? then later else earlier
  }

  function EndedBy<T>(e: Event<T>): Option<Load> {
    if e.LoadEnded? then Some(e.load) else None
  }

  lemma StepIsOrderly<T>(s: State<T>, e: Event<T>, ended: Option<Load>, sent: Option<Load>)
    requires WellFormed(s) && Enabled(s, e) && OneAtATime(s, e) && Orderly(s.loads, ended, sent)
    ensures Orderly(Next(s, e).loads, Or(EndedBy(e), ended), Or(SentBy(s, e), sent))
  {
    var s' := Next(s, e);
    StepLoads(s, e);
    hide Next, SentBy, WellFormed;
    match SentBy(s, e)
    case Some(load) =>
      assert s'.loads[load] == s.loads[load] + 1;
      assert s.loads == multiset{};
      assert s'.loads == multiset{load} && load in s'.loads;
    case None =>
      if e.LoadEnded? {
        assert s.loads == multiset{sent.value} && e.load == sent.value;
        assert s.loads - multiset{e.load} == multiset{};
      }
  }

  lemma {:induction false} OrderlyRun<T>(s: State<T>, events: seq<Event<T>>, ended: Option<Load>, sent: Option<Load>)
    requires WellFormed(s) && Possible(s, events) && NeverOverlaps(s, events) && Orderly(s.loads, ended, sent)
    ensures Orderly(After(s, events).loads, Or(LastLoad(events), ended), Or(LastSent(s, events), sent))
    decreases |events|
  {
    hide Next, SentBy, WellFormed, OneAtATime, Orderly;
    if events != [] {
      var e := events[0];
      StepIsWellFormed(s, e);
      StepIsOrderly(s, e, ended, sent);
      OrderlyRun(Next(s, e), events[1..], Or(EndedBy(e), ended), Or(SentBy(s, e), sent));
    }
  }

  /** So loads that never overlap stay in step: with none in flight, the last to end is
      the last one sent, and the screen answers the search box and the stack. */
  lemma SeparateLoadsStayInStep<T>(events: seq<Event<T>>)
    requires Possible(Start(), events) && NeverOverlaps(Start(), events)
    requires After(Start(), events).loads == multiset{}
    ensures LastLoad(events) == LastSent(Start(), events)
    ensures LastEnded(events).Some? ==>
              var v := After(Start(), events).view;
              var (load, reply) := LastEnded(events).value;
              && v.stack != [] && load == Wanted(v)
              && v.items == ItemsOf(reply) && v.next == NextOf(reply)
  {
    hide LastSent, LastEnded, Possible, After, NeverOverlaps;
    OrderlyRun(Start<T>(), events, None, None);
    if LastEnded(events).Some? {
      InStepIff(events);
    }
  }

  // ---------- the chain of cursors, when actions overlap ----------

  /** The stack is the chain of cursors that the server issues for the current search. */
  ghost predicate Chained<T(!new)>(server: Server<T>, s: State<T>) {
    Chain(server, s.view.search, s.view.stack)
  }

  /** A click on Next pushes the cursor that the server issues with the page of the top. */
  ghost predicate PushesIssued<T>(server: Server<T>, s: State<T>, e: Event<T>) {
    e.FetchNext? && CanNext(s.view) && s.view.stack != [] ==>
      match server(s.view.search, Top(s.view))
      case Arrived(_, next) => next == s.view.next
      case Lost => false
  }

  lemma PushChains<T(!new)>(server: Server<T>, s: State<T>)
    requires Chained(server, s) && CanNext(s.view)
    ensures Chain(server, s.view.search, Pushed(s.view).stack) <==> PushesIssued(server, s, Event.FetchNext)
  {
    var stack, pushed := s.view.stack, Pushed(s.view).stack;
    assert Issued(server, s.view.search, pushed, |stack|) <==> PushesIssued(server, s, Event.FetchNext);
    if Issued(server, s.view.search, pushed, |stack|) {
      forall j | 0 < j < |pushed| ensures Issued(server, s.view.search, pushed, j) {
        assert j < |stack| ==> Issued(server, s.view.search, stack, j);
      }
    }
  }

  lemma PopChains<T(!new)>(server: Server<T>, s: State<T>)
    requires Chained(server, s) && HasPrev(s.view)
    ensures Chain(server, s.view.search, Popped(s.view).stack)
  {
    var stack, popped := s.view.stack, Popped(s.view).stack;
    forall j | 0 < j < |popped| ensures Issued(server, s.view.search, popped, j) {
      assert Issued(server, s.view.search, stack, j);
    }
  }

  /** Only a click on Next can break the chain. */
  lemma StepChains<T(!new)>(server: Server<T>, s: State<T>, e: Event<T>)
    requires Chained(server, s) && Enabled(s, e)
    ensures Chained(server, Next(s, e)) <==> PushesIssued(server, s, e)
  {
    hide Trim;
    if e.FetchNext? && CanNext(s.view) {
      PushChains(server, s);
    } else if e.FetchPrev? && HasPrev(s.view) {
      PopChains(server, s);
    }
  }

  ghost predicate AlwaysChained<T(!new)>(server: Server<T>, s: State<T>, events: seq<Event<T>>)
    requires Possible(s, events)
    decreases |events|
  {
    Chained(server, s) && (events == [] || AlwaysChained(server, Next(s, events[0]), events[1..]))
  }

  ghost predicate AlwaysPushesIssued<T(!new)>(server: Server<T>, s: State<T>, events: seq<Event<T>>)
    requires Possible(s, events)
    decreases |events|
  {
    events == [] ||
    (PushesIssued(server, s, events[0]) && AlwaysPushesIssued(server, Next(s, events[0]), events[1..]))
  }

  /** The exact law, for every server and every interleaving: the stack is the chain of
      issued cursors at every point if and only if every Next that pushes finds, as the
      next cursor, the one that the server issues with the page of the top. */
  lemma {:induction false} ChainIff<T(!new)>(server: Server<T>, s: State<T>, events: seq<Event<T>>)
    requires Chained(server, s) && Possible(s, events)
    ensures AlwaysChained(server, s, events) <==> AlwaysPushesIssued(server, s, events)
    decreases |events|
  {
    hide Next, Chained, PushesIssued;
    if events != [] {
      StepChains(server, s, events[0]);
      if PushesIssued(server, s, events[0]) {
        ChainIff(server, Next(s, events[0]), events[1..]);
      } else {
        NotChainedNow(server, Next(s, events[0]), events[1..]);
      }
    }
  }

  lemma NotChainedNow<T(!new)>(server: Server<T>, s: State<T>, events: seq<Event<T>>)
    requires !Chained(server, s) && Possible(s, events)
    ensures !AlwaysChained(server, s, events)
  {
  }

  /** Every load that ends brings the server's answer to its own request, or is lost. */
  ghost predicate Honest<T(!new)>(server: Server<T>, events: seq<Event<T>>) {
    forall e :: e in events && e.LoadEnded? ==> e.reply.Lost? || e.reply == server(e.load.search, e.load.cursor)
  }

  lemma {:induction false} LastEndedIsHonest<T(!new)>(server: Server<T>, events: seq<Event<T>>)
    requires Honest(server, events) && LastEnded(events).Some?
    ensures
      var (load, reply) := LastEnded(events).value;
      reply.Lost? || reply == server(load.search, load.cursor)
  {
    assert events[0] in events;
    if LastEnded(events[1..]).Some? {
      LastEndedIsHonest(server, events[1..]);
    }
  }

  /** A click on Next pushes the issued cursor whenever the load that ended last is the
      one that was sent last. */
  lemma InStepPushesIssued<T(!new)>(server: Server<T>, events: seq<Event<T>>)
    requires Possible(Start(), events) && Honest(server, events)
    requires LastLoad(events) == LastSent(Start(), events)
    ensures PushesIssued(server, After(Start(), events), Event.FetchNext)
  {
    hide LastSent, LastEnded;
    ScreenIsLastEnded(Start<T>(), events);
    if LastEnded(events).Some? {
      LastEndedIsHonest(server, events);
      InStepIff(events);
    }
  }

  /** A run up to its last event, and that event. */
  lemma {:induction false} LastStep<T(!new)>(server: Server<T>, s: State<T>, before: seq<Event<T>>, e: Event<T>)
    requires Possible(s, before + [e]) && NeverOverlaps(s, before + [e])
    ensures Possible(s, before) && NeverOverlaps(s, before)
    ensures Enabled(After(s, before), e) && OneAtATime(After(s, before), e)
    ensures AlwaysPushesIssued(server, s, before + [e]) <==>
            AlwaysPushesIssued(server, s, before) && PushesIssued(server, After(s, before), e)
    decreases |before|
  {
    hide Next, Enabled, OneAtATime, PushesIssued;
    if before == [] {
      assert before + [e] == [e] && [e][1..] == [];
    } else {
      assert (before + [e])[1..] == before[1..] + [e];
      LastStep(server, Next(s, before[0]), before[1..], e);
    }
  }

  lemma AloneToPush<T>(s: State<T>, e: Event<T>)
    requires WellFormed(s) && Enabled(s, e) && OneAtATime(s, e) && e.FetchNext? && CanNext(s.view)
    ensures s.loads == multiset{}
  {
    var sent := Wanted(Pushed(s.view));
    assert Next(s, e).loads[sent] == s.loads[sent] + 1;
  }

  lemma {:induction false} SeparateLoadsPushIssued<T(!new)>(server: Server<T>, events: seq<Event<T>>)
    requires Possible(Start(), events) && NeverOverlaps(Start(), events) && Honest(server, events)
    ensures AlwaysPushesIssued(server, Start(), events)
    decreases |events|
  {
    hide NeverOverlaps, Possible, After, LastSent, LastEnded, PushesIssued, OneAtATime;
    if events == [] {
      NothingPushed(server, Start<T>());
    } else {
      var before, e := events[..|events| - 1], events[|events| - 1];
      assert events == before + [e];
      LastStep(server, Start<T>(), before, e);
      SeparateLoadsPushIssued(server, before);
      var s := After(Start<T>(), before);
      RunsAreWellFormed(Start<T>(), before);
      if e.FetchNext? && CanNext(s.view) {
        AloneToPush(s, e);
        SeparateLoadsStayInStep(before);
        InStepPushesIssued(server, before);
      } else {
        NoPush(server, s, e);
      }
    }
  }

  lemma NothingPushed<T(!new)>(server: Server<T>, s: State<T>)
    ensures Possible(s, []) && AlwaysPushesIssued(server, s, [])
  {
  }

  lemma NoPush<T>(server: Server<T>, s: State<T>, e: Event<T>)
    requires !(e.FetchNext? && CanNext(s.view))
    ensures PushesIssued(server, s, e)
  {
  }

  /** So loads that never overlap keep the chain at every point, whichever are lost. */
  lemma SeparateLoadsKeepTheChain<T(!new)>(server: Server<T>, events: seq<Event<T>>)
    requires Possible(Start(), events) && NeverOverlaps(Start(), events) && Honest(server, events)
    ensures AlwaysChained(server, Start(), events)
  {
    SeparateLoadsPushIssued(server, events);
    ChainIff(server, Start<T>(), events);
  }

  // ---------- what overlapping loads can do ----------

  lemma First<T>(s: State<T>, e: Event<T>, events: seq<Event<T>>)
    requires Enabled(s, e) && Possible(Next(s, e), events)
    ensures Possible(s, [e] + events) && After(s, [e] + events) == After(Next(s, e), events)
    ensures LastLoad([e] + events) == Or(LastLoad(events), EndedBy(e))
  {
    assert ([e] + events)[1..] == events;
  }

  /** One search sent and not answered, over whatever is in flight. */
  lemma SearchSends<T>(s: State<T>, term: string)
    ensures
      var s' := Next(s, Event.SetSearch(term));
      && s'.loads == s.loads + multiset{Load(Trim(term), None)}
      && s'.view.search == Trim(term) && s'.view.stack == [None]
  {
    hide Trim;
  }

  lemma AnswerEnds<T>(s: State<T>, load: Load, items: seq<T>)
    requires load in s.loads
    ensures
      var s' := Next(s, LoadEnded(load, Arrived(items, None)));
      && s'.loads == s.loads - multiset{load}
      && s'.view.search == s.view.search && s'.view.stack == s.view.stack
      && s'.view.items == items && !s'.view.loading
  {
  }

  /** Two searches sent together, answered in the other order: the box says `b`, the
      rows are those of `a`, and nothing is loading. */
  lemma StaleAnswerWins<T>(a: string, b: string, forA: seq<T>, forB: seq<T>) returns (events: seq<Event<T>>)
    requires Trim(a) != Trim(b)
    ensures
      && Possible(Start(), events)
      && var s := After(Start(), events);
         && s.loads == multiset{} && !s.view.loading
         && s.view.search == Trim(b) && s.view.items == forA && s.view.stack != []
         && LastLoad(events) == Some(Load(Trim(a), None)) != Some(Wanted(s.view))
  {
    hide Trim, Next, Possible, After, LastLoad;
    var e1, e2 := Event.SetSearch(a), Event.SetSearch(b);
    var la, lb := Load(Trim(a), None), Load(Trim(b), None);
    var e3, e4 := LoadEnded(lb, Arrived(forB, None)), LoadEnded(la, Arrived(forA, None));
    var s0 := Start<T>();
    var s1 := Next(s0, e1);
    SearchSends(s0, a);
    var s2 := Next(s1, e2);
    SearchSends(s1, b);
    assert lb in s2.loads && la in s2.loads;
    var s3 := Next(s2, e3);
    AnswerEnds(s2, lb, forB);
    assert la in s3.loads;
    var s4 := Next(s3, e4);
    AnswerEnds(s3, la, forA);
    assert s4.loads == multiset{};
    events := Four(s0, e1, e2, e3, e4);
  }

  /** A run of four steps. */
  lemma Four<T>(s: State<T>, a: Event<T>, b: Event<T>, c: Event<T>, d: Event<T>) returns (events: seq<Event<T>>)
    requires Enabled(s, a) && Enabled(Next(s, a), b) && Enabled(Next(Next(s, a), b), c)
    requires Enabled(Next(Next(Next(s, a), b), c), d)
    ensures events == [a, b, c, d] && Possible(s, events)
    ensures After(s, events) == Next(Next(Next(Next(s, a), b), c), d)
    ensures d.LoadEnded? ==> LastLoad(events) == Some(d.load)
  {
    hide Next, Enabled;
    var s1, s2, s3 := Next(s, a), Next(Next(s, a), b), Next(Next(Next(s, a), b), c);
    First(s3, d, []);
    First(s2, c, [d] + []);
    First(s1, b, [c] + ([d] + []));
    First(s, a, [b] + ([c] + ([d] + [])));
    events := [a] + ([b] + ([c] + ([d] + [])));
  }

  lemma NextClicked<T(!new)>(server: Server<T>, s: State<T>)
    requires CanNext(s.view) && s.view.stack != []
    ensures
      var s' := Next(s, Event.FetchNext);
      && s'.view.stack == s.view.stack + [s.view.next] && s'.view.next == s.view.next
      && s'.view.search == s.view.search
      && s'.loads == s.loads + multiset{Load(s.view.search, s.view.next)}
      && (Chained(server, s) ==> (Chained(server, s') <==> PushesIssued(server, s, Event.FetchNext)))
  {
    if Chained(server, s) {
      StepChains(server, s, Event.FetchNext);
    }
  }

  lemma LoadAnswered<T(!new)>(server: Server<T>, s: State<T>, load: Load, reply: Reply<T>)
    requires load in s.loads
    ensures
      var s' := Next(s, LoadEnded(load, reply));
      && s'.view.stack == s.view.stack && s'.view.search == s.view.search
      && s'.loads == s.loads - multiset{load}
      && (Chained(server, s') <==> Chained(server, s))
  {
  }

  lemma HonestAnswers<T(!new)>(server: Server<T>, click: Event<T>, ended: Event<T>)
    requires click.FetchNext? && ended.LoadEnded? && ended.reply == server(ended.load.search, ended.load.cursor)
    ensures Honest(server, [click, click, ended, ended])
  {
  }

  ghost predicate IssuesItself<T>(server: Server<T>, search: string, cursor: Option<string>) {
    match server(search, cursor)
    case Arrived(_, next) => next == cursor
    case Lost => false
  }

  /** Next clicked twice before the first answer, on a screen that was in order: the
      same cursor is pushed twice, which breaks the chain unless the server issues that
      cursor again with its own page. Everything is answered, the screen is in step, and
      Previous asks for the page already shown. */
  lemma DoubleNextRepeatsAPage<T(!new)>(server: Server<T>, s: State<T>) returns (events: seq<Event<T>>)
    requires WellFormed(s) && Chained(server, s) && CanNext(s.view) && s.loads == multiset{}
    requires PushesIssued(server, s, Event.FetchNext)
    ensures Possible(s, events) && Honest(server, events)
    ensures
      var s' := After(s, events);
      && s'.loads == multiset{}
      && s'.view.search == s.view.search && s'.view.stack == s.view.stack + [s.view.next, s.view.next]
      && LastLoad(events) == Some(Wanted(s'.view))
      && HasPrev(s'.view) && Wanted(Popped(s'.view)) == Wanted(s'.view)
      && (Chained(server, s') <==> IssuesItself(server, s.view.search, s.view.next))
  {
    hide Next, Possible, After, Honest, Chained, LastLoad, WellFormed;
    var click: Event<T> := Event.FetchNext;
    var load := Load(s.view.search, s.view.next);
    var answer := server(load.search, load.cursor);
    var ended := LoadEnded(load, answer);
    StackNotEmpty(s);
    var s1 := Next(s, click);
    NextClicked(server, s);
    var s2 := Next(s1, click);
    NextClicked(server, s1);
    assert s2.view.stack == s.view.stack + [s.view.next, s.view.next];
    assert s2.loads == multiset{load, load};
    var s3 := Next(s2, ended);
    LoadAnswered(server, s2, load, answer);
    assert s3.loads == multiset{load};
    LoadAnswered(server, s3, load, answer);
    events := Four(s, click, click, ended, ended);
    HonestAnswers(server, click, ended);
  }
}
