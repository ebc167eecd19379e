/** The three threads of the port tracker (seccomp dispatcher, port lister, main loop) and the three
    single-slot cells between them, as one transition system. */
module TrackerThreads {
  import opened Ports
  import opened PortTracker

  /** A seccomp notification, by its cookie. */
  type Notification = int

  datatype TrackerEvent = Notif(n: Notification) | Listed(listing: Listing)

  /** ProcessSecCompNotification on the dispatcher thread. */
  datatype Dispatcher =
    | Idle
    | Posting(n: Notification)
    | Awaiting(n: Notification)
    | Responding(n: Notification, result: int)

  /** RunPortListing. */
  datatype Lister =
    | Collecting
    | Offering(listing: Listing)
    | Parked

  /** What ReadRequest finds: a port to reserve, a lookup to make later, or neither. A call it cannot read
      is let through. */
  datatype BindCall = Reserve(port: PortAllocation) | Later | LetThrough

  /** One pass through the body of Run. `Handling` has the notification, `Replying` is the reply guard,
      `Resolving` the port-zero lookup, `Reconciling` a listing, `Exiting` the resume guard. */
  datatype Main =
    | AtHead
    | Handling(n: Notification)
    | Replying(n: Notification, call: BindCall, threw: bool, result: int)
    | Resolving
    | Reconciling(listing: Listing)
    | Exiting

  datatype State = State(
    mirrored: bool,
    event: Option<TrackerEvent>,
    reply: Option<int>,
    resume: bool,
    dispatcher: Dispatcher,
    lister: Lister,
    main: Main,
    awaiting: bool,
    tracker: Tracker,
    received: seq<Notification>,           // notifications taken from the kernel
    computed: seq<(Notification, int)>,    // results the main loop settled on
    responses: seq<(Notification, int)>)   // answers given back to the kernel

  datatype Action =
    | Receive(n: Notification)             // the kernel delivers a notification
    | PostNotification
    | TakeReply
    | Respond
    | Collect(listing: Listing)
    | CollectFails                         // EBUSY and the like: try again later
    | PostListing
    | TakeResume
    | TakeEvent
    | Handle(call: BindCall, env: Env)
    | PostReply
    | Resolve(found: Option<PortAllocation>, env: Env)
    | ReconcileListing(answers: Answers, keys: seq<PortAllocation>)
    | Exit

  /** The resume guard has a token to post. */
  predicate MustResume(s: State) {
    s.awaiting && s.tracker.ports != map[]
  }

  ghost predicate Enabled(s: State, a: Action) {
    match a
    case Receive(_) => s.dispatcher.Idle?
    case PostNotification => s.dispatcher.Posting? && s.event.None?
    case TakeReply => s.dispatcher.Awaiting? && s.reply.Some?
    case Respond => s.dispatcher.Responding?
    case Collect(_) => s.lister.Collecting?
    case CollectFails => s.lister.Collecting?
    case PostListing => s.lister.Offering? && s.event.None?
    case TakeResume => s.lister.Parked? && s.resume
    case TakeEvent => s.main.AtHead? && s.event.Some?
    case Handle(_, _) => s.main.Handling?
    case PostReply => s.main.Replying? && s.reply.None?
    case Resolve(_, _) => s.main.Resolving?
    case ReconcileListing(_, keys) =>
      s.main.Reconciling? && Enumerates(keys, s.tracker.ports.Keys) && Contains(keys, s.tracker.ports)
    case Exit => s.main.Exiting? && (MustResume(s) ==> !s.resume)
  }

  /** The result the reply guard will post: EIO unless processing settled on another. */
  function HandleCall(tr: Tracker, call: BindCall, env: Env): (r: (Tracker, bool, int)) {
    match call
    case Reserve(p) =>
      var (tr', answer) := RequestAndTrack(tr, p, env);
      (match answer
       case Replied(result) => (tr', false, result)
       case Throws => (tr', true, EIO))
    case Later => (tr, false, 0)
    case LetThrough => (tr, false, 0)
  }

  ghost function Apply(s: State, a: Action): State
    requires Enabled(s, a)
  {
    match a
    case Receive(n) => s.(dispatcher := Posting(n), received := s.received + [n])
    case PostNotification => s.(event := Some(Notif(s.dispatcher.n)), dispatcher := Awaiting(s.dispatcher.n))
    case TakeReply => s.(dispatcher := Responding(s.dispatcher.n, s.reply.value), reply := None)
    case Respond => s.(dispatcher := Idle, responses := s.responses + [(s.dispatcher.n, s.dispatcher.result)])
    case Collect(found) => s.(lister := Offering(found))
    case CollectFails => s
    case PostListing => s.(event := Some(Listed(s.lister.listing)), lister := Parked)
    case TakeResume => s.(lister := Collecting, resume := false)
    case TakeEvent =>
      (match s.event.value
       case Notif(n) => s.(event := None, main := Handling(n))
       case Listed(l) => s.(event := None, main := Reconciling(l), awaiting := true))
    case Handle(call, env) =>
      var (tr, threw, result) := HandleCall(s.tracker, call, env);
      s.(tracker := tr, main := Replying(s.main.n, call, threw, result))
    case PostReply =>
      s.(reply := Some(s.main.result),
         computed := s.computed + [(s.main.n, s.main.result)],
         main := if s.main.call.Later? && !s.main.threw then Resolving else Exiting)
    case Resolve(found, env) =>
      var tr := if found.Some? then RequestAndTrack(s.tracker, found.value, env).0 else s.tracker;
      s.(tracker := tr, main := Exiting)
    case ReconcileListing(answers, keys) =>
      s.(tracker := Reconcile(s.mirrored, s.main.listing, answers, keys, s.tracker).tracker, main := Exiting)
    case Exit =>
      if MustResume(s) then s.(resume := true, awaiting := false, main := AtHead) else s.(main := AtHead)
  }

  ghost predicate Init(s: State) {
    s == State(s.mirrored, None, None, false, Idle, Collecting, AtHead, false, Tracker(map[], Start), [], [], [])
  }

  /** A run: any interleaving of enabled steps, with any environment. */
  ghost predicate Execution(states: seq<State>, actions: seq<Action>) {
    && |states| == |actions| + 1 && Init(states[0])
    && forall i :: 0 <= i < |actions| ==> Enabled(states[i], actions[i]) && states[i + 1] == Apply(states[i], actions[i])
  }

  // ---------------------------------------------------------------------
  // Invariants
  // ---------------------------------------------------------------------

  /** The main loop owes an answer to this notification. */
  predicate Owes(m: Main, n: Notification) {
    (m.Handling? && m.n == n) || (m.Replying? && m.n == n)
  }

  predicate OwesAny(m: Main) {
    m.Handling? || m.Replying?
  }

  /** A waiting notification is in exactly one place, and its answer belongs to it. */
  predicate DispatchInv(s: State) {
    match s.dispatcher
    case Awaiting(n) =>
      || (s.event == Some(Notif(n)) && !OwesAny(s.main) && s.reply.None? && s.computed == s.responses)
      || (!Notified(s.event) && Owes(s.main, n) && s.reply.None? && s.computed == s.responses)
      || (!Notified(s.event) && !OwesAny(s.main) && s.reply.Some? && s.computed == s.responses + [(n, s.reply.value)])
    case Responding(n, r) =>
      !Notified(s.event) && !OwesAny(s.main) && s.reply.None? && s.computed == s.responses + [(n, r)]
    case _ =>
      !Notified(s.event) && !OwesAny(s.main) && s.reply.None? && s.computed == s.responses
  }

  predicate Notified(e: Option<TrackerEvent>) {
    e.Some? && e.value.Notif?
  }

  predicate ListedIn(e: Option<TrackerEvent>) {
    e.Some? && e.value.Listed?
  }

  /** A parked lister's acknowledgement is in exactly one place; otherwise there is none. */
  predicate ListerInv(s: State) {
    && (s.lister.Parked? ==>
          || (ListedIn(s.event) && !s.awaiting && !s.resume)
          || (!ListedIn(s.event) && s.awaiting && !s.resume)
          || (!ListedIn(s.event) && !s.awaiting && s.resume))
    && (!s.lister.Parked? ==> !ListedIn(s.event) && !s.awaiting && !s.resume)
    && (s.main.Reconciling? ==> s.awaiting)
  }

  /** At the head of the loop an unacknowledged listing means nothing is tracked. */
  predicate HeadInv(s: State) {
    s.main.AtHead? && s.awaiting ==> s.tracker.ports == map[]
  }

  function Pending(d: Dispatcher): seq<Notification> {
    if d.Idle? then [] else [d.n]
  }

  function Firsts(pairs: seq<(Notification, int)>): seq<Notification> {
    if pairs == [] then [] else Firsts(pairs[..|pairs| - 1]) + [pairs[|pairs| - 1].0]
  }

  /** The result about to be posted: a throw denies the call, and a reservation is allowed only with
      the port tracked, unless entering it into the map threw. */
  predicate ReplyInv(s: State) {
    s.main.Replying? ==>
      && (s.main.threw ==> s.main.result == EIO && s.main.call.Reserve?)
      && (s.main.call.Reserve? && s.main.result == 0 ==>
            (s.main.call.port !in s.tracker.ports <==>
               s.tracker.trace.Then? && s.tracker.trace.event == Dropped(s.main.call.port)))
  }

  ghost predicate Invariant(s: State) {
    && DispatchInv(s) && ListerInv(s) && HeadInv(s) && ReplyInv(s)
    && s.received == Firsts(s.responses) + Pending(s.dispatcher)
    && Inv(s.mirrored, s.tracker)
  }

  lemma FirstsSnoc(pairs: seq<(Notification, int)>, p: (Notification, int))
    ensures Firsts(pairs + [p]) == Firsts(pairs) + [p.0]
  {
    assert (pairs + [p])[..|pairs|] == pairs;
  }

  lemma {:induction false} StepKeepsDispatch(s: State, a: Action)
    requires Invariant(s) && Enabled(s, a)
    ensures DispatchInv(Apply(s, a))
  {
    hide Inv, Reconcile, RequestAndTrack, Enumerates, Contains;
  }

  lemma StepKeepsLister(s: State, a: Action)
    requires Invariant(s) && Enabled(s, a)
    ensures ListerInv(Apply(s, a)) && HeadInv(Apply(s, a))
  {
    hide Inv, Reconcile, RequestAndTrack, Enumerates, Contains, DispatchInv;
  }

  lemma StepKeepsReply(s: State, a: Action)
    requires Invariant(s) && Enabled(s, a)
    ensures ReplyInv(Apply(s, a))
  {
    hide Inv, Reconcile, Enumerates, Contains, DispatchInv, ListerInv;
  }

  lemma StepKeepsCounts(s: State, a: Action)
    requires Invariant(s) && Enabled(s, a)
    ensures var t := Apply(s, a); t.received == Firsts(t.responses) + Pending(t.dispatcher)
  {
    hide Inv, Reconcile, HandleCall, RequestAndTrack, Enumerates, Contains, DispatchInv, ListerInv, Firsts;
    var t, before := Apply(s, a), Firsts(s.responses);
    match a
    case Receive(n) =>
      assert before + [] == before;
    case Respond =>
      FirstsSnoc(s.responses, (s.dispatcher.n, s.dispatcher.result));
      assert before + [s.dispatcher.n] + [] == before + [s.dispatcher.n];
    case _ =>
      assert t.received == s.received && t.responses == s.responses;
      assert Pending(t.dispatcher) == Pending(s.dispatcher);
  }

  lemma StepKeepsTracker(s: State, a: Action)
    requires Invariant(s) && Enabled(s, a)
    ensures Inv(s.mirrored, Apply(s, a).tracker) && Apply(s, a).mirrored == s.mirrored
  {
    hide Inv, Reconcile, RequestAndTrack, Enumerates, Contains, DispatchInv, ListerInv;
    match a
    case Handle(call, env) =>
      if call.Reserve? {
        RequestAndTrackKeepsInv(s.mirrored, s.tracker, call.port, env);
      }
    case Resolve(found, env) =>
      if found.Some? {
        RequestAndTrackKeepsInv(s.mirrored, s.tracker, found.value, env);
      }
    case ReconcileListing(answers, keys) =>
      ReconcileKeepsInv(s.mirrored, s.main.listing, answers, keys, s.tracker);
    case _ =>
  }

  lemma {:induction false} ExecutionInvariant(states: seq<State>, actions: seq<Action>, i: nat)
    requires Execution(states, actions) && i < |states|
    ensures Invariant(states[i])
  {
    if i > 0 {
      ExecutionInvariant(states, actions, i - 1);
      var s, a := states[i - 1], actions[i - 1];
      assert Enabled(s, a) && states[i] == Apply(s, a);
      hide Enabled, Apply, Inv;
      StepKeepsDispatch(s, a);
      StepKeepsLister(s, a);
      StepKeepsReply(s, a);
      StepKeepsCounts(s, a);
      StepKeepsTracker(s, a);
    }
  }

  // ---------------------------------------------------------------------
  // The theorems
  // ---------------------------------------------------------------------

  ghost predicate IsPrefix(a: seq<(Notification, int)>, b: seq<(Notification, int)>) {
    |a| <= |b| && a == b[..|a|]
  }

  /** In every interleaving each notification gets exactly one response, in order of arrival, and it
      is the result the main loop computed for that notification. */
  lemma ExactlyOneReply(states: seq<State>, actions: seq<Action>, i: nat)
    requires Execution(states, actions) && i < |states|
    ensures var s := states[i];
            && s.received == Firsts(s.responses) + Pending(s.dispatcher)
            && IsPrefix(s.responses, s.computed) && |s.computed| <= |s.responses| + 1
            && (s.dispatcher.Idle? ==> s.received == Firsts(s.responses) && s.computed == s.responses)
  {
    ExecutionInvariant(states, actions, i);
  }

  /** In every run the reply slot is empty whenever the main loop posts a reply and the resume slot is
      empty whenever it posts a token: it never waits except at the head, on an empty event queue. */
  lemma MainNeverBlocksOnAPost(states: seq<State>, actions: seq<Action>, i: nat)
    requires Execution(states, actions) && i < |states|
    ensures var s := states[i];
            && (s.main.Replying? ==> Enabled(s, PostReply))
            && (s.main.Exiting? ==> Enabled(s, Exit))
            && (s.main.AtHead? ==> s.event.None? || Enabled(s, TakeEvent))
  {
    ExecutionInvariant(states, actions, i);
  }

  /** The lister is parked, nothing is in flight, and nothing is tracked. */
  predicate Quiescent(s: State) {
    && s.dispatcher.Idle? && s.lister.Parked? && s.main.AtHead?
    && s.event.None? && s.reply.None? && !s.resume
    && s.tracker.ports == map[]
  }

  /** A step that needs no new notification. */
  ghost predicate CanMove(s: State) {
    exists a: Action :: !a.Receive? && Enabled(s, a)
  }

  /** In every run some thread can move, unless everything is at rest with no port tracked; there a
      new notification is accepted. So no reachable state is deadlocked. */
  lemma NoDeadlock(states: seq<State>, actions: seq<Action>, i: nat)
    requires Execution(states, actions) && i < |states|
    ensures CanMove(states[i]) || Quiescent(states[i])
    ensures forall n :: Quiescent(states[i]) ==> Enabled(states[i], Receive(n))
  {
    ExecutionInvariant(states, actions, i);
    var s := states[i];
    MainNeverBlocksOnAPost(states, actions, i);
    MainCanMove(s);
    if s.lister.Collecting? {
      assert Enabled(s, CollectFails);
    } else if s.lister.Offering? && s.event.None? {
      assert Enabled(s, PostListing);
    } else if s.lister.Parked? && s.resume {
      assert Enabled(s, TakeResume);
    } else if s.dispatcher.Posting? && s.event.None? {
      assert Enabled(s, PostNotification);
    } else if s.dispatcher.Awaiting? && s.reply.Some? {
      assert Enabled(s, TakeReply);
    } else if s.dispatcher.Responding? {
      assert Enabled(s, Respond);
    }
  }

  /** A step of the main loop or of the dispatcher with a notification in hand. */
  predicate Serves(a: Action) {
    !a.Receive? && !a.Collect? && !a.CollectFails? && !a.PostListing? && !a.TakeResume?
  }

  /** In every run, while a notification is unanswered the dispatcher or the main loop can move: no
      call ever waits for the lister. */
  lemma CallsAreServed(states: seq<State>, actions: seq<Action>, i: nat)
    requires Execution(states, actions) && i < |states| && !states[i].dispatcher.Idle?
    ensures exists a: Action :: Serves(a) && Enabled(states[i], a)
  {
    ExecutionInvariant(states, actions, i);
    var s := states[i];
    MainNeverBlocksOnAPost(states, actions, i);
    MainCanMove(s);
    if s.main.AtHead? && s.event.None? {
      match s.dispatcher
      case Posting(_) => assert Enabled(s, PostNotification);
      case Awaiting(_) => assert Enabled(s, TakeReply);
      case Responding(_, _) => assert Enabled(s, Respond);
    }
  }

  lemma MainCanMove(s: State)
    requires Invariant(s)
    requires s.main.Replying? ==> Enabled(s, PostReply)
    requires s.main.Exiting? ==> Enabled(s, Exit)
    requires s.main.AtHead? ==> s.event.None? || Enabled(s, TakeEvent)
    ensures (s.main.AtHead? && s.event.None?) || exists a: Action :: Serves(a) && Enabled(s, a)
  {
    var env := Env(Throws, 0, false);
    match s.main
    case AtHead => assert s.event.Some? ==> Enabled(s, TakeEvent);
    case Handling(_) => assert Enabled(s, Handle(LetThrough, env));
    case Replying(_, _, _, _) => assert Enabled(s, PostReply);
    case Resolving => assert Enabled(s, Resolve(None, env));
    case Reconciling(_) =>
      var keys := EnumerationExists(s.tracker.ports.Keys);
      EnumerationIsContained(keys, s.tracker.ports);
      assert Enabled(s, ReconcileListing((k: PortAllocation) => Throws, keys));
    case Exiting => assert Enabled(s, Exit);
  }

  /** In every run, at every head of the loop an unacknowledged listing means no port is tracked; so
      the lister is never parked with neither listing nor token in flight while a port is tracked. */
  lemma ListerIsNotForgotten(states: seq<State>, actions: seq<Action>, i: nat)
    requires Execution(states, actions) && i < |states| && states[i].main.AtHead?
    ensures states[i].awaiting ==> states[i].tracker.ports == map[]
    ensures states[i].lister.Parked? && states[i].tracker.ports != map[] ==>
              (states[i].resume <==> !ListedIn(states[i].event))
  {
    ExecutionInvariant(states, actions, i);
  }

  /** In every run a token is put into the resume slot only at the end of a pass that leaves a port
      tracked: with nothing to reclaim the lister rests. */
  lemma ListerRestsWithoutPorts(states: seq<State>, actions: seq<Action>, i: nat)
    requires Execution(states, actions) && i < |actions|
    requires states[i + 1].resume && !states[i].resume
    ensures states[i].awaiting && states[i].lister.Parked? && states[i + 1].tracker.ports != map[]
    ensures states[i + 1].main.AtHead? && !states[i + 1].awaiting
  {
    ExecutionInvariant(states, actions, i);
    assert states[i + 1] == Apply(states[i], actions[i]);
  }

  /** A request for one port: the map afterwards. */
  ghost predicate PortsAfterRequest(before: PortMap, after: PortMap, p: PortAllocation, env: Env) {
    after == if p in before || (env.answer == Replied(0) && !env.insertThrows) then before[p := Some(env.now + 60)] else before
  }

  /** In every run the main loop settles on the result the request calls for: a call that names no port is
      allowed, a tracked port is allowed, any other port gets the host's answer, and EIO when asking it
      throws. Being allowed starts the port's sixty seconds, over again if it was tracked. */
  lemma HandleSettlesTheCall(states: seq<State>, actions: seq<Action>, i: nat)
    requires Execution(states, actions) && i < |actions| && actions[i].Handle?
    ensures var s, t, call, env := states[i], states[i + 1], actions[i].call, actions[i].env;
            && s.main.Handling? && t.main.Replying? && t.main.n == s.main.n && t.main.call == call
            && (!call.Reserve? ==> t.main.result == 0 && !t.main.threw && t.tracker == s.tracker)
            && (call.Reserve? && call.port in s.tracker.ports ==> t.main.result == 0 && !t.main.threw)
            && (call.Reserve? && call.port !in s.tracker.ports ==>
                  && t.main.result == (if env.answer.Replied? then env.answer.result else 5)
                  && (t.main.threw <==> env.answer.Throws?))
            && (call.Reserve? ==> PortsAfterRequest(s.tracker.ports, t.tracker.ports, call.port, env))
  {
    assert Enabled(states[i], actions[i]) && states[i + 1] == Apply(states[i], actions[i]);
    if actions[i].call.Reserve? {
      RequestOutcome(states[i].tracker, actions[i].call.port, actions[i].env, actions[i].call.port);
    }
    hide RequestAndTrack;
  }

  /** In every run a port-zero bind is looked up once it has its reply, and the port found is requested
      like any other; a lookup that finds nothing changes nothing. */
  lemma LaterIsResolved(states: seq<State>, actions: seq<Action>, i: nat)
    requires Execution(states, actions) && i < |actions|
    ensures var s, t := states[i], states[i + 1];
            && (actions[i].PostReply? ==> t.main == if s.main.call.Later? then Resolving else Exiting)
            && (actions[i].Resolve? ==>
                  && s.main.Resolving? && t.main.Exiting?
                  && (actions[i].found.None? ==> t.tracker == s.tracker)
                  && (actions[i].found.Some? ==>
                        PortsAfterRequest(s.tracker.ports, t.tracker.ports, actions[i].found.value, actions[i].env)))
  {
    ExecutionInvariant(states, actions, i);
    assert Enabled(states[i], actions[i]) && states[i + 1] == Apply(states[i], actions[i]);
    if actions[i].Resolve? && actions[i].found.Some? {
      RequestOutcome(states[i].tracker, actions[i].found.value, actions[i].env, actions[i].found.value);
    }
    hide RequestAndTrack, Reconcile, Inv, DispatchInv, ListerInv;
  }

  /** In every run a listing, when it is processed, takes a port off the map exactly when the history
      calls for it and the walk gets to it; a listed port that the walk gets to may go at once next time. */
  lemma ReconcileFollowsHistory(states: seq<State>, actions: seq<Action>, i: nat, k: PortAllocation)
    requires Execution(states, actions) && i < |actions| && actions[i].ReconcileListing?
    requires states[i].main.Reconciling?
    ensures var s, t, l := states[i], states[i + 1], states[i].main.listing;
            var listed := if s.mirrored then (k.port, k.protocol) in l.active.pairs else k in l.active.full;
            var reached := WalkReaches(s.mirrored, l, actions[i].answers, s.tracker, k);
            && t.main.Exiting?
            && (k in t.tracker.ports <==>
                  k in s.tracker.ports && !(Justified(s.mirrored, s.tracker.trace, k, l) && reached))
            && (k in t.tracker.ports ==>
                  t.tracker.ports[k] == if listed && reached then None else s.tracker.ports[k])
  {
    ExecutionInvariant(states, actions, i);
    var s, a := states[i], actions[i];
    assert Enabled(s, a) && states[i + 1] == Apply(s, a);
    GoesExactlyWhenDue(s.mirrored, s.main.listing, a.answers, a.keys, s.tracker, k);
    hide Reconcile, Inv, WalkReaches, Justified, Enumerates, Contains;
  }

  /** In every run only these three steps of the main loop touch the map or ask the host. */
  lemma OthersLeaveTheTracker(states: seq<State>, actions: seq<Action>, i: nat)
    requires Execution(states, actions) && i < |actions|
    requires !actions[i].Handle? && !actions[i].Resolve? && !actions[i].ReconcileListing?
    ensures states[i + 1].tracker == states[i].tracker
  {
    assert Enabled(states[i], actions[i]) && states[i + 1] == Apply(states[i], actions[i]);
  }

  /** The last listing collected in the first `i` steps. */
  function LastCollected(actions: seq<Action>, i: nat): Option<Listing>
    requires i <= |actions|
  {
    if i == 0 then None
    else if actions[i - 1].Collect? then Some(actions[i - 1].listing)
    else LastCollected(actions, i - 1)
  }

  /** Every listing in flight is this one. */
  predicate InFlight(s: State, last: Option<Listing>) {
    && (s.lister.Offering? ==> last == Some(s.lister.listing))
    && (ListedIn(s.event) ==> last == Some(s.event.value.listing))
    && (s.main.Reconciling? ==> last == Some(s.main.listing))
  }

  lemma StepKeepsListing(s: State, a: Action, last: Option<Listing>)
    requires ListerInv(s) && Enabled(s, a) && InFlight(s, last)
    ensures InFlight(Apply(s, a), if a.Collect? then Some(a.listing) else last)
  {
    hide RequestAndTrack, Reconcile, Enumerates, Contains, HandleCall;
  }

  /** In every run a listing in flight or being processed is the last one collected. */
  lemma {:induction false} ListingIsTheLatest(states: seq<State>, actions: seq<Action>, i: nat)
    requires Execution(states, actions) && i < |states|
    ensures var s, last := states[i], LastCollected(actions, i);
            && (s.lister.Offering? ==> last == Some(s.lister.listing))
            && (ListedIn(s.event) ==> last == Some(s.event.value.listing))
            && (s.main.Reconciling? ==> last == Some(s.main.listing))
  {
    hide Enabled, Apply, DispatchInv, ListerInv, ReplyInv, HeadInv, Inv;
    if i > 0 {
      ListingIsTheLatest(states, actions, i - 1);
      ExecutionInvariant(states, actions, i - 1);
      assert Enabled(states[i - 1], actions[i - 1]) && states[i] == Apply(states[i - 1], actions[i - 1]);
      StepKeepsListing(states[i - 1], actions[i - 1], LastCollected(actions, i - 1));
    }
  }

  /** In every run a call answered 0 for a port has that port tracked, exactly unless entering it into
      the map has just thrown; and a throw before a result denies the call. */
  lemma AllowedMeansTracked(states: seq<State>, actions: seq<Action>, i: nat)
    requires Execution(states, actions) && i < |actions| && actions[i].PostReply?
    ensures var s, m, tr := states[i], states[i].main, states[i].tracker;
            && m.Replying? && states[i + 1].reply == Some(m.result)
            && (m.threw ==> m.result == EIO)
            && (m.call.Reserve? && m.result == 0 ==>
                  (m.call.port !in tr.ports <==> tr.trace.Then? && tr.trace.event == Dropped(m.call.port)))
  {
    ExecutionInvariant(states, actions, i);
  }

  /** In every run the history obeys its rules (each release is of a claimed port, absent from the
      listing, and seen before or past its grace period), every tracked port is held by the host, and
      reservations and releases of a port alternate exactly when the host regrants no leaked port. */
  lemma HistoryIsLegal(states: seq<State>, actions: seq<Action>, i: nat, p: PortAllocation)
    requires Execution(states, actions) && i < |states|
    ensures var s := states[i];
            && Legal(s.mirrored, s.tracker.trace)
            && (p in s.tracker.ports <==> Claimed(s.tracker.trace, p))
            && (p in s.tracker.ports ==> p in Host(s.tracker.trace))
            && (Alternates(Successes(s.tracker.trace, p)) <==> NoRegrant(s.tracker.trace, p))
  {
    ExecutionInvariant(states, actions, i);
    var s := states[i];
    assert KeyInv(s.tracker, p);
    if p in s.tracker.ports {
      TrackedIsHeld(s.mirrored, s.tracker, p);
    }
    AlternationIffNoRegrant(s.mirrored, s.tracker.trace, p);
  }
}
