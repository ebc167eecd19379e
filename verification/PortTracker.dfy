/** The main loop's data: the map of ports reserved on the host, the operations that change it, and
    the history of what was asked of the host. */
module PortTracker {
  import opened Ports

  /** c_bind_timeout_seconds. */
  const GRACE := 60
  const EIO := 5

  /** A reserved port and, until a listing has shown it, the time at which it may be released. */
  type PortMap = map<PortAllocation, Option<int>>

  datatype Listing = Listing(active: ActivePorts, timestamp: int)

  /** A host transaction: it answers, or it throws and has no effect on the host. */
  datatype Answer = Replied(result: int) | Throws

  /** Host answers to release requests, by port. */
  type Answers = PortAllocation -> Answer

  // ---------------------------------------------------------------------
  // History
  // ---------------------------------------------------------------------

  datatype Event =
    | Granted(port: PortAllocation)                           // the host reserved it
    | Tracked(port: PortAllocation, time: int)                // entered into the map, or refreshed
    | Dropped(port: PortAllocation)                           // granted, but entering it into the map threw
    | Matched(port: PortAllocation)                           // seen by a listing
    | Released(port: PortAllocation, listing: Listing)        // the host let go of it
    | ReleaseRefused(port: PortAllocation, listing: Listing)  // the host answered with an error

  datatype Trace = Start | Then(before: Trace, event: Event)

  /** The ports the host holds. */
  function Host(t: Trace): set<PortAllocation> {
    match t
    case Start => {}
    case Then(before, Granted(p)) => Host(before) + {p}
    case Then(before, Released(p, _)) => Host(before) - {p}
    case Then(before, _) => Host(before)
  }

  /** The tracker was granted the port and has not given it up since. */
  predicate Claimed(t: Trace, p: PortAllocation) {
    match t
    case Start => false
    case Then(before, e) =>
      if e.port != p || e.Tracked? || e.Matched? then Claimed(before, p) else e.Granted?
  }

  /** When the port was last tracked. */
  function LastTracked(t: Trace, p: PortAllocation): Option<int> {
    match t
    case Start => None
    case Then(before, e) => if e.Tracked? && e.port == p then Some(e.time) else LastTracked(before, p)
  }

  /** Some listing has shown the port since it was last tracked. */
  predicate MatchedSince(t: Trace, p: PortAllocation) {
    match t
    case Start => false
    case Then(before, e) =>
      if e.Matched? && e.port == p then true
      else if e.Tracked? && e.port == p then false
      else MatchedSince(before, p)
  }

  predicate IsActive(mirrored: bool, active: ActivePorts, p: PortAllocation) {
    if mirrored then (p.port, p.protocol) in active.pairs else p in active.full
  }

  /** The port may be given up on this listing: it is not in it, and it was either seen before or
      tracked more than sixty seconds before the listing was taken. */
  predicate Justified(mirrored: bool, before: Trace, p: PortAllocation, l: Listing) {
    && (if mirrored then (p.port, p.protocol) !in l.active.pairs else p !in l.active.full)
    && (MatchedSince(before, p) ||
        (LastTracked(before, p).Some? && LastTracked(before, p).value + 60 < l.timestamp))
  }

  /** The rule each event obeys, given what came before it. */
  predicate Obeys(mirrored: bool, before: Trace, e: Event) {
    match e
    case Granted(p) => !Claimed(before, p)
    case Tracked(p, _) => Claimed(before, p)
    case Dropped(p) => Claimed(before, p)
    case Matched(p) => Claimed(before, p)
    case Released(p, l) => Claimed(before, p) && Justified(mirrored, before, p, l)
    case ReleaseRefused(p, l) => Claimed(before, p) && Justified(mirrored, before, p, l)
  }

  predicate Legal(mirrored: bool, t: Trace) {
    match t
    case Start => true
    case Then(before, e) => Legal(mirrored, before) && Obeys(mirrored, before, e)
  }

  lemma {:induction false} ClaimedIsHeld(t: Trace, p: PortAllocation)
    requires Claimed(t, p)
    ensures p in Host(t)
  {
    match t
    case Then(before, e) =>
      if e.port != p || e.Tracked? || e.Matched? {
        ClaimedIsHeld(before, p);
      }
  }

  // ---------------------------------------------------------------------
  // Alternation on the host
  // ---------------------------------------------------------------------

  /** The successful reservations and releases of one port, in order. */
  function Successes(t: Trace, p: PortAllocation): seq<Event> {
    match t
    case Start => []
    case Then(before, e) =>
      Successes(before, p) + (if e.port == p && (e.Granted? || e.Released?) then [e] else [])
  }

  ghost predicate Alternates(events: seq<Event>) {
    forall i :: 0 <= i < |events| ==> if i % 2 == 0 then events[i].Granted? else events[i].Released?
  }

  /** The tracker lost its hold on a port the host still keeps. */
  predicate Leaked(t: Trace, p: PortAllocation) {
    t.Then? && (Leaked(t.before, p) || (t.event.port == p && (t.event.Dropped? || t.event.ReleaseRefused?)))
  }

  /** The host never grants the port again after it leaked. */
  predicate NoRegrant(t: Trace, p: PortAllocation) {
    t.Then? ==> NoRegrant(t.before, p) && (t.event == Granted(p) ==> !Leaked(t.before, p))
  }

  /** What alternation and leaks say about the host. */
  lemma {:induction false} HostFromSuccesses(mirrored: bool, t: Trace, p: PortAllocation)
    requires Legal(mirrored, t)
    ensures Alternates(Successes(t, p)) <==> NoRegrant(t, p)
    ensures Alternates(Successes(t, p)) ==> (|Successes(t, p)| % 2 == 1 <==> p in Host(t))
    ensures NoRegrant(t, p) ==> (Leaked(t, p) <==> p in Host(t) && !Claimed(t, p))
  {
    match t
    case Start =>
    case Then(before, e) =>
      HostFromSuccesses(mirrored, before, p);
      hide Justified;
      var s, s' := Successes(before, p), Successes(t, p);
      if e.port == p {
        if Claimed(before, p) {
          ClaimedIsHeld(before, p);
        }
        if e.Granted? || e.Released? {
          assert s' == s + [e];
          assert Alternates(s') <==> Alternates(s) && (if |s| % 2 == 0 then e.Granted? else e.Released?) by {
            assert s'[|s|] == e;
            assert forall i :: 0 <= i < |s| ==> s'[i] == s[i];
          }
        } else {
          assert s' == s;
        }
      } else {
        assert s' == s;
      }
  }

  /** Successful reservations and releases of a port strictly alternate, starting with a
      reservation, exactly when the host never grants a port again that the tracker had leaked. */
  lemma AlternationIffNoRegrant(mirrored: bool, t: Trace, p: PortAllocation)
    requires Legal(mirrored, t)
    ensures Alternates(Successes(t, p)) <==> NoRegrant(t, p)
  {
    HostFromSuccesses(mirrored, t, p);
  }

  // ---------------------------------------------------------------------
  // The operations on values
  // ---------------------------------------------------------------------

  datatype Tracker = Tracker(ports: PortMap, trace: Trace) {
    function Log(e: Event): Tracker {
      this.(trace := Then(trace, e))
    }
  }

  /** The map says what the history says: which ports are claimed, and whether each may go. */
  ghost predicate KeyInv(tr: Tracker, p: PortAllocation) {
    && (p in tr.ports <==> Claimed(tr.trace, p))
    && (p in tr.ports ==>
          && LastTracked(tr.trace, p).Some?
          && tr.ports[p] ==
             if MatchedSince(tr.trace, p) then None else Some(LastTracked(tr.trace, p).value + GRACE))
  }

  ghost predicate Inv(mirrored: bool, tr: Tracker) {
    Legal(mirrored, tr.trace) && forall p :: KeyInv(tr, p)
  }

  /** HandleRequest: a port already tracked is allowed without asking the host. */
  function HandleRequest(tr: Tracker, p: PortAllocation, answer: Answer): (Tracker, Answer) {
    if p in tr.ports then (tr, Replied(0))
    else if answer == Replied(0) then (tr.Log(Granted(p)), answer)
    else (tr, answer)
  }

  /** TrackPort: the deadline starts over; only a new entry can fail, and the failure is swallowed. */
  function TrackPort(tr: Tracker, p: PortAllocation, now: int, insertThrows: bool): Tracker {
    if p !in tr.ports && insertThrows then tr.Log(Dropped(p))
    else tr.(ports := tr.ports[p := Some(now + GRACE)]).Log(Tracked(p, now))
  }

  /** What the environment contributes to one request. */
  datatype Env = Env(answer: Answer, now: int, insertThrows: bool)

  function RequestAndTrack(tr: Tracker, p: PortAllocation, env: Env): (Tracker, Answer) {
    var (asked, answer) := HandleRequest(tr, p, env.answer);
    if answer == Replied(0) then (TrackPort(asked, p, env.now, env.insertThrows), answer) else (asked, answer)
  }

  datatype Outcome = Outcome(tracker: Tracker, threw: bool)

  /** The release test of ReconcileAllocatedPorts for a port that is not active. */
  predicate Expired(deadline: Option<int>, timestamp: int) {
    deadline.None? || deadline.value < timestamp
  }

  predicate WouldRelease(mirrored: bool, l: Listing, ports: PortMap, k: PortAllocation) {
    k in ports && !IsActive(mirrored, l.active, k) && Expired(ports[k], l.timestamp)
  }

  /** One turn of the reconcile loop. */
  function ReconcileKey(mirrored: bool, l: Listing, answers: Answers, k: PortAllocation, tr: Tracker): Outcome
    requires k in tr.ports
  {
    if IsActive(mirrored, l.active, k) then
      Outcome(tr.(ports := tr.ports[k := None]).Log(Matched(k)), false)
    else if Expired(tr.ports[k], l.timestamp) then
      match answers(k)
      case Replied(result) =>
        Outcome(tr.(ports := tr.ports - {k}).Log(if result == 0 then Released(k, l) else ReleaseRefused(k, l)), false)
      case Throws => Outcome(tr, true)
    else Outcome(tr, false)
  }

  predicate Contains(keys: seq<PortAllocation>, ports: PortMap) {
    && (forall i :: 0 <= i < |keys| ==> keys[i] in ports)
    && (forall i, j :: 0 <= i < j < |keys| ==> keys[i] != keys[j])
  }

  /** The loop over the keys still to come. */
  function Reconcile(mirrored: bool, l: Listing, answers: Answers, keys: seq<PortAllocation>, tr: Tracker): Outcome
    requires Contains(keys, tr.ports)
  {
    if keys == [] then Outcome(tr, false)
    else
      var o := ReconcileKey(mirrored, l, answers, keys[0], tr);
      if o.threw then o else Reconcile(mirrored, l, answers, keys[1..], o.tracker)
  }

  lemma ContainsRest(mirrored: bool, l: Listing, answers: Answers, keys: seq<PortAllocation>, tr: Tracker)
    requires Contains(keys, tr.ports) && keys != []
    ensures keys[0] in tr.ports
    ensures Contains(keys[1..], ReconcileKey(mirrored, l, answers, keys[0], tr).tracker.ports)
  {
    assert forall i :: 0 <= i < |keys[1..]| ==> keys[1..][i] == keys[i + 1];
  }

  lemma ReconcileTurn(mirrored: bool, l: Listing, answers: Answers, keys: seq<PortAllocation>, tr: Tracker)
    requires Contains(keys, tr.ports)
    ensures keys == [] ==> Reconcile(mirrored, l, answers, keys, tr) == Outcome(tr, false)
    ensures keys != [] ==>
              && keys[0] in tr.ports
              && var o := ReconcileKey(mirrored, l, answers, keys[0], tr);
              && Contains(keys[1..], o.tracker.ports)
              && Reconcile(mirrored, l, answers, keys, tr) ==
                 (if o.threw then o else Reconcile(mirrored, l, answers, keys[1..], o.tracker))
  {
    if keys != [] {
      ContainsRest(mirrored, l, answers, keys, tr);
    }
  }

  lemma ContainsAll(keys: seq<PortAllocation>, ports: PortMap)
    requires Contains(keys, ports)
    ensures forall i :: 0 <= i < |keys| ==> keys[i] in ports
  {
  }

  lemma ReconcileKeyShrinks(mirrored: bool, l: Listing, answers: Answers, k: PortAllocation, tr: Tracker)
    requires k in tr.ports
    ensures ReconcileKey(mirrored, l, answers, k, tr).tracker.ports.Keys <= tr.ports.Keys
  {
  }

  lemma EnumerationIsContained(keys: seq<PortAllocation>, ports: PortMap)
    requires Enumerates(keys, ports.Keys)
    ensures Contains(keys, ports)
  {
    hide Less;
    forall i, j | 0 <= i < j < |keys|
      ensures keys[i] != keys[j]
    {
      LessIsStrictTotalOrder(keys[i], keys[j], keys[j]);
    }
    forall i | 0 <= i < |keys|
      ensures keys[i] in ports
    {
      assert keys[i] in keys;
    }
  }

  /** A request, by what it is given: a tracked port is allowed without asking the host, any other gets
      the host's answer; being allowed starts a grace period of sixty seconds, again for a tracked port,
      unless a new entry cannot be made; and the host grants the port only when it was asked. */
  lemma RequestOutcome(tr: Tracker, p: PortAllocation, env: Env, q: PortAllocation)
    ensures var (out, answer) := RequestAndTrack(tr, p, env);
            var granted := p !in tr.ports && env.answer == Replied(0);
            var tracked := p in tr.ports || (granted && !env.insertThrows);
            && answer == (if p in tr.ports then Replied(0) else env.answer)
            && out.ports == (if tracked then tr.ports[p := Some(env.now + 60)] else tr.ports)
            && (tracked ==> LastTracked(out.trace, p) == Some(env.now) && !MatchedSince(out.trace, p))
            && Successes(out.trace, q) == Successes(tr.trace, q) + (if granted && q == p then [Granted(p)] else [])
            && (Leaked(out.trace, q) <==> Leaked(tr.trace, q) || (q == p && granted && env.insertThrows))
  {
    var s := Successes(tr.trace, q);
    assert s + [] == s && s + [] + [] == s && s + [Granted(p)] + [] == s + [Granted(p)];
  }

  // ---------------------------------------------------------------------
  // Every operation keeps the invariant
  // ---------------------------------------------------------------------

  /** Events about other ports change nothing for a port. */
  lemma Frame(tr: Tracker, e: Event, ports: PortMap, p: PortAllocation)
    requires KeyInv(tr, p) && p != e.port
    requires p in ports <==> p in tr.ports
    requires p in ports ==> ports[p] == tr.ports[p]
    ensures KeyInv(Tracker(ports, Then(tr.trace, e)), p)
  {
  }

  lemma RequestAndTrackKeepsInv(mirrored: bool, tr: Tracker, p: PortAllocation, env: Env)
    requires Inv(mirrored, tr)
    ensures Inv(mirrored, RequestAndTrack(tr, p, env).0)
  {
    var (tr', answer) := RequestAndTrack(tr, p, env);
    assert KeyInv(tr, p);
    if tr' != tr {
      forall q
        ensures KeyInv(tr', q)
      {
        assert KeyInv(tr, q);
      }
    }
  }

  lemma ReconcileKeyKeepsInv(mirrored: bool, l: Listing, answers: Answers, k: PortAllocation, tr: Tracker)
    requires Inv(mirrored, tr) && k in tr.ports
    ensures Inv(mirrored, ReconcileKey(mirrored, l, answers, k, tr).tracker)
  {
    var tr' := ReconcileKey(mirrored, l, answers, k, tr).tracker;
    assert KeyInv(tr, k);
    if tr' != tr {
      forall q
        ensures KeyInv(tr', q)
      {
        assert KeyInv(tr, q);
        if q != k {
          Frame(tr, tr'.trace.event, tr'.ports, q);
        }
      }
    }
  }

  lemma {:induction false} ReconcileKeepsInv(mirrored: bool, l: Listing, answers: Answers,
                                             keys: seq<PortAllocation>, tr: Tracker)
    requires Inv(mirrored, tr) && Contains(keys, tr.ports)
    ensures Inv(mirrored, Reconcile(mirrored, l, answers, keys, tr).tracker)
    decreases |keys|
  {
    hide Inv, IsActive, Expired;
    if keys != [] {
      ReconcileKeyKeepsInv(mirrored, l, answers, keys[0], tr);
      var o := ReconcileKey(mirrored, l, answers, keys[0], tr);
      if !o.threw {
        ReconcileKeepsInv(mirrored, l, answers, keys[1..], o.tracker);
      }
    }
  }

  /** Every tracked port is held by the host. */
  lemma TrackedIsHeld(mirrored: bool, tr: Tracker, p: PortAllocation)
    requires Inv(mirrored, tr) && p in tr.ports
    ensures p in Host(tr.trace)
  {
    assert KeyInv(tr, p);
    ClaimedIsHeld(tr.trace, p);
  }

  // ---------------------------------------------------------------------
  // The loop as a pointwise filter
  // ---------------------------------------------------------------------

  /** The walk gets past every key up to and including `k` without a throw. */
  predicate ReachedIn(mirrored: bool, l: Listing, answers: Answers, keys: seq<PortAllocation>, ports: PortMap,
                      k: PortAllocation)
  {
    && keys != []
    && !(WouldRelease(mirrored, l, ports, keys[0]) && answers(keys[0]).Throws?)
    && (keys[0] == k || ReachedIn(mirrored, l, answers, keys[1..], ports, k))
  }

  lemma {:induction false} ReachedInFrame(mirrored: bool, l: Listing, answers: Answers, keys: seq<PortAllocation>,
                                          ports: PortMap, ports': PortMap, k: PortAllocation)
    requires forall i :: 0 <= i < |keys| ==>
               (keys[i] in ports <==> keys[i] in ports') && (keys[i] in ports ==> ports[keys[i]] == ports'[keys[i]])
    ensures ReachedIn(mirrored, l, answers, keys, ports, k) == ReachedIn(mirrored, l, answers, keys, ports', k)
    decreases |keys|
  {
    if keys != [] {
      ReachedInFrame(mirrored, l, answers, keys[1..], ports, ports', k);
    }
  }

  lemma {:induction false} ReconcileFate(mirrored: bool, l: Listing, answers: Answers, keys: seq<PortAllocation>,
                                         tr: Tracker, k: PortAllocation)
    requires Contains(keys, tr.ports)
    ensures var out := Reconcile(mirrored, l, answers, keys, tr).tracker.ports;
            var reached := ReachedIn(mirrored, l, answers, keys, tr.ports, k);
            && (k in out <==> k in tr.ports && !(reached && WouldRelease(mirrored, l, tr.ports, k)))
            && (k in out ==> out[k] == if reached && IsActive(mirrored, l.active, k) then None else tr.ports[k])
    decreases |keys|
  {
    if keys != [] {
      var o := ReconcileKey(mirrored, l, answers, keys[0], tr);
      if !o.threw {
        var rest := keys[1..];
        assert Contains(rest, o.tracker.ports);
        assert forall i :: 0 <= i < |rest| ==> rest[i] == keys[i + 1];
        ReconcileFate(mirrored, l, answers, rest, o.tracker, k);
        ReachedInFrame(mirrored, l, answers, rest, tr.ports, o.tracker.ports, k);
        if k == keys[0] {
          NotReachedOutside(mirrored, l, answers, rest, o.tracker.ports, k);
        }
      }
    }
  }

  lemma {:induction false} NotReachedOutside(mirrored: bool, l: Listing, answers: Answers, keys: seq<PortAllocation>,
                                             ports: PortMap, k: PortAllocation)
    requires k !in keys
    ensures !ReachedIn(mirrored, l, answers, keys, ports, k)
    decreases |keys|
  {
    if keys != [] {
      NotReachedOutside(mirrored, l, answers, keys[1..], ports, k);
    }
  }

  /** No release of a key at or before `k` throws. */
  ghost predicate Reached(mirrored: bool, l: Listing, answers: Answers, ports: PortMap, k: PortAllocation) {
    forall j :: WouldRelease(mirrored, l, ports, j) && (j == k || Less(j, k)) ==> answers(j).Replied?
  }

  lemma {:induction false} ReachedByIndex(mirrored: bool, l: Listing, answers: Answers, keys: seq<PortAllocation>,
                                          ports: PortMap, i: nat)
    requires Ascending(keys) && i < |keys|
    ensures ReachedIn(mirrored, l, answers, keys, ports, keys[i]) <==>
            forall j :: 0 <= j <= i ==> !(WouldRelease(mirrored, l, ports, keys[j]) && answers(keys[j]).Throws?)
    decreases i
  {
    hide Less, WouldRelease;
    if i > 0 {
      LessIsStrictTotalOrder(keys[0], keys[i], keys[i]);
      var rest := keys[1..];
      assert forall j :: 0 <= j < |rest| ==> rest[j] == keys[j + 1];
      ReachedByIndex(mirrored, l, answers, rest, ports, i - 1);
      if forall j :: 0 <= j <= i ==> !(WouldRelease(mirrored, l, ports, keys[j]) && answers(keys[j]).Throws?) {
        assert forall j :: 0 <= j <= i - 1 ==>
            !(WouldRelease(mirrored, l, ports, rest[j]) && answers(rest[j]).Throws?);
      }
      if ReachedIn(mirrored, l, answers, keys, ports, keys[i]) {
        forall j | 0 <= j <= i
          ensures !(WouldRelease(mirrored, l, ports, keys[j]) && answers(keys[j]).Throws?)
        {
          if j > 0 {
            assert keys[j] == rest[j - 1];
          }
        }
      }
    }
  }

  lemma ReachedInIsReached(mirrored: bool, l: Listing, answers: Answers, keys: seq<PortAllocation>,
                           ports: PortMap, k: PortAllocation)
    requires Enumerates(keys, ports.Keys) && k in ports
    ensures ReachedIn(mirrored, l, answers, keys, ports, k) <==> Reached(mirrored, l, answers, ports, k)
  {
    assert k in keys;
    var i :| 0 <= i < |keys| && keys[i] == k;
    ReachedByIndex(mirrored, l, answers, keys, ports, i);
    if Reached(mirrored, l, answers, ports, k) {
      assert forall j :: 0 <= j <= i ==> !(WouldRelease(mirrored, l, ports, keys[j]) && answers(keys[j]).Throws?);
    } else {
      var j :| WouldRelease(mirrored, l, ports, j) && (j == k || Less(j, k)) && !answers(j).Replied?;
      assert j in ports.Keys && j in keys;
      var n :| 0 <= n < |keys| && keys[n] == j;
      LessIsStrictTotalOrder(keys[i], j, j);
      assert n <= i;
    }
  }

  /** Erasing while iterating is a pointwise filter: an entry goes exactly when it is absent from the
      listing, its deadline allows it, and no release throws up to it; an entry seen by the listing
      loses its deadline; every other entry is untouched. */
  lemma {:induction false} ReconcileIsPointwise(mirrored: bool, l: Listing, answers: Answers, keys: seq<PortAllocation>, tr: Tracker,
                             k: PortAllocation)
    requires Enumerates(keys, tr.ports.Keys) && Contains(keys, tr.ports)
    ensures var out := Reconcile(mirrored, l, answers, keys, tr).tracker.ports;
            var reached := Reached(mirrored, l, answers, tr.ports, k);
            && (k in out <==> k in tr.ports && !(reached && WouldRelease(mirrored, l, tr.ports, k)))
            && (k in out ==> out[k] == if reached && IsActive(mirrored, l.active, k) then None else tr.ports[k])
  {
    ReconcileFate(mirrored, l, answers, keys, tr, k);
    if k in tr.ports {
      ReachedInIsReached(mirrored, l, answers, keys, tr.ports, k);
    }
  }

  // ---------------------------------------------------------------------
  // Mirrored mode
  // ---------------------------------------------------------------------

  /** The keys a reconcile gives up. */
  ghost predicate GivesUp(mirrored: bool, l: Listing, answers: Answers, ports: PortMap, k: PortAllocation) {
    WouldRelease(mirrored, l, ports, k) && Reached(mirrored, l, answers, ports, k)
  }

  /** What a pass records about one port: its release, when the walk gets to it and the host agrees. */
  lemma {:induction false} ReconcileLog(mirrored: bool, l: Listing, answers: Answers, keys: seq<PortAllocation>,
                                        tr: Tracker, k: PortAllocation)
    requires Contains(keys, tr.ports)
    ensures var released := ReachedIn(mirrored, l, answers, keys, tr.ports, k) && WouldRelease(mirrored, l, tr.ports, k) &&
                            answers(k) == Replied(0);
            Successes(Reconcile(mirrored, l, answers, keys, tr).tracker.trace, k) ==
            Successes(tr.trace, k) + (if released then [Released(k, l)] else [])
    decreases |keys|
  {
    hide IsActive, Expired;
    var s := Successes(tr.trace, k);
    assert s + [] == s && s + [] + [] == s && s + [Released(k, l)] + [] == s + [Released(k, l)];
    if keys != [] {
      var o := ReconcileKey(mirrored, l, answers, keys[0], tr);
      if !o.threw {
        ContainsRest(mirrored, l, answers, keys, tr);
        ReconcileLog(mirrored, l, answers, keys[1..], o.tracker, k);
        if k == keys[0] {
          assert forall i :: 0 <= i < |keys[1..]| ==> keys[1..][i] == keys[i + 1];
          assert k !in keys[1..];
          NotReachedOutside(mirrored, l, answers, keys[1..], o.tracker.ports, k);
        } else {
          assert forall i :: 0 <= i < |keys[1..]| ==> keys[1..][i] == keys[i + 1];
          ReachedInFrame(mirrored, l, answers, keys[1..], o.tracker.ports, tr.ports, k);
        }
      }
    }
  }

  /** The walk gets to this port: every port up to it that is due can be given up without a throw. */
  ghost predicate WalkReaches(mirrored: bool, l: Listing, answers: Answers, tr: Tracker, k: PortAllocation) {
    forall j :: j in tr.ports && Justified(mirrored, tr.trace, j, l) && (j == k || Less(j, k)) ==> answers(j).Replied?
  }

  lemma JustifiedByHistory(mirrored: bool, l: Listing, tr: Tracker, k: PortAllocation)
    requires Inv(mirrored, tr)
    ensures WouldRelease(mirrored, l, tr.ports, k) <==> k in tr.ports && Justified(mirrored, tr.trace, k, l)
  {
    assert KeyInv(tr, k);
  }

  /** A pass in terms of the history: a port goes exactly when it is due and the walk gets to it, and the
      host lets go of it exactly when it then answers 0. */
  lemma {:induction false} GoesExactlyWhenDue(mirrored: bool, l: Listing, answers: Answers, keys: seq<PortAllocation>,
                                              tr: Tracker, k: PortAllocation)
    requires Inv(mirrored, tr) && Enumerates(keys, tr.ports.Keys) && Contains(keys, tr.ports)
    ensures var out := Reconcile(mirrored, l, answers, keys, tr).tracker;
            var listed := if mirrored then (k.port, k.protocol) in l.active.pairs else k in l.active.full;
            var reached := WalkReaches(mirrored, l, answers, tr, k);
            var gone := k in tr.ports && Justified(mirrored, tr.trace, k, l) && reached;
            && (k in out.ports <==> k in tr.ports && !gone)
            && (k in out.ports ==> out.ports[k] == if listed && reached then None else tr.ports[k])
            && Successes(out.trace, k) == Successes(tr.trace, k) +
               (if gone && answers(k) == Replied(0) then [Released(k, l)] else [])
  {
    hide Reconcile, Inv, Enumerates, Contains, Less, Justified, WouldRelease, ReachedIn, Expired;
    ReconcileIsPointwise(mirrored, l, answers, keys, tr, k);
    ReconcileLog(mirrored, l, answers, keys, tr, k);
    forall j
      ensures WouldRelease(mirrored, l, tr.ports, j) <==> j in tr.ports && Justified(mirrored, tr.trace, j, l)
    {
      JustifiedByHistory(mirrored, l, tr, j);
    }
    assert Reached(mirrored, l, answers, tr.ports, k) <==> WalkReaches(mirrored, l, answers, tr, k);
    if k in tr.ports {
      ReachedInIsReached(mirrored, l, answers, keys, tr.ports, k);
    }
  }

  /** Only the other modes release this port: another socket shows its port and protocol. */
  predicate OnlyUnmirrored(l: Listing, ports: PortMap, j: PortAllocation) {
    WouldRelease(false, l, ports, j) && !WouldRelease(true, l, ports, j)
  }

  /** On the same input mirrored mode gives up a subset of what the other modes give up, exactly when
      none of these gives up a port behind one whose release throws in the other modes only. */
  lemma MirroredGivesUpLess(l: Listing, answers: Answers, ports: PortMap)
    requires Projects(l.active)
    ensures (forall k :: GivesUp(true, l, answers, ports, k) ==> GivesUp(false, l, answers, ports, k)) <==>
            (forall j, k :: GivesUp(true, l, answers, ports, k) && OnlyUnmirrored(l, ports, j) && Less(j, k) ==>
               answers(j).Replied?)
    ensures (forall k :: k in ports ==> answers(k).Replied?) ==>
            forall k :: GivesUp(true, l, answers, ports, k) ==> GivesUp(false, l, answers, ports, k)
  {
    hide Less;
    assert forall k :: WouldRelease(true, l, ports, k) ==> WouldRelease(false, l, ports, k);
    if forall j, k :: GivesUp(true, l, answers, ports, k) && OnlyUnmirrored(l, ports, j) && Less(j, k) ==>
         answers(j).Replied? {
      forall k | GivesUp(true, l, answers, ports, k)
        ensures Reached(false, l, answers, ports, k)
      {
        forall j | WouldRelease(false, l, ports, j) && (j == k || Less(j, k))
          ensures answers(j).Replied?
        {
          assert OnlyUnmirrored(l, ports, j) || WouldRelease(true, l, ports, j);
        }
      }
    }
  }

  function ThrowsFor(p: PortAllocation): Answers {
    k => if k == p then Throws else Replied(0)
  }

  /** Port 80 is held open by a socket on another address, and only the other modes try to release it.
      That throws, so only mirrored mode gets as far as giving up port 81. */
  lemma MirroredGivesUpMore(here: Address, there: Address)
    requires here != there
    ensures var first, second := PortAllocation(here, 80, AF_INET, 6), PortAllocation(here, 81, AF_INET, 6);
            var l := Listing(ActivePorts({PortAllocation(there, 80, AF_INET, 6)}, {(80, 6)}), 100);
            var ports := map[first := None, second := None];
            && Projects(l.active)
            && GivesUp(true, l, ThrowsFor(first), ports, second)
            && !GivesUp(false, l, ThrowsFor(first), ports, second)
  {
    var first, second := PortAllocation(here, 80, AF_INET, 6), PortAllocation(here, 81, AF_INET, 6);
    var other := PortAllocation(there, 80, AF_INET, 6);
    var l := Listing(ActivePorts({other}, {(80, 6)}), 100);
    var ports := map[first := None, second := None];
    assert other in l.active.full && other.port == 80 && other.protocol == 6;
    assert WouldRelease(false, l, ports, first) && Less(first, second);
  }

  /** The host answers every release with an error. */
  function RefuseAll(k: PortAllocation): Answer {
    Replied(1)
  }

  /** A granted port whose entry into the map throws is allowed, held by the host and not tracked. */
  lemma SwallowedInsertAllowsUntracked(p: PortAllocation)
    ensures var (tr, answer) := RequestAndTrack(Tracker(map[], Start), p, Env(Replied(0), 0, true));
            answer == Replied(0) && p in Host(tr.trace) && p !in tr.ports && Leaked(tr.trace, p)
  {
    assert Host(Then(Start, Granted(p))) == {p};
  }

  /** A release the host refuses still drops the entry, so the next bind asks the host again: two
      reservations in a row. */
  lemma RefusedReleaseBreaksAlternation(p: PortAllocation)
    ensures var env := Env(Replied(0), 0, false);
            var l := Listing(ActivePorts({}, {}), 100);
            var granted := RequestAndTrack(Tracker(map[], Start), p, env).0;
            && Contains([p], granted.ports)
            && var refused := Reconcile(false, l, RefuseAll, [p], granted).tracker;
            var again := RequestAndTrack(refused, p, env).0;
            && Successes(again.trace, p) == [Granted(p), Granted(p)]
            && !Alternates(Successes(again.trace, p))
  {
    var env := Env(Replied(0), 0, false);
    var l := Listing(ActivePorts({}, {}), 100);
    var answers: Answers := RefuseAll;
    var granted := RequestAndTrack(Tracker(map[], Start), p, env).0;
    assert granted == Tracker(map[p := Some(GRACE)], Then(Then(Start, Granted(p)), Tracked(p, 0)));
    var o := ReconcileKey(false, l, answers, p, granted);
    assert o.tracker.trace == Then(granted.trace, ReleaseRefused(p, l)) && p !in o.tracker.ports;
    assert [p][1..] == [];
    assert Reconcile(false, l, answers, [p][1..], o.tracker) == Outcome(o.tracker, false);
    var refused := Reconcile(false, l, answers, [p], granted).tracker;
    assert refused == o.tracker;
    var again := RequestAndTrack(refused, p, env).0;
    assert again.trace == Then(Then(refused.trace, Granted(p)), Tracked(p, 0));
    assert Successes(Then(Start, Granted(p)), p) == [Granted(p)];
    assert Successes(granted.trace, p) == [Granted(p)];
    assert Successes(refused.trace, p) == [Granted(p)];
    assert Successes(Then(refused.trace, Granted(p)), p) == [Granted(p)] + [Granted(p)];
    var s := Successes(again.trace, p);
    assert s == [Granted(p), Granted(p)] && s[1].Granted?;
  }

  // ---------------------------------------------------------------------
  // The tracker object
  // ---------------------------------------------------------------------

  /** GnsPortTracker's map and the operations of its main loop. */
  class GnsPortTracker {
    const mirrored: bool
    var allocatedPorts: PortMap
    ghost var trace: Trace

    ghost function Value(): Tracker
      reads this
    {
      Tracker(allocatedPorts, trace)
    }

    ghost predicate Valid()
      reads this
    {
      Inv(mirrored, Value())
    }

    constructor (mirrored: bool)
      ensures Valid() && this.mirrored == mirrored && Value() == Tracker(map[], Start)
    {
      this.mirrored := mirrored;
      allocatedPorts := map[];
      trace := Start;
    }

    method Request(port: PortAllocation, answer: Answer) returns (result: Answer)
      modifies this`trace
      ensures (Value(), result) == HandleRequest(old(Value()), port, answer)
      ensures result == if port in allocatedPorts then Replied(0) else answer
    {
      if port in allocatedPorts {
        return Replied(0);
      }
      if answer == Replied(0) {
        trace := Then(trace, Granted(port));
      }
      return answer;
    }

    method Track(port: PortAllocation, now: int, insertThrows: bool)
      modifies this
      ensures Value() == TrackPort(old(Value()), port, now, insertThrows)
      ensures allocatedPorts == if port !in old(allocatedPorts) && insertThrows then old(allocatedPorts)
                                else old(allocatedPorts)[port := Some(now + 60)]
    {
      if port !in allocatedPorts && insertThrows {
        trace := Then(trace, Dropped(port));
      } else {
        allocatedPorts := allocatedPorts[port := Some(now + GRACE)];
        trace := Then(trace, Tracked(port, now));
      }
    }

    /** One request of the main loop; a throw leaves the default result to the caller. */
    method RequestPort(port: PortAllocation, env: Env) returns (result: Answer)
      requires Valid()
      modifies this
      ensures Valid() && (Value(), result) == RequestAndTrack(old(Value()), port, env)
      ensures result == if port in old(allocatedPorts) then Replied(0) else env.answer
      ensures allocatedPorts == if port in old(allocatedPorts) || (env.answer == Replied(0) && !env.insertThrows)
                                then old(allocatedPorts)[port := Some(env.now + 60)]
                                else old(allocatedPorts)
    {
      RequestAndTrackKeepsInv(mirrored, Value(), port, env);
      result := Request(port, env.answer);
      if result == Replied(0) {
        Track(port, env.now, env.insertThrows);
      }
    }

    /** One turn of the loop. */
    method ReconcileOne(k: PortAllocation, l: Listing, answers: Answers) returns (threw: bool)
      requires k in allocatedPorts
      modifies this
      ensures Outcome(Value(), threw) == ReconcileKey(mirrored, l, answers, k, old(Value()))
    {
      hide IsActive, Expired;
      threw := false;
      if IsActive(mirrored, l.active, k) {
        allocatedPorts := allocatedPorts[k := None];
        trace := Then(trace, Matched(k));
      } else if Expired(allocatedPorts[k], l.timestamp) {
        match answers(k) {
          case Replied(result) =>
            allocatedPorts := allocatedPorts - {k};
            trace := Then(trace, if result == 0 then Released(k, l) else ReleaseRefused(k, l));
          case Throws =>
            threw := true;
        }
      }
    }

    /** The erase-while-iterating loop: the iterator is a key of the map it walks, and goes to the next
        key of the map as it is after the turn. `keys` are those of the map at the start in order;
        `visited` are those it was at. A throw ends it where it stands. */
    method ReconcileAllocatedPorts(l: Listing, answers: Answers)
      returns (threw: bool, ghost keys: seq<PortAllocation>, ghost visited: seq<PortAllocation>)
      requires Valid()
      modifies this
      ensures Valid() && Enumerates(keys, old(allocatedPorts).Keys) && Contains(keys, old(allocatedPorts))
      ensures visited <= keys && (!threw ==> visited == keys)
      ensures Outcome(Value(), threw) == Reconcile(mirrored, l, answers, keys, old(Value()))
    {
      hide Reconcile, ReconcileKey, Inv, Enumerates, Contains, Less, IsNext;
      keys := EnumerationExists(allocatedPorts.Keys);
      EnumerationIsContained(keys, allocatedPorts);
      ReconcileKeepsInv(mirrored, l, answers, keys, Value());
      threw := false;
      ghost var n, all := 0, allocatedPorts.Keys;
      ghost var goal := Reconcile(mirrored, l, answers, keys, Value());
      var it := Next(allocatedPorts.Keys, None);
      assert keys[0..] == keys;
      ContainsAll(keys, allocatedPorts);
      NextOfRest(keys, all, allocatedPorts.Keys, 0, None, it);
      while it.Some? && !threw
        invariant 0 <= n <= |keys| && allocatedPorts.Keys <= all && Enumerates(keys, all)
        invariant threw ==> Outcome(Value(), true) == goal
        invariant !threw ==> it == if n < |keys| then Some(keys[n]) else None
        invariant !threw ==> Contains(keys[n..], allocatedPorts)
        invariant !threw ==> Reconcile(mirrored, l, answers, keys[n..], Value()) == goal
        decreases |keys| - n, !threw
      {
        ghost var before := Value();
        assert keys[n..][0] == keys[n] && keys[n..][1..] == keys[n + 1..];
        ReconcileTurn(mirrored, l, answers, keys[n..], before);
        ReconcileKeyShrinks(mirrored, l, answers, keys[n], before);
        threw := ReconcileOne(it.value, l, answers);
        n := n + 1;
        if !threw {
          it := Next(allocatedPorts.Keys, it);
          ContainsAll(keys[n..], allocatedPorts);
          assert forall j :: n <= j < |keys| ==> keys[j] == keys[n..][j - n];
          NextOfRest(keys, all, allocatedPorts.Keys, n, Some(keys[n - 1]), it);
        }
      }
      if !threw {
        ReconcileTurn(mirrored, l, answers, keys[n..], Value());
      }
      visited := keys[..n];
    }
  }
}
