/** DNS over UDP: the table of requests waiting for the host's answer, and the queue of their
    deadlines, which index each other. */
module DnsUdp {

  datatype Option<+T> = None | Some(value: T)

  /** Steady-clock times are in nanoseconds. */
  const MILLISECOND := 1_000_000
  const TIMEOUT := 60_000 * MILLISECOND
  const ID_SPACE := 0x1_0000_0000

  type Address = int
  type Handle = int

  /** A node of the expiration list; `handle` is its iterator, never used again for another node. */
  datatype Node = Node(handle: Handle, deadline: int, id: int)

  datatype Context = Context(remoteAddress: Address, expiration: Handle)

  // ---------------------------------------------------------------------
  // History
  // ---------------------------------------------------------------------

  /** A request is named by the handle of its queue node. */
  datatype Event =
    | Accept(handle: Handle, id: int, address: Address)
    | Answer(handle: Handle, address: Address)   // the host's response is sent to the address
    | Forget(handle: Handle)                     // expired, or could not be tunneled

  datatype Trace = Start | Then(before: Trace, event: Event)

  datatype Request = Request(id: int, address: Address)

  /** The request, if it was accepted and neither answered nor forgotten since. */
  function Live(t: Trace, h: Handle): Option<Request> {
    match t
    case Start => None
    case Then(before, e) =>
      if e.handle != h then Live(before, h)
      else if e.Accept? then Some(Request(e.id, e.address))
      else None
  }

  predicate Seen(t: Trace, h: Handle) {
    t.Then? && (t.event.handle == h || Seen(t.before, h))
  }

  /** Every accepted request is new, and its id is not that of another live request; only a live
      request is answered or forgotten, and it is answered at the address it came from. */
  ghost predicate Obeys(before: Trace, e: Event) {
    match e
    case Accept(h, id, _) => !Seen(before, h) && forall g :: Live(before, g).Some? ==> Live(before, g).value.id != id
    case Answer(h, address) => Live(before, h).Some? && Live(before, h).value.address == address
    case Forget(h) => Live(before, h).Some?
  }

  ghost predicate Legal(t: Trace) {
    t.Then? ==> Legal(t.before) && Obeys(t.before, t.event)
  }

  function Answers(t: Trace, h: Handle): nat {
    match t
    case Start => 0
    case Then(before, e) => Answers(before, h) + if e.Answer? && e.handle == h then 1 else 0
  }

  predicate Forgotten(t: Trace, h: Handle) {
    t.Then? && ((t.event.Forget? && t.event.handle == h) || Forgotten(t.before, h))
  }

  /** A request is answered at most once, and never once it is forgotten. */
  lemma {:induction false} AnsweredAtMostOnce(t: Trace, h: Handle)
    requires Legal(t)
    ensures Answers(t, h) + (if Forgotten(t, h) then 1 else 0) <= 1
    ensures Live(t, h).Some? ==> Answers(t, h) == 0 && !Forgotten(t, h) && Seen(t, h)
    ensures !Seen(t, h) ==> Answers(t, h) == 0 && !Forgotten(t, h)
  {
    match t
    case Start =>
    case Then(before, e) => AnsweredAtMostOnce(before, h);
  }

  // ---------------------------------------------------------------------
  // The server's tables
  // ---------------------------------------------------------------------

  /** `clock` is the last time read; `inFlight` is the request the server thread is tunneling. */
  datatype Server = Server(
    nextId: int,
    nextHandle: Handle,
    requests: map<int, Context>,
    queue: seq<Node>,
    clock: int,
    inFlight: Option<Node>,
    trace: Trace)

  /** Each queue node belongs to the entry of its id, which points back at it. */
  ghost predicate Linked(s: Server, n: Node) {
    n.id in s.requests && s.requests[n.id].expiration == n.handle
  }

  ghost predicate Bijection(s: Server) {
    && (forall i :: 0 <= i < |s.queue| ==> Linked(s, s.queue[i]))
    && DistinctHandles(s.queue)
    && (forall id :: id in s.requests ==> exists n :: n in s.queue && n.id == id)
  }

  ghost predicate Sorted(queue: seq<Node>) {
    forall i, j :: 0 <= i < j < |queue| ==> queue[i].deadline <= queue[j].deadline
  }

  ghost predicate Bounded(s: Server) {
    && (forall i :: 0 <= i < |s.queue| ==> s.queue[i].deadline <= s.clock + TIMEOUT && s.queue[i].handle < s.nextHandle)
    && 0 <= s.nextId < ID_SPACE
    && (forall h :: Seen(s.trace, h) ==> h < s.nextHandle)
  }

  /** The table holds exactly the live requests. */
  ghost predicate TableIsLive(s: Server) {
    && (forall id :: id in s.requests ==>
          Live(s.trace, s.requests[id].expiration) == Some(Request(id, s.requests[id].remoteAddress)))
    && (forall h :: Live(s.trace, h).Some? ==>
          var r := Live(s.trace, h).value;
          r.id in s.requests && s.requests[r.id] == Context(r.address, h))
  }

  /** A request being tunneled is still in the table under its own node, or not at all. */
  ghost predicate FlightInv(s: Server) {
    s.inFlight.Some? && s.inFlight.value.id in s.requests ==>
      s.requests[s.inFlight.value.id].expiration == s.inFlight.value.handle
  }

  ghost predicate Inv(s: Server) {
    Bijection(s) && Sorted(s.queue) && Bounded(s) && TableIsLive(s) && FlightInv(s) && Legal(s.trace)
  }

  // ---------------------------------------------------------------------
  // Steps
  // ---------------------------------------------------------------------

  /** std::list::erase. */
  function Erase(queue: seq<Node>, h: Handle): seq<Node> {
    if queue == [] then []
    else if queue[0].handle == h then queue[1..]
    else [queue[0]] + Erase(queue[1..], h)
  }

  /** Drops the entry of `id` and its node, and records why. */
  function Remove(s: Server, id: int, e: Event): Server
    requires id in s.requests
  {
    s.(requests := s.requests - {id}, queue := Erase(s.queue, s.requests[id].expiration), trace := Then(s.trace, e))
  }

  /** uint32_t increment. */
  function NextId(id: int): int {
    (id + 1) % ID_SPACE
  }

  /** HandleUdpDnsRequest up to the tunneling, for a non-empty datagram. An id that is still in use
      rejects the request; its node is taken off again. */
  function Receive(s: Server, address: Address, now: int): Server {
    var id := s.nextId;
    var node := Node(s.nextHandle, now + TIMEOUT, id);
    var ticked := s.(nextId := NextId(id), nextHandle := s.nextHandle + 1, clock := now);
    if id in s.requests then ticked
    else ticked.(requests := s.requests[id := Context(address, node.handle)],
                 queue := s.queue + [node],
                 inFlight := Some(node),
                 trace := Then(s.trace, Accept(node.handle, id, address)))
  }

  function TunnelSucceeds(s: Server): Server {
    s.(inFlight := None)
  }

  /** The tunnel throws: the request is looked up again by its id, as a response may have come first. */
  function TunnelFails(s: Server): Server
    requires s.inFlight.Some?
  {
    var id := s.inFlight.value.id;
    (if id in s.requests then Remove(s, id, Forget(s.requests[id].expiration)) else s).(inFlight := None)
  }

  /** HandleUdpDnsResponse. */
  function Respond(s: Server, id: int): Server {
    if id in s.requests then Remove(s, id, Answer(s.requests[id].expiration, s.requests[id].remoteAddress)) else s
  }

  /** The expiry loop of ExpireUdpRequestsAndGetTimeout. */
  function Expire(s: Server, now: int): Server
    decreases |s.queue|
  {
    if s.queue != [] && s.queue[0].deadline <= now
    then
      var n := s.queue[0];
      Expire(s.(requests := s.requests - {n.id}, queue := s.queue[1..], trace := Then(s.trace, Forget(n.handle))), now)
    else s
  }

  /** ceil to milliseconds of a positive duration. */
  function CeilMs(ns: int): int {
    (ns + MILLISECOND - 1) / MILLISECOND
  }

  function WaitTime(s: Server, now: int): int {
    if s.queue == [] then -1 else CeilMs(s.queue[0].deadline - now)
  }

  // ---------------------------------------------------------------------
  // Every step keeps the invariant
  // ---------------------------------------------------------------------

  lemma {:induction false} EraseElements(queue: seq<Node>, h: Handle)
    requires DistinctHandles(queue)
    ensures forall n :: n in Erase(queue, h) <==> n in queue && n.handle != h
  {
    if queue != [] {
      EraseElements(queue[1..], h);
      assert queue == [queue[0]] + queue[1..];
    }
  }

  ghost predicate DistinctHandles(queue: seq<Node>) {
    forall i, j :: 0 <= i < j < |queue| ==> queue[i].handle != queue[j].handle
  }

  lemma {:induction false} EraseSubset(queue: seq<Node>, h: Handle)
    ensures forall i :: 0 <= i < |Erase(queue, h)| ==> Erase(queue, h)[i] in queue
  {
    if queue != [] {
      EraseSubset(queue[1..], h);
    }
  }

  lemma {:induction false} EraseSorted(queue: seq<Node>, h: Handle)
    requires Sorted(queue)
    ensures Sorted(Erase(queue, h))
  {
    if queue != [] {
      EraseSorted(queue[1..], h);
      EraseSubset(queue[1..], h);
      forall n | n in queue[1..]
        ensures queue[0].deadline <= n.deadline
      {
        var i :| 0 <= i < |queue[1..]| && queue[1..][i] == n;
        assert queue[i + 1] == n;
      }
    }
  }

  lemma {:induction false} EraseDistinct(queue: seq<Node>, h: Handle)
    requires DistinctHandles(queue)
    ensures DistinctHandles(Erase(queue, h))
  {
    if queue != [] {
      EraseDistinct(queue[1..], h);
      EraseSubset(queue[1..], h);
      forall n | n in queue[1..]
        ensures queue[0].handle != n.handle
      {
        var i :| 0 <= i < |queue[1..]| && queue[1..][i] == n;
        assert queue[i + 1] == n;
      }
    }
  }

  lemma RemoveKeepsBijection(s: Server, id: int, e: Event)
    requires Inv(s) && id in s.requests
    ensures Bijection(Remove(s, id, e)) && Sorted(Remove(s, id, e).queue)
    ensures forall n :: n in Remove(s, id, e).queue ==> n in s.queue
  {
    hide TableIsLive, Legal, FlightInv;
    var s' := Remove(s, id, e);
    var h := s.requests[id].expiration;
    EraseElements(s.queue, h);
    EraseSorted(s.queue, h);
    EraseDistinct(s.queue, h);
    forall i | 0 <= i < |s'.queue|
      ensures Linked(s', s'.queue[i])
    {
      var n := s'.queue[i];
      assert n in s'.queue && n in s.queue && n.handle != h;
      assert Linked(s, n);
    }
    forall k | k in s'.requests
      ensures exists n :: n in s'.queue && n.id == k
    {
      var n :| n in s.queue && n.id == k;
      assert Linked(s, n);
      var m :| m in s.queue && m.id == id;
      assert Linked(s, m);
      NodesDiffer(s, n, id);
      assert n in s'.queue;
    }
  }

  /** Two ids never share a node. */
  lemma NodesDiffer(s: Server, n: Node, id: int)
    requires TableIsLive(s) && Linked(s, n) && id in s.requests && n.id != id
    ensures n.handle != s.requests[id].expiration
  {
    assert Live(s.trace, s.requests[n.id].expiration) == Some(Request(n.id, s.requests[n.id].remoteAddress));
    assert Live(s.trace, s.requests[id].expiration) == Some(Request(id, s.requests[id].remoteAddress));
  }

  lemma RemoveKeepsTable(s: Server, id: int, e: Event)
    requires Inv(s) && id in s.requests
    requires e.handle == s.requests[id].expiration && !e.Accept? && Obeys(s.trace, e)
    ensures TableIsLive(Remove(s, id, e)) && Legal(Remove(s, id, e).trace) && FlightInv(Remove(s, id, e))
  {
    hide Bijection, Bounded, Erase;
    var s' := Remove(s, id, e);
    forall k | k in s'.requests
      ensures Live(s'.trace, s'.requests[k].expiration) == Some(Request(k, s'.requests[k].remoteAddress))
    {
      assert Live(s.trace, s.requests[k].expiration) == Some(Request(k, s.requests[k].remoteAddress));
      assert Live(s.trace, s.requests[id].expiration) == Some(Request(id, s.requests[id].remoteAddress));
    }
    forall h | Live(s'.trace, h).Some?
      ensures var r := Live(s'.trace, h).value;
              r.id in s'.requests && s'.requests[r.id] == Context(r.address, h)
    {
      assert h != e.handle && Live(s'.trace, h) == Live(s.trace, h);
    }
  }

  lemma RemoveKeepsInv(s: Server, id: int, e: Event)
    requires Inv(s) && id in s.requests
    requires e.handle == s.requests[id].expiration && !e.Accept? && Obeys(s.trace, e)
    ensures Inv(Remove(s, id, e))
  {
    RemoveKeepsBijection(s, id, e);
    RemoveKeepsTable(s, id, e);
    RemoveKeepsBounds(s, id, e);
  }

  lemma RemoveKeepsBounds(s: Server, id: int, e: Event)
    requires Bounded(s) && id in s.requests && Live(s.trace, e.handle).Some?
    ensures Bounded(Remove(s, id, e))
  {
    var s' := Remove(s, id, e);
    LiveIsSeen(s.trace, e.handle);
    EraseSubset(s.queue, s.requests[id].expiration);
    forall i | 0 <= i < |s'.queue|
      ensures s'.queue[i].deadline <= s'.clock + TIMEOUT && s'.queue[i].handle < s'.nextHandle
    {
      var j :| 0 <= j < |s.queue| && s.queue[j] == s'.queue[i];
    }
  }

  lemma {:induction false} LiveIsSeen(t: Trace, h: Handle)
    requires Live(t, h).Some?
    ensures Seen(t, h)
  {
    match t
    case Then(before, e) =>
      if e.handle != h {
        LiveIsSeen(before, h);
      }
  }

  lemma ReceiveKeepsInv(s: Server, address: Address, now: int)
    requires Inv(s) && s.inFlight.None? && s.clock <= now
    ensures Inv(Receive(s, address, now))
  {
    ReceiveKeepsBounds(s, address, now);
    if s.nextId !in s.requests {
      ReceiveKeepsBijection(s, address, now);
      ReceiveKeepsTable(s, address, now);
      hide Bijection, TableIsLive, Legal, Bounded, Sorted;
    } else {
      hide TableIsLive, Legal, Bounded, Sorted;
    }
  }

  lemma ReceiveKeepsBounds(s: Server, address: Address, now: int)
    requires Bounded(s) && Sorted(s.queue) && s.clock <= now
    ensures Bounded(Receive(s, address, now)) && Sorted(Receive(s, address, now).queue)
  {
  }

  lemma ReceiveKeepsBijection(s: Server, address: Address, now: int)
    requires Bijection(s) && Bounded(s) && s.nextId !in s.requests
    ensures Bijection(Receive(s, address, now))
  {
    var s' := Receive(s, address, now);
    var node := s'.inFlight.value;
    forall i | 0 <= i < |s'.queue|
      ensures Linked(s', s'.queue[i])
    {
      if i < |s.queue| {
        assert s'.queue[i] == s.queue[i] && Linked(s, s.queue[i]);
      }
    }
    forall id | id in s'.requests
      ensures exists n :: n in s'.queue && n.id == id
    {
      if id == s.nextId {
        assert node in s'.queue;
      } else {
        var n :| n in s.queue && n.id == id;
        assert n in s'.queue;
      }
    }
  }

  lemma ReceiveKeepsTable(s: Server, address: Address, now: int)
    requires Inv(s) && s.inFlight.None? && s.nextId !in s.requests
    ensures TableIsLive(Receive(s, address, now)) && Legal(Receive(s, address, now).trace)
  {
    hide Bijection, Sorted;
    var s' := Receive(s, address, now);
    var h := s.nextHandle;
    assert !Seen(s.trace, h);
    forall id | id in s'.requests
      ensures Live(s'.trace, s'.requests[id].expiration) == Some(Request(id, s'.requests[id].remoteAddress))
    {
      if id != s.nextId {
        LiveIsSeen(s.trace, s.requests[id].expiration);
      }
    }
    forall g | Live(s'.trace, g).Some?
      ensures var r := Live(s'.trace, g).value;
              r.id in s'.requests && s'.requests[r.id] == Context(r.address, g)
    {
      if g != h {
        assert Live(s'.trace, g) == Live(s.trace, g);
      }
    }
  }

  lemma {:induction false} ExpireKeepsInv(s: Server, now: int)
    requires Inv(s)
    ensures Inv(Expire(s, now)) && Expire(s, now).inFlight == s.inFlight && Expire(s, now).clock == s.clock
    decreases |s.queue|
  {
    if s.queue != [] && s.queue[0].deadline <= now {
      var n := s.queue[0];
      assert Linked(s, n);
      var next := s.(requests := s.requests - {n.id}, queue := s.queue[1..], trace := Then(s.trace, Forget(n.handle)));
      assert next == Remove(s, n.id, Forget(n.handle));
      assert Live(s.trace, n.handle).Some? by {
        assert Live(s.trace, s.requests[n.id].expiration) == Some(Request(n.id, s.requests[n.id].remoteAddress));
      }
      RemoveKeepsInv(s, n.id, Forget(n.handle));
      ExpireKeepsInv(next, now);
    }
  }

  function DropFirst(s: Server): Server
    requires s.queue != []
  {
    var n := s.queue[0];
    s.(requests := s.requests - {n.id}, queue := s.queue[1..], trace := Then(s.trace, Forget(n.handle)))
  }

  lemma LaterDeadlines(queue: seq<Node>, now: int)
    requires Sorted(queue) && (queue == [] || queue[0].deadline > now)
    ensures forall n :: n in queue ==> n.deadline > now
  {
    forall n | n in queue
      ensures n.deadline > now
    {
      var i :| 0 <= i < |queue| && queue[i] == n;
      assert queue[0].deadline <= queue[i].deadline;
    }
  }

  lemma {:induction false} ExpireQueue(s: Server, now: int, n: Node)
    requires Sorted(s.queue)
    ensures n in Expire(s, now).queue <==> n in s.queue && n.deadline > now
    decreases |s.queue|
  {
    if s.queue != [] && s.queue[0].deadline <= now {
      assert Expire(s, now) == Expire(DropFirst(s), now);
      ExpireQueue(DropFirst(s), now, n);
      assert s.queue == [s.queue[0]] + s.queue[1..];
    } else {
      LaterDeadlines(s.queue, now);
    }
  }

  lemma {:induction false} ExpireTable(s: Server, now: int, id: int)
    requires Sorted(s.queue)
    ensures id in Expire(s, now).requests <==>
            id in s.requests && forall n :: n in s.queue && n.id == id ==> n.deadline > now
    ensures id in Expire(s, now).requests ==> Expire(s, now).requests[id] == s.requests[id]
    decreases |s.queue|
  {
    if s.queue != [] && s.queue[0].deadline <= now {
      assert Expire(s, now) == Expire(DropFirst(s), now);
      ExpireTable(DropFirst(s), now, id);
      assert s.queue == [s.queue[0]] + s.queue[1..];
      assert s.queue[0] in s.queue;
    } else {
      LaterDeadlines(s.queue, now);
    }
  }

  /** The expiry pass removes exactly the expired requests, by deadline. */
  lemma {:induction false} ExpireIsExact(s: Server, now: int)
    requires Sorted(s.queue)
    ensures forall n :: n in Expire(s, now).queue <==> n in s.queue && n.deadline > now
    ensures forall id :: id in Expire(s, now).requests <==>
              id in s.requests && forall n :: n in s.queue && n.id == id ==> n.deadline > now
    ensures forall id :: id in Expire(s, now).requests ==> Expire(s, now).requests[id] == s.requests[id]
  {
    hide Expire, Sorted;
    forall n
      ensures n in Expire(s, now).queue <==> n in s.queue && n.deadline > now
    {
      ExpireQueue(s, now, n);
    }
    forall id
      ensures id in Expire(s, now).requests <==>
              id in s.requests && forall n :: n in s.queue && n.id == id ==> n.deadline > now
      ensures id in Expire(s, now).requests ==> Expire(s, now).requests[id] == s.requests[id]
    {
      ExpireTable(s, now, id);
    }
  }

  /** The wait is -1 with nothing pending; otherwise it is 1 to 60000 milliseconds, it does not end
      before the next deadline, and a millisecond less would. */
  lemma WaitEndsAtDeadline(s: Server, now: int)
    requires Inv(s) && s.clock <= now
    ensures var t := Expire(s, now); var wait := WaitTime(t, now);
            && (t.queue == [] <==> wait == -1)
            && (t.queue != [] ==>
                  && 1 <= wait <= 60_000
                  && now + (wait - 1) * MILLISECOND < t.queue[0].deadline <= now + wait * MILLISECOND
                  && forall i :: 0 <= i < |t.queue| ==> t.queue[0].deadline <= t.queue[i].deadline)
  {
    ExpireKeepsInv(s, now);
    ExpireIsExact(s, now);
    var t := Expire(s, now);
    hide Expire;
    if t.queue != [] {
      assert t.queue[0] in t.queue;
      var d := t.queue[0].deadline - now;
      assert 0 < d <= TIMEOUT;
    }
  }

  // ---------------------------------------------------------------------
  // Any order of steps
  // ---------------------------------------------------------------------

  /** The server thread receives, tunnels and expires in turn; responses come in at any time. */
  datatype Step =
    | ReceiveStep(address: Address, now: int)
    | EmptyDatagram
    | TunnelStep(ok: bool)
    | RespondStep(id: int)
    | ExpireStep(now: int)

  predicate Enabled(s: Server, a: Step) {
    match a
    case ReceiveStep(_, now) => s.inFlight.None? && s.clock <= now
    case EmptyDatagram => s.inFlight.None?
    case TunnelStep(_) => s.inFlight.Some?
    case RespondStep(_) => true
    case ExpireStep(now) => s.inFlight.None? && s.clock <= now
  }

  function Apply(s: Server, a: Step): Server
    requires Enabled(s, a)
  {
    match a
    case ReceiveStep(address, now) => Receive(s, address, now)
    case EmptyDatagram => s
    case TunnelStep(ok) => if ok then TunnelSucceeds(s) else TunnelFails(s)
    case RespondStep(id) => Respond(s, id)
    case ExpireStep(now) => Expire(s, now).(clock := now)
  }

  ghost predicate Execution(states: seq<Server>, steps: seq<Step>) {
    && |states| == |steps| + 1
    && (exists clock :: states[0] == Server(0, 0, map[], [], clock, None, Start))
    && forall i :: 0 <= i < |steps| ==> Enabled(states[i], steps[i]) && states[i + 1] == Apply(states[i], steps[i])
  }

  lemma RemoveLiveKeepsInv(s: Server, id: int, answer: bool)
    requires Inv(s) && id in s.requests
    ensures var c := s.requests[id];
            Inv(Remove(s, id, if answer then Answer(c.expiration, c.remoteAddress) else Forget(c.expiration)))
  {
    var c := s.requests[id];
    assert Live(s.trace, c.expiration) == Some(Request(id, c.remoteAddress));
    RemoveKeepsInv(s, id, if answer then Answer(c.expiration, c.remoteAddress) else Forget(c.expiration));
  }

  lemma StepKeepsInv(s: Server, a: Step)
    requires Inv(s) && Enabled(s, a)
    ensures Inv(Apply(s, a))
  {
    match a
    case ReceiveStep(address, now) => ReceiveKeepsInv(s, address, now);
    case EmptyDatagram =>
    case TunnelStep(ok) =>
      if !ok && s.inFlight.value.id in s.requests {
        RemoveLiveKeepsInv(s, s.inFlight.value.id, false);
      }
    case RespondStep(id) =>
      if id in s.requests {
        RemoveLiveKeepsInv(s, id, true);
      }
    case ExpireStep(now) => ExpireKeepsInv(s, now);
  }

  lemma {:induction false} ExecutionInv(states: seq<Server>, steps: seq<Step>, i: nat)
    requires Execution(states, steps) && i < |states|
    ensures Inv(states[i])
  {
    if i > 0 {
      ExecutionInv(states, steps, i - 1);
      assert Enabled(states[i - 1], steps[i - 1]) && states[i] == Apply(states[i - 1], steps[i - 1]);
      hide Inv, Enabled, Apply;
      StepKeepsInv(states[i - 1], steps[i - 1]);
    }
  }

  /** In every run the table and the queue index each other, the queue is in deadline order, and the
      history is legal; so each request is answered at most once and never once it is gone. */
  lemma TablesStayConsistent(states: seq<Server>, steps: seq<Step>, i: nat, h: Handle)
    requires Execution(states, steps) && i < |states|
    ensures Bijection(states[i]) && Sorted(states[i].queue) && Legal(states[i].trace)
    ensures Answers(states[i].trace, h) + (if Forgotten(states[i].trace, h) then 1 else 0) <= 1
  {
    ExecutionInv(states, steps, i);
    AnsweredAtMostOnce(states[i].trace, h);
  }

  /** In every run a response is sent exactly when a live request has its id; that request is unique,
      and the response goes to the address it came from. */
  lemma ResponseGoesToItsRequest(states: seq<Server>, steps: seq<Step>, i: nat)
    requires Execution(states, steps) && i < |steps| && steps[i].RespondStep?
    ensures var s, t, id := states[i], states[i + 1], steps[i].id;
            && (id !in s.requests ==> t == s && forall h :: Live(s.trace, h).Some? ==> Live(s.trace, h).value.id != id)
            && (id in s.requests ==>
                  && t.trace.Then? && t.trace.before == s.trace && t.trace.event.Answer?
                  && Live(s.trace, t.trace.event.handle) == Some(Request(id, t.trace.event.address))
                  && (forall h :: Live(s.trace, h).Some? && Live(s.trace, h).value.id == id ==> h == t.trace.event.handle)
                  && id !in t.requests)
  {
    ExecutionInv(states, steps, i);
    assert Enabled(states[i], steps[i]) && states[i + 1] == Apply(states[i], steps[i]);
  }

  /** In every run a new request whose wrapped id is still live is rejected: no entry, node or history
      changes; and a failed tunnel forgets the request it carried and no other. */
  lemma CollisionRejectsTheNewcomer(states: seq<Server>, steps: seq<Step>, i: nat)
    requires Execution(states, steps) && i < |steps|
    ensures var s, t := states[i], states[i + 1];
            && (steps[i].ReceiveStep? && s.nextId in s.requests ==>
                  t.requests == s.requests && t.queue == s.queue && t.trace == s.trace && t.inFlight.None?)
            && (steps[i] == TunnelStep(false) && t.trace != s.trace ==>
                  t.trace == Then(s.trace, Forget(s.inFlight.value.handle)))
  {
    ExecutionInv(states, steps, i);
    assert Enabled(states[i], steps[i]) && states[i + 1] == Apply(states[i], steps[i]);
  }

  /** The step takes this request off the queue: its response, the failure of its tunnel, or an expiry
      pass at or after its deadline. */
  predicate Ends(s: Server, a: Step, n: Node)
    requires Enabled(s, a)
  {
    match a
    case RespondStep(id) => id == n.id
    case TunnelStep(ok) => !ok && s.inFlight.value.id == n.id
    case ExpireStep(now) => n.deadline <= now
    case _ => false
  }

  lemma RemoveTakesOne(s: Server, id: int, e: Event, n: Node)
    requires Inv(s) && id in s.requests && n in s.queue
    ensures n in Remove(s, id, e).queue <==> n.id != id
  {
    assert Linked(s, n);
    if n.id != id {
      NodesDiffer(s, n, id);
    }
    EraseElements(s.queue, s.requests[id].expiration);
  }

  lemma StepEnds(s: Server, a: Step, n: Node)
    requires Inv(s) && Enabled(s, a) && n in s.queue
    ensures n in Apply(s, a).queue <==> !Ends(s, a, n)
  {
    assert Linked(s, n);
    match a
    case RespondStep(id) =>
      if id in s.requests {
        RemoveTakesOne(s, id, Answer(s.requests[id].expiration, s.requests[id].remoteAddress), n);
      }
    case TunnelStep(ok) =>
      if !ok && s.inFlight.value.id in s.requests {
        RemoveTakesOne(s, s.inFlight.value.id, Forget(s.requests[s.inFlight.value.id].expiration), n);
      }
    case ExpireStep(now) => ExpireIsExact(s, now);
    case _ =>
  }

  lemma {:induction false} ExpireKeepsHandles(s: Server, now: int)
    ensures Expire(s, now).nextHandle == s.nextHandle && Expire(s, now).nextId == s.nextId
    decreases |s.queue|
  {
    if s.queue != [] && s.queue[0].deadline <= now {
      var n := s.queue[0];
      ExpireKeepsHandles(s.(requests := s.requests - {n.id}, queue := s.queue[1..],
                            trace := Then(s.trace, Forget(n.handle))), now);
    }
  }

  /** A node that is gone does not come back. */
  lemma StepAddsNoOld(s: Server, a: Step, n: Node)
    requires Inv(s) && Enabled(s, a) && n.handle < s.nextHandle
    ensures n.handle < Apply(s, a).nextHandle
    ensures n !in s.queue ==> n !in Apply(s, a).queue
  {
    match a
    case RespondStep(id) =>
      if id in s.requests {
        EraseElements(s.queue, s.requests[id].expiration);
      }
    case TunnelStep(ok) =>
      if !ok && s.inFlight.value.id in s.requests {
        EraseElements(s.queue, s.requests[s.inFlight.value.id].expiration);
      }
    case ExpireStep(now) =>
      ExpireIsExact(s, now);
      ExpireKeepsHandles(s, now);
    case _ =>
  }

  /** In every run an accepted request waits for its response until it is answered, its tunnel fails,
      or the queue is swept at least sixty seconds after it came; and no longer than that. */
  lemma {:induction false} WaitsUntilSettled(states: seq<Server>, steps: seq<Step>, i: nat, j: nat)
    requires Execution(states, steps) && i < j < |states|
    requires steps[i].ReceiveStep? && states[i].nextId !in states[i].requests
    ensures var n := Node(states[i].nextHandle, steps[i].now + 60_000 * MILLISECOND, states[i].nextId);
            && (n in states[j].queue <==> forall k :: i < k < j ==> !Ends(states[k], steps[k], n))
            && n.handle < states[j].nextHandle
    decreases j
  {
    var n := Node(states[i].nextHandle, steps[i].now + 60_000 * MILLISECOND, states[i].nextId);
    assert Enabled(states[j - 1], steps[j - 1]) && states[j] == Apply(states[j - 1], steps[j - 1]);
    if j == i + 1 {
      var before := states[i].queue;
      assert states[j].queue == before + [n];
      assert n == (before + [n])[|before|];
    } else {
      WaitsUntilSettled(states, steps, i, j - 1);
      ExecutionInv(states, steps, j - 1);
      hide Inv, Apply, Enabled;
      if n in states[j - 1].queue {
        StepEnds(states[j - 1], steps[j - 1], n);
      }
      StepAddsNoOld(states[j - 1], steps[j - 1], n);
      hide Ends;
    }
  }

  lemma {:induction false} ExpireOnlyForgets(s: Server, now: int, h: Handle)
    ensures Live(Expire(s, now).trace, h).None? || Live(Expire(s, now).trace, h) == Live(s.trace, h)
    decreases |s.queue|
  {
    if s.queue != [] && s.queue[0].deadline <= now {
      assert Expire(s, now) == Expire(DropFirst(s), now);
      ExpireOnlyForgets(DropFirst(s), now, h);
    }
  }

  /** A request keeps its id and address until it is gone. */
  lemma StepKeepsRequest(s: Server, a: Step, h: Handle)
    requires Enabled(s, a) && h < s.nextHandle
    ensures Live(Apply(s, a).trace, h).None? || Live(Apply(s, a).trace, h) == Live(s.trace, h)
  {
    if a.ExpireStep? {
      ExpireOnlyForgets(s, a.now, h);
    }
  }

  lemma {:induction false} RequestIsKept(states: seq<Server>, steps: seq<Step>, i: nat, j: nat)
    requires Execution(states, steps) && i < j < |states|
    requires steps[i].ReceiveStep? && states[i].nextId !in states[i].requests
    ensures var live := Live(states[j].trace, states[i].nextHandle);
            live.None? || live == Some(Request(states[i].nextId, steps[i].address))
    decreases j
  {
    assert Enabled(states[j - 1], steps[j - 1]) && states[j] == Apply(states[j - 1], steps[j - 1]);
    if j > i + 1 {
      RequestIsKept(states, steps, i, j - 1);
      WaitsUntilSettled(states, steps, i, j - 1);
      hide Apply, Enabled, Ends;
      StepKeepsRequest(states[j - 1], steps[j - 1], states[i].nextHandle);
    }
  }

  /** In every run the response to a request that still waits goes to the address its datagram came from. */
  lemma ResponseGoesToTheSender(states: seq<Server>, steps: seq<Step>, i: nat, j: nat)
    requires Execution(states, steps) && i < j < |steps|
    requires steps[i].ReceiveStep? && states[i].nextId !in states[i].requests
    requires steps[j] == RespondStep(states[i].nextId)
    requires var n := Node(states[i].nextHandle, steps[i].now + 60_000 * MILLISECOND, states[i].nextId);
             forall k :: i < k < j ==> !Ends(states[k], steps[k], n)
    ensures states[j + 1].trace == Then(states[j].trace, Answer(states[i].nextHandle, steps[i].address))
  {
    var n := Node(states[i].nextHandle, steps[i].now + 60_000 * MILLISECOND, states[i].nextId);
    var s := states[j];
    assert Enabled(s, steps[j]) && states[j + 1] == Apply(s, steps[j]);
    WaitsUntilSettled(states, steps, i, j);
    RequestIsKept(states, steps, i, j);
    ExecutionInv(states, steps, j);
    assert Linked(s, n);
    assert Live(s.trace, s.requests[n.id].expiration) == Some(Request(n.id, s.requests[n.id].remoteAddress));
  }

  function Datagrams(steps: seq<Step>): nat {
    if steps == [] then 0
    else Datagrams(steps[..|steps| - 1]) + if steps[|steps| - 1].ReceiveStep? then 1 else 0
  }

  /** In every run the next id is the number of datagrams so far, rejected ones included, modulo 2^32. */
  lemma {:induction false} IdsCountDatagrams(states: seq<Server>, steps: seq<Step>, i: nat)
    requires Execution(states, steps) && i < |states|
    ensures states[i].nextId == Datagrams(steps[..i]) % ID_SPACE
  {
    if i > 0 {
      IdsCountDatagrams(states, steps, i - 1);
      var s, a := states[i - 1], steps[i - 1];
      assert Enabled(s, a) && states[i] == Apply(s, a);
      assert steps[..i][..i - 1] == steps[..i - 1] && steps[..i][i - 1] == a;
      if a.ExpireStep? {
        ExpireKeepsHandles(s, a.now);
      }
    }
  }

  // ---------------------------------------------------------------------
  // The server object
  // ---------------------------------------------------------------------

  /** The UDP fields of DnsServer, each method one section under m_udpLock. */
  class DnsServer {
    var currentUdpRequestId: int
    var udpRequests: map<int, Context>
    var udpRequestExpirations: seq<Node>
    var nextHandle: Handle
    ghost var clock: int
    ghost var inFlight: Option<Node>
    ghost var trace: Trace

    ghost function Value(): Server
      reads this
    {
      Server(currentUdpRequestId, nextHandle, udpRequests, udpRequestExpirations, clock, inFlight, trace)
    }

    ghost predicate Valid()
      reads this
    {
      Inv(Value())
    }

    constructor (ghost now: int)
      ensures Valid() && Value() == Server(0, 0, map[], [], now, None, Start)
    {
      currentUdpRequestId, nextHandle := 0, 0;
      udpRequests, udpRequestExpirations := map[], [];
      clock, inFlight, trace := now, None, Start;
    }

    /** HandleUdpDnsRequest, the section that reads a datagram and tracks it. `tracked` is the id to
        tunnel; nothing is tunneled for an empty datagram or a colliding id. */
    method TrackRequest(address: Address, bytesReceived: nat, now: int) returns (tracked: Option<int>)
      requires Valid() && inFlight.None? && clock <= now
      modifies this
      ensures Valid()
      ensures Value() == if bytesReceived == 0 then old(Value()) else Receive(old(Value()), address, now)
      ensures tracked == if inFlight.Some? then Some(inFlight.value.id) else None
      ensures tracked.Some? <==> bytesReceived > 0 && old(currentUdpRequestId) !in old(udpRequests)
      ensures tracked.Some? ==>
                && tracked.value == old(currentUdpRequestId) && tracked.value in udpRequests
                && udpRequests[tracked.value].remoteAddress == address
      ensures forall id :: id in old(udpRequests) ==> id in udpRequests && udpRequests[id] == old(udpRequests)[id]
    {
      hide Inv, NextId;
      if bytesReceived == 0 {
        return None;
      }
      ReceiveKeepsInv(Value(), address, now);
      var requestId := currentUdpRequestId;
      currentUdpRequestId := NextId(currentUdpRequestId);
      clock := now;
      var node := Node(nextHandle, now + TIMEOUT, requestId);
      nextHandle := nextHandle + 1;
      udpRequestExpirations := udpRequestExpirations + [node];
      if requestId in udpRequests {
        udpRequestExpirations := udpRequestExpirations[..|udpRequestExpirations| - 1];
        assert udpRequestExpirations == old(udpRequestExpirations);
        assert Value() == Receive(old(Value()), address, now);
        return None;
      }
      udpRequests := udpRequests[requestId := Context(address, node.handle)];
      inFlight := Some(node);
      trace := Then(trace, Accept(node.handle, requestId, address));
      assert Value() == Receive(old(Value()), address, now);
      return Some(requestId);
    }

    /** HandleUdpDnsRequest, after the tunnel callback returned or threw. */
    method FinishTunnel(requestId: int, ok: bool)
      requires Valid() && inFlight.Some? && inFlight.value.id == requestId
      modifies this
      ensures Valid()
      ensures Value() == if ok then TunnelSucceeds(old(Value())) else TunnelFails(old(Value()))
    {
      StepKeepsInv(Value(), TunnelStep(ok));
      hide Inv;
      if !ok && requestId in udpRequests {
        trace := Then(trace, Forget(udpRequests[requestId].expiration));
        udpRequestExpirations := Erase(udpRequestExpirations, udpRequests[requestId].expiration);
        udpRequests := udpRequests - {requestId};
      }
      inFlight := None;
    }

    /** HandleUdpDnsResponse: the address to send to, if the request is still tracked. */
    method HandleUdpDnsResponse(id: int) returns (to: Option<Address>)
      requires Valid()
      modifies this
      ensures Valid() && Value() == Respond(old(Value()), id)
      ensures to == if id in old(udpRequests) then Some(old(udpRequests)[id].remoteAddress) else None
    {
      StepKeepsInv(Value(), RespondStep(id));
      hide Inv;
      if id !in udpRequests {
        return None;
      }
      to := Some(udpRequests[id].remoteAddress);
      trace := Then(trace, Answer(udpRequests[id].expiration, udpRequests[id].remoteAddress));
      udpRequestExpirations := Erase(udpRequestExpirations, udpRequests[id].expiration);
      udpRequests := udpRequests - {id};
    }

    method ExpireUdpRequestsAndGetTimeout(now: int) returns (timeout: int)
      requires Valid() && inFlight.None? && clock <= now
      modifies this
      ensures Valid() && Value() == Expire(old(Value()), now).(clock := now)
      ensures timeout == WaitTime(Value(), now)
    {
      StepKeepsInv(Value(), ExpireStep(now));
      hide Inv;
      ghost var goal := Expire(Value(), now);
      while udpRequestExpirations != [] && udpRequestExpirations[0].deadline <= now
        invariant Expire(Value(), now) == goal
        decreases |udpRequestExpirations|
      {
        trace := Then(trace, Forget(udpRequestExpirations[0].handle));
        udpRequests := udpRequests - {udpRequestExpirations[0].id};
        udpRequestExpirations := udpRequestExpirations[1..];
      }
      clock := now;
      if udpRequestExpirations == [] {
        return -1;
      }
      return CeilMs(udpRequestExpirations[0].deadline - now);
    }
  }
}
