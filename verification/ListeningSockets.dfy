/** The monitor that keeps host listeners in step with the guest's listening TCP sockets. */
module ListeningSockets {

  const AF_INET := 2
  const AF_INET6 := 10

  /** sockaddr_storage: the fields both kinds of address use, and bytes that no comparison reads. */
  datatype SockAddr = SockAddr(family: int, port: int, address: seq<int>, other: int)

  /** The query asks for IPv4 and IPv6 sockets only. */
  predicate Known(s: SockAddr) {
    s.family == AF_INET || s.family == AF_INET6
  }

  /** IsSameSockAddr; an unknown family is fatal in the source. */
  predicate IsSameSockAddr(left: SockAddr, right: SockAddr)
    requires Known(left)
  {
    if left.family != right.family then false
    else if left.family == AF_INET then left.address == right.address && left.port == right.port
    else left.port == right.port && left.address == right.address
  }

  /** What a listener is identified by on the host. */
  datatype Key = Key(family: int, port: int, address: seq<int>)

  function KeyOf(s: SockAddr): Key {
    Key(s.family, s.port, s.address)
  }

  lemma SameMeansSameKey(a: SockAddr, b: SockAddr)
    requires Known(a)
    ensures IsSameSockAddr(a, b) <==> KeyOf(a) == KeyOf(b)
  {
  }

  function Keys(list: seq<SockAddr>): set<Key> {
    set s | s in list :: KeyOf(s)
  }

  ghost predicate AllKnown(list: seq<SockAddr>) {
    forall i :: 0 <= i < |list| ==> Known(list[i])
  }

  ghost predicate NoDuplicates(list: seq<SockAddr>) {
    forall i, j :: 0 <= i < j < |list| ==> KeyOf(list[i]) != KeyOf(list[j])
  }

  // ---------------------------------------------------------------------
  // Messages to the host
  // ---------------------------------------------------------------------

  datatype Message = StartListener(key: Key) | StopListener(key: Key)

  datatype Trace = Nothing | Then(before: Trace, message: Message)

  /** The listeners the host runs. */
  function Host(t: Trace): set<Key> {
    match t
    case Nothing => {}
    case Then(before, StartListener(k)) => Host(before) + {k}
    case Then(before, StopListener(k)) => Host(before) - {k}
  }

  /** The host is told to start only what it does not run, and to stop only what it runs. */
  predicate Legal(t: Trace) {
    t.Then? ==> Legal(t.before) && (t.message.StartListener? <==> t.message.key !in Host(t.before))
  }

  function MessagesFor(t: Trace, k: Key): seq<Message> {
    match t
    case Nothing => []
    case Then(before, m) => MessagesFor(before, k) + (if m.key == k then [m] else [])
  }

  ghost predicate Alternates(messages: seq<Message>) {
    forall i :: 0 <= i < |messages| ==> (messages[i].StartListener? <==> i % 2 == 0)
  }

  /** For each address, starts and stops strictly alternate, beginning with a start. */
  lemma {:induction false} LegalAlternates(t: Trace, k: Key)
    requires Legal(t)
    ensures Alternates(MessagesFor(t, k))
    ensures |MessagesFor(t, k)| % 2 == 1 <==> k in Host(t)
  {
    match t
    case Nothing =>
    case Then(before, m) =>
      LegalAlternates(before, k);
      var s := MessagesFor(before, k);
      assert MessagesFor(t, k) == if m.key == k then s + [m] else s;
  }

  // ---------------------------------------------------------------------
  // The monitor
  // ---------------------------------------------------------------------

  /** Whether sending fails: the stop for the i-th relay, the start for the i-th socket. */
  datatype Failures = Failures(stop: nat -> bool, start: nat -> bool)

  /** Relay `i` has no listening socket any more. */
  ghost predicate IsStale(relays: seq<SockAddr>, sockets: seq<SockAddr>, i: nat) {
    i < |relays| && KeyOf(relays[i]) !in Keys(sockets)
  }

  /** Socket `i` is the first on an address that has no relay. */
  ghost predicate IsNew(relays: seq<SockAddr>, sockets: seq<SockAddr>, i: nat) {
    i < |sockets| && KeyOf(sockets[i]) !in Keys(relays) && KeyOf(sockets[i]) !in Keys(sockets[..i])
  }

  /** No message of this scan fails. */
  ghost predicate AllSent(relays: seq<SockAddr>, sockets: seq<SockAddr>, fails: Failures) {
    && (forall i: nat :: IsStale(relays, sockets, i) ==> !fails.stop(i))
    && (forall i: nat :: IsNew(relays, sockets, i) ==> !fails.start(i))
  }

  ghost predicate Extends(earlier: Trace, later: Trace) {
    later == earlier || (later.Then? && Extends(earlier, later.before))
  }

  lemma {:induction false} ExtendsTransitive(a: Trace, b: Trace, c: Trace)
    requires Extends(a, b) && Extends(b, c)
    ensures Extends(a, c)
  {
    if b != c {
      ExtendsTransitive(a, b, c.before);
    }
  }

  /** std::find_if over IsSameSockAddr. */
  method Find(list: seq<SockAddr>, s: SockAddr) returns (found: bool)
    requires AllKnown(list)
    ensures found <==> KeyOf(s) in Keys(list)
  {
    found := false;
    var i := 0;
    while i < |list| && !found
      invariant 0 <= i <= |list|
      invariant found ==> KeyOf(s) in Keys(list)
      invariant !found ==> forall j :: 0 <= j < i ==> KeyOf(list[j]) != KeyOf(s)
      decreases |list| - i, !found
    {
      SameMeansSameKey(list[i], s);
      if IsSameSockAddr(list[i], s) {
        assert list[i] in list;
        found := true;
      }
      i := i + 1;
    }
    if !found {
      assert forall x :: x in list ==> KeyOf(x) != KeyOf(s);
    }
  }

  lemma KeysAppend(list: seq<SockAddr>, s: SockAddr)
    ensures Keys(list + [s]) == Keys(list) + {KeyOf(s)}
  {
    forall k
      ensures k in Keys(list + [s]) <==> k in Keys(list) + {KeyOf(s)}
    {
      if k in Keys(list) {
        var x :| x in list && KeyOf(x) == k;
        assert x in list + [s];
      }
      if k == KeyOf(s) {
        assert s in list + [s];
      }
    }
  }

  lemma KeysTail(list: seq<SockAddr>, i: nat)
    requires i < |list|
    ensures Keys(list[i..]) == {KeyOf(list[i])} + Keys(list[i + 1..])
  {
    assert list[i..] == [list[i]] + list[i + 1..];
    forall k
      ensures k in Keys(list[i..]) <==> k in {KeyOf(list[i])} + Keys(list[i + 1..])
    {
      if k in Keys(list[i + 1..]) {
        var x :| x in list[i + 1..] && KeyOf(x) == k;
        assert x in list[i..];
      }
      if k == KeyOf(list[i]) {
        assert list[i] in list[i..];
      }
    }
  }

  class Monitor {
    var relays: seq<SockAddr>
    ghost var trace: Trace

    /** Between scans the relays are exactly what the host runs, each once. */
    ghost predicate Valid()
      reads this
    {
      AllKnown(relays) && NoDuplicates(relays) && Keys(relays) == Host(trace) && Legal(trace)
    }

    constructor ()
      ensures Valid() && relays == [] && trace == Nothing
    {
      relays := [];
      trace := Nothing;
    }

    /** The erase_if pass: relays without a listening socket are stopped and dropped, even when the
        host could not be told; those the host still runs are `stranded`. */
    method StopStale(sockets: seq<SockAddr>, fails: Failures) returns (ok: bool, ghost stranded: set<Key>)
      requires Valid() && AllKnown(sockets)
      modifies this
      ensures AllKnown(relays) && NoDuplicates(relays) && Legal(trace) && Extends(old(trace), trace)
      ensures Keys(relays) == old(Keys(relays)) * Keys(sockets)
      ensures Host(trace) == Keys(relays) + stranded && stranded !! Keys(sockets)
      ensures ok <==> stranded == {}
      ensures forall i: nat :: IsStale(old(relays), sockets, i) ==> (KeyOf(old(relays)[i]) in stranded <==> fails.stop(i))
      ensures ok <==> forall i: nat :: IsStale(old(relays), sockets, i) ==> !fails.stop(i)
      ensures forall k :: AtMostOne(old(trace), trace, k)
      ensures forall k :: k in Keys(sockets) || k !in old(Keys(relays)) ==> Silent(old(trace), trace, k)
    {
      hide Keys, Host, NoDuplicates, Silent, AtMostOne, Extends;
      var all, kept := relays, [];
      ok, stranded := true, {};
      var i := 0;
      assert all[0..] == all;
      KeptInit(all);
      NothingSent(trace);
      while i < |all|
        invariant 0 <= i <= |all| && all == old(relays)
        invariant Kept(all, kept, sockets, i)
        invariant Legal(trace) && Extends(old(trace), trace) && stranded !! Keys(sockets) && (ok <==> stranded == {})
        invariant Host(trace) == Keys(kept) + Keys(all[i..]) + stranded && stranded !! Keys(all[i..])
        invariant forall j: nat :: j < i && IsStale(all, sockets, j) ==> (KeyOf(all[j]) in stranded <==> fails.stop(j))
        invariant ok <==> forall j: nat :: j < i && IsStale(all, sockets, j) ==> !fails.stop(j)
        invariant forall k :: AtMostOne(old(trace), trace, k)
        invariant forall k :: k in Keys(sockets) || k !in Keys(all) || k in Keys(all[i..]) ==> Silent(old(trace), trace, k)
      {
        var found := Find(sockets, all[i]);
        KeysTail(all, i);
        KeptStep(all, kept, sockets, i);
        KeysAppend(kept, all[i]);
        EarlierDiffer(all, i);
        KeyIsMember(all, i);
        var message := StopListener(KeyOf(all[i]));
        assert !found <==> IsStale(all, sockets, i);
        if !found {
          if fails.stop(i) {
            ok := false;
            stranded := stranded + {message.key};
          } else {
            HostAfter(trace, message);
            SendOne(old(trace), trace, message);
            trace := Then(trace, message);
          }
        } else {
          kept := kept + [all[i]];
        }
        i := i + 1;
      }
      KeptDone(all, kept, sockets);
      relays := kept;
    }

    /** The for_each pass: a listener is started for each socket that has none. */
    method StartNew(sockets: seq<SockAddr>, fails: Failures, ghost stranded: set<Key>) returns (ok: bool)
      requires AllKnown(relays) && NoDuplicates(relays) && Legal(trace) && AllKnown(sockets)
      requires Keys(relays) <= Keys(sockets)
      requires Host(trace) == Keys(relays) + stranded && stranded !! Keys(sockets)
      modifies this
      ensures AllKnown(relays) && NoDuplicates(relays) && Legal(trace) && Extends(old(trace), trace)
      ensures Host(trace) == Keys(relays) + stranded
      ensures old(Keys(relays)) <= Keys(relays) <= Keys(sockets)
      ensures ok <==> forall i: nat :: IsNew(old(relays), sockets, i) ==> !fails.start(i)
      ensures ok ==> Keys(relays) == Keys(sockets)
      ensures forall k :: AtMostOne(old(trace), trace, k)
      ensures forall k :: k !in Keys(sockets) || k in old(Keys(relays)) ==> Silent(old(trace), trace, k)
    {
      hide Keys, Host, Silent, AtMostOne, Extends;
      ok := true;
      ghost var before := relays;
      var i := 0;
      KeysNothing(sockets);
      NothingSent(trace);
      while i < |sockets|
        invariant 0 <= i <= |sockets|
        invariant AllKnown(relays) && NoDuplicates(relays) && Legal(trace) && Extends(old(trace), trace)
        invariant Keys(before) <= Keys(relays) <= Keys(sockets)
        invariant Host(trace) == Keys(relays) + stranded
        invariant ok ==> Keys(relays) == Keys(before) + Keys(sockets[..i])
        invariant ok <==> forall j: nat :: j < i && IsNew(before, sockets, j) ==> !fails.start(j)
        invariant forall k :: AtMostOne(old(trace), trace, k)
        invariant forall k :: k !in Keys(relays) || k !in Keys(sockets) || k in Keys(before) ==> Silent(old(trace), trace, k)
      {
        var socket := sockets[i];
        assert sockets[..i + 1] == sockets[..i] + [socket];
        KeysAppend(sockets[..i], socket);
        KeyIsMember(sockets, i);
        var found := Find(relays, socket);
        assert ok ==> (!found <==> IsNew(before, sockets, i));
        if !found {
          var message := StartListener(KeyOf(socket));
          if fails.start(i) {
            ok := false;
          } else {
            HostAfter(trace, message);
            SendOne(old(trace), trace, message);
            trace := Then(trace, message);
            KeysAppend(relays, socket);
            FreshKey(relays, socket);
            relays := relays + [socket];
          }
        }
        i := i + 1;
      }
      assert sockets[..i] == sockets;
    }

    /** One scan. It succeeds exactly when every message got through; then the relays are the sockets
        listening now, each once, and the host runs exactly those. The messages stay legal in any case. */
    method Scan(sockets: seq<SockAddr>, fails: Failures) returns (result: int)
      requires Valid() && AllKnown(sockets)
      modifies this
      ensures Legal(trace) && Extends(old(trace), trace)
      ensures result == 0 <==> AllSent(old(relays), sockets, fails)
      ensures result == 0 ==> Valid() && Keys(relays) == Keys(sockets) == Host(trace)
      ensures result == -1 ==> NoDuplicates(relays) && Keys(relays) <= Host(trace) && Keys(relays) <= Keys(sockets)
      ensures result == 0 || result == -1
      ensures forall k :: AtMostOne(old(trace), trace, k)
      ensures forall k :: (k in old(Keys(relays)) <==> k in Keys(sockets)) ==> Silent(old(trace), trace, k)
    {
      hide Keys, Host, Legal, Silent, AtMostOne;
      ghost var before, first := relays, trace;
      var stopped, stranded := StopStale(sockets, fails);
      ghost var kept, middle := relays, trace;
      var started := StartNew(sockets, fails, stranded);
      result := if stopped && started then 0 else -1;
      ExtendsTransitive(first, middle, trace);
      SameNew(before, kept, sockets);
      forall k
        ensures AtMostOne(first, trace, k)
        ensures (k in Keys(before) <==> k in Keys(sockets)) ==> Silent(first, trace, k)
      {
        TwoPasses(first, middle, trace, k);
      }
    }

    /** The loop: it ends at the first scan with a failure. After every scan before that the host runs
        what was listening at that scan: `marks` are the histories then. */
    method Watch(scans: seq<seq<SockAddr>>, fails: seq<Failures>)
      returns (done: nat, result: int, ghost marks: seq<Trace>)
      requires Valid() && |fails| == |scans|
      requires forall i :: 0 <= i < |scans| ==> AllKnown(scans[i])
      modifies this
      ensures Legal(trace) && done <= |scans| && (result == 0 || result == -1)
      ensures Chain(marks, trace) && |marks| == (if result == 0 then done else done - 1)
      ensures forall i :: 0 <= i < |marks| ==> Host(marks[i]) == Keys(scans[i])
      ensures result == 0 ==> done == |scans| && Valid()
      ensures result == 0 && scans != [] ==> Keys(relays) == Keys(scans[|scans| - 1]) == Host(trace)
    {
      hide Keys, Host, Legal, Extends;
      done, result, marks := 0, 0, [];
      while done < |scans| && result == 0
        invariant 0 <= done <= |scans| && Legal(trace) && (result == 0 || result == -1)
        invariant Chain(marks, trace) && |marks| == (if result == 0 then done else done - 1)
        invariant forall i :: 0 <= i < |marks| ==> Host(marks[i]) == Keys(scans[i])
        invariant result == 0 ==> Valid()
        invariant result == 0 && done > 0 ==> Keys(relays) == Keys(scans[done - 1]) == Host(trace)
        decreases |scans| - done
      {
        ghost var before := trace;
        result := Scan(scans[done], fails[done]);
        ChainLater(marks, before, trace);
        done := done + 1;
        if result == 0 {
          marks := marks + [trace];
        }
      }
    }
  }

  // ---------------------------------------------------------------------
  // Helpers of the two passes
  // ---------------------------------------------------------------------

  lemma HostAfter(t: Trace, m: Message)
    ensures Host(Then(t, m)) == if m.StartListener? then Host(t) + {m.key} else Host(t) - {m.key}
  {
  }

  /** Each history continues the one before it, and the last is continued by `t`. */
  ghost predicate Chain(marks: seq<Trace>, t: Trace) {
    && (forall i :: 0 <= i < |marks| - 1 ==> Extends(marks[i], marks[i + 1]))
    && (marks != [] ==> Extends(marks[|marks| - 1], t))
  }

  lemma ChainLater(marks: seq<Trace>, t: Trace, later: Trace)
    requires Chain(marks, t) && Extends(t, later)
    ensures Chain(marks, later) && Chain(marks + [later], later)
  {
    if marks != [] {
      ExtendsTransitive(marks[|marks| - 1], t, later);
    }
  }

  /** Dropping the stale relays first does not change which sockets are new. */
  lemma SameNew(before: seq<SockAddr>, kept: seq<SockAddr>, sockets: seq<SockAddr>)
    requires Keys(kept) == Keys(before) * Keys(sockets)
    ensures forall i: nat :: IsNew(before, sockets, i) <==> IsNew(kept, sockets, i)
  {
    hide Keys;
    forall i: nat | i < |sockets|
      ensures IsNew(before, sockets, i) <==> IsNew(kept, sockets, i)
    {
      KeyIsMember(sockets, i);
    }
  }

  lemma EarlierDiffer(all: seq<SockAddr>, i: nat)
    requires i < |all| && NoDuplicates(all)
    ensures forall j :: 0 <= j < i ==> KeyOf(all[j]) != KeyOf(all[i])
  {
  }

  /** No message, or at most one, about this address between two histories. */
  ghost predicate Silent(before: Trace, after: Trace, k: Key) {
    MessagesFor(after, k) == MessagesFor(before, k)
  }

  ghost predicate AtMostOne(before: Trace, after: Trace, k: Key) {
    Silent(before, after, k) || exists m :: MessagesFor(after, k) == MessagesFor(before, k) + [m]
  }

  lemma NothingSent(t: Trace)
    ensures Extends(t, t) && forall k :: Silent(t, t, k) && AtMostOne(t, t, k)
  {
  }

  lemma SendOne(before: Trace, t: Trace, m: Message)
    requires Extends(before, t) && (forall k :: AtMostOne(before, t, k)) && Silent(before, t, m.key)
    ensures Extends(before, Then(t, m))
    ensures forall k :: AtMostOne(before, Then(t, m), k)
    ensures forall k :: k != m.key && Silent(before, t, k) ==> Silent(before, Then(t, m), k)
  {
    forall k
      ensures AtMostOne(before, Then(t, m), k)
      ensures k != m.key && Silent(before, t, k) ==> Silent(before, Then(t, m), k)
    {
      assert AtMostOne(before, t, k);
      assert MessagesFor(t, k) + [] == MessagesFor(t, k);
    }
  }

  lemma TwoPasses(first: Trace, middle: Trace, last: Trace, k: Key)
    ensures Silent(first, middle, k) && Silent(middle, last, k) ==> Silent(first, last, k)
    ensures Silent(first, middle, k) && AtMostOne(middle, last, k) ==> AtMostOne(first, last, k)
    ensures AtMostOne(first, middle, k) && Silent(middle, last, k) ==> AtMostOne(first, last, k)
  {
    hide MessagesFor;
  }

  lemma KeysNothing(list: seq<SockAddr>)
    ensures Keys(list[..0]) == {}
  {
  }

  lemma KeyIsMember(list: seq<SockAddr>, i: nat)
    requires i < |list|
    ensures KeyOf(list[i]) in Keys(list)
  {
    assert list[i] in list;
  }

  lemma FreshKey(list: seq<SockAddr>, s: SockAddr)
    requires NoDuplicates(list) && KeyOf(s) !in Keys(list)
    ensures NoDuplicates(list + [s])
  {
    forall i | 0 <= i < |list|
      ensures KeyOf(list[i]) != KeyOf(s)
    {
      KeyIsMember(list, i);
    }
  }

  /** `kept` are the first `i` of `all` that have a socket. */
  ghost predicate Kept(all: seq<SockAddr>, kept: seq<SockAddr>, sockets: seq<SockAddr>, i: nat)
    requires i <= |all|
  {
    && AllKnown(all) && AllKnown(kept) && NoDuplicates(all) && NoDuplicates(kept)
    && Keys(kept) == Keys(all[..i]) * Keys(sockets)
    && Keys(all[..i]) !! Keys(all[i..])
  }

  lemma KeptInit(all: seq<SockAddr>)
    requires AllKnown(all) && NoDuplicates(all)
    ensures forall sockets :: Kept(all, [], sockets, 0)
    ensures Keys([]) == {}
  {
  }

  lemma KeptStep(all: seq<SockAddr>, kept: seq<SockAddr>, sockets: seq<SockAddr>, i: nat)
    requires i < |all| && Kept(all, kept, sockets, i)
    ensures KeyOf(all[i]) !in Keys(kept) && KeyOf(all[i]) !in Keys(all[i + 1..])
    ensures KeyOf(all[i]) !in Keys(sockets) ==> Kept(all, kept, sockets, i + 1)
    ensures KeyOf(all[i]) in Keys(sockets) ==> Kept(all, kept + [all[i]], sockets, i + 1)
  {
    var k := KeyOf(all[i]);
    assert all[..i + 1] == all[..i] + [all[i]];
    KeysAppend(all[..i], all[i]);
    KeysTail(all, i);
    KeysAppend(kept, all[i]);
    assert k !in Keys(all[..i]) by {
      assert k in Keys(all[i..]);
    }
    assert k !in Keys(all[i + 1..]) by {
      LaterDiffer(all, i);
    }
    hide Keys;
    FreshKey(kept, all[i]);
  }

  lemma LaterDiffer(all: seq<SockAddr>, i: nat)
    requires i < |all| && NoDuplicates(all)
    ensures KeyOf(all[i]) !in Keys(all[i + 1..])
  {
    forall x | x in all[i + 1..]
      ensures KeyOf(x) != KeyOf(all[i])
    {
      var j :| 0 <= j < |all[i + 1..]| && all[i + 1..][j] == x;
      assert all[i + 1 + j] == x;
    }
  }

  lemma KeptDone(all: seq<SockAddr>, kept: seq<SockAddr>, sockets: seq<SockAddr>)
    requires Kept(all, kept, sockets, |all|)
    ensures AllKnown(kept) && NoDuplicates(kept) && Keys(kept) == Keys(all) * Keys(sockets)
    ensures Keys(all[|all|..]) == {}
  {
    assert all[..|all|] == all;
  }
}
