/** The keys of the port tracker: their order, the order in which a map is walked, and the sets a
    socket listing is turned into. */
module Ports {

  datatype Option<+T> = None | Some(value: T)

  type Byte = b: int | 0 <= b < 256

  /** in6_addr: sixteen bytes in memory order. */
  type Address = a: seq<Byte> | |a| == 16 witness seq(16, _ => 0)

  datatype PortAllocation = PortAllocation(address: Address, port: int, family: int, protocol: int)

  const AF_INET := 2
  const AF_INET6 := 10

  /** The sign of the first differing byte, as `memcmp` reports it. */
  function MemCmp(a: seq<Byte>, b: seq<Byte>): int
    requires |a| == |b|
  {
    if a == [] then 0 else if a[0] != b[0] then a[0] - b[0] else MemCmp(a[1..], b[1..])
  }

  /** PortAllocation::operator<. */
  predicate Less(a: PortAllocation, b: PortAllocation) {
    if a.port < b.port then true
    else if a.port > b.port then false
    else if a.family < b.family then true
    else if a.family > b.family then false
    else if a.protocol < b.protocol then true
    else if a.protocol > b.protocol then false
    else MemCmp(a.address, b.address) < 0
  }

  lemma {:induction false} MemCmpOrder(a: seq<Byte>, b: seq<Byte>)
    requires |a| == |b|
    ensures MemCmp(a, b) == -MemCmp(b, a)
    ensures MemCmp(a, b) == 0 <==> a == b
  {
    if a != [] {
      MemCmpOrder(a[1..], b[1..]);
      assert a == [a[0]] + a[1..] && b == [b[0]] + b[1..];
    }
  }

  lemma {:induction false} MemCmpTransitive(a: seq<Byte>, b: seq<Byte>, c: seq<Byte>)
    requires |a| == |b| == |c|
    requires MemCmp(a, b) < 0 && MemCmp(b, c) < 0
    ensures MemCmp(a, c) < 0
  {
    if a != [] && a[0] == b[0] == c[0] {
      MemCmpTransitive(a[1..], b[1..], c[1..]);
    }
  }

  /** operator< is a strict total order, and two keys are incomparable exactly when they are equal
      field by field; so a map keyed by it tells apart what field equality tells apart. */
  lemma LessIsStrictTotalOrder(a: PortAllocation, b: PortAllocation, c: PortAllocation)
    ensures !Less(a, a)
    ensures Less(a, b) ==> !Less(b, a)
    ensures !Less(a, b) && !Less(b, a) <==> a == b
    ensures Less(a, b) && Less(b, c) ==> Less(a, c)
  {
    MemCmpOrder(a.address, a.address);
    MemCmpOrder(a.address, b.address);
    if Less(a, b) && Less(b, c) && MemCmp(a.address, b.address) < 0 && MemCmp(b.address, c.address) < 0 {
      MemCmpTransitive(a.address, b.address, c.address);
    }
    MemCmpOrder(b.address, c.address);
  }

  // ---------------------------------------------------------------------
  // Walking a map in key order
  // ---------------------------------------------------------------------

  ghost predicate Ascending(keys: seq<PortAllocation>) {
    forall i, j :: 0 <= i < j < |keys| ==> Less(keys[i], keys[j])
  }

  /** `keys` is the order in which an iterator visits a map with these keys. */
  ghost predicate Enumerates(keys: seq<PortAllocation>, all: set<PortAllocation>) {
    Ascending(keys) && forall k :: k in keys <==> k in all
  }

  lemma EnumerationIsUnique(a: seq<PortAllocation>, b: seq<PortAllocation>, all: set<PortAllocation>)
    requires Enumerates(a, all) && Enumerates(b, all)
    ensures a == b
    decreases all
  {
    hide Less;
    if b != [] {
      HeadIsMember(b, all);
    }
    if a != [] {
      assert a[0] in all;
      var i :| 0 <= i < |b| && b[i] == a[0];
      assert b[0] in all;
      var j :| 0 <= j < |a| && a[j] == b[0];
      LessIsStrictTotalOrder(a[0], b[0], a[0]);
      assert a[0] == b[0];
      var rest := all - {a[0]};
      TailEnumerates(a, all);
      TailEnumerates(b, all);
      EnumerationIsUnique(a[1..], b[1..], rest);
      assert a == [a[0]] + a[1..] && b == [b[0]] + b[1..];
    }
  }

  lemma HeadIsMember(keys: seq<PortAllocation>, all: set<PortAllocation>)
    requires Enumerates(keys, all) && keys != []
    ensures keys[0] in all
  {
    assert keys[0] in keys;
  }

  lemma TailEnumerates(keys: seq<PortAllocation>, all: set<PortAllocation>)
    requires keys != [] && Enumerates(keys, all)
    ensures keys[0] in all && keys[0] !in keys[1..]
    ensures Enumerates(keys[1..], all - {keys[0]})
  {
    hide Less;
    var tail := keys[1..];
    assert forall i :: 0 <= i < |tail| ==> tail[i] == keys[i + 1];
    forall i | 0 <= i < |tail|
      ensures tail[i] != keys[0]
    {
      LessIsStrictTotalOrder(keys[0], tail[i], tail[i]);
    }
    forall k
      ensures k in tail <==> k in all - {keys[0]}
    {
      if k in keys && k != keys[0] {
        var i :| 0 <= i < |keys| && keys[i] == k;
        assert tail[i - 1] == k;
      }
      if k in tail {
        var i :| 0 <= i < |tail| && tail[i] == k;
        assert keys[i + 1] == k;
      }
    }
  }

  /** The least key of a nonempty set. */
  method LeastKey(all: set<PortAllocation>) returns (least: PortAllocation)
    requires all != {}
    ensures least in all && forall k :: k in all && k != least ==> Less(least, k)
  {
    hide Less;
    least :| least in all;
    var rest := all - {least};
    while rest != {}
      invariant rest <= all && least in all && least !in rest
      invariant forall k :: k in all && k !in rest && k != least ==> Less(least, k)
      decreases rest
    {
      var k :| k in rest;
      LessIsStrictTotalOrder(least, k, least);
      if Less(k, least) {
        forall j | j in all && j !in rest && j != least
          ensures Less(k, j)
        {
          LessIsStrictTotalOrder(k, least, j);
        }
        least := k;
      }
      rest := rest - {k};
    }
  }

  /** Every finite set of keys has an iteration order. */
  lemma EnumerationExists(all: set<PortAllocation>) returns (keys: seq<PortAllocation>)
    ensures Enumerates(keys, all)
    decreases all
  {
    hide Less;
    if all == {} {
      keys := [];
    } else {
      var least := LeastExists(all);
      var rest := EnumerationExists(all - {least});
      keys := [least] + rest;
      assert forall i :: 0 <= i < |rest| ==> rest[i] in rest;
    }
  }

  lemma LeastExists(all: set<PortAllocation>) returns (least: PortAllocation)
    requires all != {}
    ensures least in all && forall k :: k in all && k != least ==> Less(least, k)
    decreases all
  {
    hide Less;
    var some :| some in all;
    if all == {some} {
      least := some;
    } else {
      var m := LeastExists(all - {some});
      LessIsStrictTotalOrder(some, m, some);
      if Less(some, m) {
        least := some;
        forall k | k in all && k != some
          ensures Less(some, k)
        {
          LessIsStrictTotalOrder(some, m, k);
        }
      } else {
        least := m;
      }
    }
  }

  /** The keys behind an iterator; all of them before the first one. */
  predicate IsBehind(last: Option<PortAllocation>, k: PortAllocation) {
    last.None? || Less(last.value, k)
  }

  /** `next` is the first of these keys behind `last`, or the end. */
  ghost predicate IsNext(all: set<PortAllocation>, last: Option<PortAllocation>, next: Option<PortAllocation>) {
    match next
    case None => forall k :: k in all ==> !IsBehind(last, k)
    case Some(n) =>
      n in all && IsBehind(last, n) && forall k :: k in all && IsBehind(last, k) && k != n ==> Less(n, k)
  }

  /** `begin()`, and what `++it` and `erase(it)` lead to, in the map as it is now. */
  method Next(all: set<PortAllocation>, last: Option<PortAllocation>) returns (next: Option<PortAllocation>)
    ensures IsNext(all, last, next)
  {
    hide Less;
    var ahead := set k | k in all && IsBehind(last, k);
    if ahead == {} {
      next := None;
      assert forall k :: k in all && IsBehind(last, k) ==> k in ahead;
    } else {
      var least := LeastKey(ahead);
      next := Some(least);
    }
  }

  /** As long as no entry behind the iterator has gone and none has come, the next key of what is left of
      a map is the next key of the map as it was. */
  lemma NextOfRest(keys: seq<PortAllocation>, all: set<PortAllocation>, now: set<PortAllocation>, i: nat,
                   last: Option<PortAllocation>, next: Option<PortAllocation>)
    requires Enumerates(keys, all) && now <= all && i <= |keys|
    requires forall j :: i <= j < |keys| ==> keys[j] in now
    requires last == (if i == 0 then None else Some(keys[i - 1])) && IsNext(now, last, next)
    ensures next == if i < |keys| then Some(keys[i]) else None
  {
    hide Less;
    forall k | k in now && IsBehind(last, k)
      ensures i < |keys| && (k == keys[i] || Less(keys[i], k))
    {
      var j :| 0 <= j < |keys| && keys[j] == k;
      if j < i {
        LessIsStrictTotalOrder(keys[i - 1], keys[j], k);
      }
    }
    if i < |keys| {
      assert IsBehind(last, keys[i]);
      LessIsStrictTotalOrder(keys[i], next.value, keys[i]);
    }
  }

  // ---------------------------------------------------------------------
  // Listings
  // ---------------------------------------------------------------------

  /** One socket of a dump for `protocol`; `source` is idiag_src. */
  datatype Socket = Socket(port: int, family: int, protocol: int, source: Address)

  datatype ActivePorts = ActivePorts(full: set<PortAllocation>, pairs: set<(int, int)>)

  function Zeros(n: nat): (z: seq<Byte>)
    ensures |z| == n && forall i :: 0 <= i < n ==> z[i] == 0
  {
    if n == 0 then [] else [0] + Zeros(n - 1)
  }

  /** Only an IPv6 socket uses all sixteen bytes. */
  function AllocationOf(s: Socket): PortAllocation {
    var address := if s.family == AF_INET6 then s.source else s.source[..4] + Zeros(12);
    PortAllocation(address, s.port, s.family, s.protocol)
  }

  /** The pairs are the ports and protocols of the full entries. */
  ghost predicate Projects(active: ActivePorts) {
    && (forall k :: k in active.full ==> (k.port, k.protocol) in active.pairs)
    && (forall p, q :: (p, q) in active.pairs ==> exists k :: k in active.full && k.port == p && k.protocol == q)
  }

  /** The set building of ListBoundPorts, over the sockets of the four dumps. */
  method ListBoundPorts(sockets: seq<Socket>) returns (active: ActivePorts)
    ensures forall k :: k in active.full <==> exists i :: 0 <= i < |sockets| && Describes(k, sockets[i])
    ensures Projects(active)
  {
    hide AllocationOf, Describes;
    active := ActivePorts({}, {});
    var next := 0;
    while next < |sockets|
      invariant 0 <= next <= |sockets|
      invariant forall k :: k in active.full <==> exists i :: 0 <= i < next && Describes(k, sockets[i])
      invariant Projects(active)
    {
      var s := sockets[next];
      AllocationDescribes(s);
      var k := AllocationOf(s);
      ghost var before := active;
      active := ActivePorts(active.full + {k}, active.pairs + {(s.port, s.protocol)});
      forall p, q | (p, q) in active.pairs
        ensures exists k :: k in active.full && k.port == p && k.protocol == q
      {
        if (p, q) in before.pairs {
          var j :| j in before.full && j.port == p && j.protocol == q;
          assert j in active.full;
        } else {
          assert k in active.full;
        }
      }
      next := next + 1;
    }
  }

  /** The entry of a socket: its port, family and protocol; the sixteen bytes of an IPv6 address, or the
      four of another followed by zeros. */
  ghost predicate Describes(k: PortAllocation, s: Socket) {
    && k.port == s.port && k.family == s.family && k.protocol == s.protocol
    && (forall j :: 0 <= j < 16 ==> k.address[j] == if s.family == 10 || j < 4 then s.source[j] else 0)
  }

  lemma AllocationDescribes(s: Socket)
    ensures AllocationOf(s).port == s.port && AllocationOf(s).protocol == s.protocol
    ensures forall k :: Describes(k, s) <==> k == AllocationOf(s)
  {
    var a := AllocationOf(s);
    assert Describes(a, s);
    forall k | Describes(k, s)
      ensures k == a
    {
      assert k.address == a.address;
    }
  }
}
