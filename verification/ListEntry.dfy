/** The intrusive circular doubly linked list of lxdef.h. */
module ListEntries {

  class ListEntry {
    var flink: ListEntry
    var blink: ListEntry

    constructor ()
      ensures flink == this && blink == this
    {
      flink, blink := this, this;
    }
  }

  ghost predicate Distinct(nodes: seq<ListEntry>) {
    forall i, j :: 0 <= i < j < |nodes| ==> nodes[i] != nodes[j]
  }

  ghost function After(nodes: seq<ListEntry>, i: nat): ListEntry
    requires i < |nodes|
  {
    if i + 1 < |nodes| then nodes[i + 1] else nodes[0]
  }

  ghost function Before(nodes: seq<ListEntry>, i: nat): ListEntry
    requires i < |nodes|
  {
    if i > 0 then nodes[i - 1] else nodes[|nodes| - 1]
  }

  /** A ring: the anchor first, then the entries in order. */
  ghost predicate Ring(nodes: seq<ListEntry>)
    reads nodes
  {
    && nodes != []
    && Distinct(nodes)
    && (forall i :: 0 <= i < |nodes| ==> nodes[i].flink == After(nodes, i))
    && (forall i :: 0 <= i < |nodes| ==> nodes[i].blink == Before(nodes, i))
  }

  ghost function Without(nodes: seq<ListEntry>, k: nat): seq<ListEntry>
    requires k < |nodes|
  {
    nodes[..k] + nodes[k + 1..]
  }

  /** Neighbours in a ring with one entry taken out. */
  lemma WithoutLinks(nodes: seq<ListEntry>, k: nat, i: nat)
    requires 0 < k < |nodes| && i < |nodes| - 1
    ensures |Without(nodes, k)| == |nodes| - 1
    ensures var ring, j := Without(nodes, k), if i < k then i else i + 1;
            && ring[i] == nodes[j]
            && After(ring, i) == (if j == k - 1 then After(nodes, k) else After(nodes, j))
            && Before(ring, i) == (if j == (if k + 1 < |nodes| then k + 1 else 0) then nodes[k - 1] else Before(nodes, j))
  {
  }

  lemma WithoutDistinct(nodes: seq<ListEntry>, k: nat)
    requires 0 < k < |nodes| && Distinct(nodes)
    ensures Distinct(Without(nodes, k))
  {
    var ring := Without(nodes, k);
    assert forall i :: 0 <= i < |ring| ==> ring[i] == nodes[if i < k then i else i + 1];
  }

  method InitializeListHead(head: ListEntry)
    modifies head
    ensures Ring([head])
  {
    head.blink := head;
    head.flink := head.blink;
  }

  method IsListEmpty(head: ListEntry, ghost nodes: seq<ListEntry>) returns (empty: bool)
    requires Ring(nodes) && nodes[0] == head
    ensures empty <==> nodes == [head]
  {
    assert nodes[0].flink == After(nodes, 0);
    empty := head.flink == head;
  }

  method InsertTailList(head: ListEntry, entry: ListEntry, ghost nodes: seq<ListEntry>)
    requires Ring(nodes) && nodes[0] == head && entry !in nodes
    modifies entry, head, head.blink
    ensures Ring(nodes + [entry])
  {
    assert nodes[0].blink == Before(nodes, 0) == nodes[|nodes| - 1];
    var blink := head.blink;
    entry.flink := head;
    entry.blink := blink;
    blink.flink := entry;
    head.blink := entry;
    ghost var ring := nodes + [entry];
    assert forall i :: 0 <= i < |nodes| ==> ring[i] == nodes[i];
  }

  /** The entry keeps its own stale links. The answer says that only the anchor is left. */
  method RemoveEntryList(entry: ListEntry, ghost nodes: seq<ListEntry>, ghost k: nat) returns (empty: bool)
    requires Ring(nodes) && 0 < k < |nodes| && nodes[k] == entry
    modifies entry.flink, entry.blink
    ensures Ring(Without(nodes, k))
    ensures empty <==> Without(nodes, k) == [nodes[0]]
    ensures entry.flink == old(entry.flink) && entry.blink == old(entry.blink)
  {
    hide Without;
    var flink := entry.flink;
    var blink := entry.blink;
    assert flink == After(nodes, k) && blink == nodes[k - 1];
    blink.flink := flink;
    flink.blink := blink;
    ghost var ring := Without(nodes, k);
    WithoutLinks(nodes, k, 0);
    WithoutDistinct(nodes, k);
    forall i | 0 <= i < |ring|
      ensures ring[i].flink == After(ring, i)
      ensures ring[i].blink == Before(ring, i)
    {
      WithoutLinks(nodes, k, i);
      var j := if i < k then i else i + 1;
      assert old(nodes[j].flink) == After(nodes, j) && old(nodes[j].blink) == Before(nodes, j);
    }
    empty := flink == blink;
    assert |ring| == 1 ==> ring == [nodes[0]];
  }

  // ---------------------------------------------------------------------
  // Any sequence of operations
  // ---------------------------------------------------------------------

  /** Removal names the entry by its place in the abstract list. */
  datatype Op = Insert(entry: ListEntry) | Remove(at: nat)

  ghost predicate Allowed(nodes: seq<ListEntry>, op: Op) {
    match op
    case Insert(entry) => entry !in nodes
    case Remove(at) => 0 < at < |nodes|
  }

  ghost function Apply(nodes: seq<ListEntry>, op: Op): seq<ListEntry>
    requires Allowed(nodes, op)
  {
    match op
    case Insert(entry) => nodes + [entry]
    case Remove(at) => Without(nodes, at)
  }

  /** The abstract list after each operation, starting with `nodes`. */
  ghost predicate IsHistory(nodes: seq<ListEntry>, ops: seq<Op>, history: seq<seq<ListEntry>>) {
    && |history| == |ops| + 1 && history[0] == nodes
    && forall i :: 0 <= i < |ops| ==> Allowed(history[i], ops[i]) && history[i + 1] == Apply(history[i], ops[i])
  }

  ghost predicate Within(nodes: seq<ListEntry>, universe: set<ListEntry>) {
    forall e :: e in nodes ==> e in universe
  }

  /** Runs a script from an initialised anchor: the ring follows the abstract list throughout, and a
      removal answers true exactly when it leaves the list empty. */
  method RunScript(head: ListEntry, ops: seq<Op>, universe: set<ListEntry>, nodes: seq<seq<ListEntry>>)
    returns (answers: seq<bool>)
    requires IsHistory([head], ops, nodes)
    requires forall i :: 0 <= i < |nodes| ==> Within(nodes[i], universe)
    modifies universe
    ensures Ring(nodes[|ops|])
    ensures |answers| == |ops|
    ensures forall i :: 0 <= i < |ops| && ops[i].Remove? ==> (answers[i] <==> nodes[i + 1] == [head])
  {
    hide Ring, Within, Apply, Allowed;
    AnchorWithin(nodes[0], universe);
    InitializeListHead(head);
    answers := [];
    var i := 0;
    while i < |ops|
      invariant 0 <= i <= |ops| && |answers| == i
      invariant Ring(nodes[i]) && nodes[i] != [] && nodes[i][0] == head
      invariant forall j :: 0 <= j < i && ops[j].Remove? ==> (answers[j] <==> nodes[j + 1] == [head])
    {
      assert Allowed(nodes[i], ops[i]) && nodes[i + 1] == Apply(nodes[i], ops[i]);
      assert Within(nodes[i], universe) && Within(nodes[i + 1], universe);
      var empty := RunOp(head, ops[i], nodes[i], universe);
      answers := answers + [empty];
      i := i + 1;
    }
  }

  lemma AnchorWithin(nodes: seq<ListEntry>, universe: set<ListEntry>)
    requires nodes != [] && Within(nodes, universe)
    ensures nodes[0] in universe
  {
    assert nodes[0] in nodes;
  }

  method RunOp(head: ListEntry, op: Op, nodes: seq<ListEntry>, universe: set<ListEntry>) returns (empty: bool)
    requires Ring(nodes) && nodes[0] == head && Allowed(nodes, op)
    requires Within(nodes, universe) && Within(Apply(nodes, op), universe)
    modifies universe
    ensures Ring(Apply(nodes, op)) && Apply(nodes, op) != [] && Apply(nodes, op)[0] == head
    ensures op.Remove? ==> (empty <==> Apply(nodes, op) == [head])
  {
    empty := false;
    match op {
      case Insert(entry) =>
        assert nodes[0].blink == Before(nodes, 0);
        assert entry in Apply(nodes, op);
        InsertTailList(head, entry, nodes);
      case Remove(at) =>
        assert nodes[at].flink == After(nodes, at) && nodes[at].blink == Before(nodes, at);
        empty := RemoveEntryList(nodes[at], nodes, at);
    }
  }
}
