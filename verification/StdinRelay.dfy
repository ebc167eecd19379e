/** The stdin half of the process relay loops: bytes read from a socket are written to a non-blocking
    descriptor, and what the descriptor does not take is kept for the next turn. */
module StdinRelay {

  type Byte = b: int | 0 <= b < 256

  /** A non-blocking `write`: it takes some prefix, it would block, or it fails otherwise. */
  datatype Write = Wrote(count: nat) | WouldBlock | WriteError

  /** A `read` from the socket; no bytes means that the peer has closed. */
  datatype Read = Data(bytes: seq<Byte>) | ReadError

  /** What one turn of the loop meets: the write of pending bytes, poll, and, if the socket is
      readable, the read and the write that follows it. `leave` is any other exit from the loop. */
  datatype Turn = Turn(delayed: Write, pollFails: bool, readable: bool, read: Read, write: Write, leave: bool)

  /** `received` and `written` are all bytes read from the socket and taken by the descriptor. */
  datatype Relay = Relay(pending: seq<Byte>, open: bool, received: seq<Byte>, written: seq<Byte>, running: bool)

  const EMPTY := Relay([], true, [], [], true)

  /** How many of `size` bytes a write that could take `count` takes. */
  function Taken(count: nat, size: nat): (n: nat)
    ensures n <= size
  {
    if count < size then count else size
  }

  function Flush(r: Relay, w: Write): Relay {
    if r.pending != [] && w.Wrote? then
      var n := Taken(w.count, |r.pending|);
      r.(pending := r.pending[n..], written := r.written + r.pending[..n])
    else r
  }

  /** Reads are attempted only with nothing pending, and not once the descriptor is closed. */
  predicate Reads(r: Relay, t: Turn) {
    t.readable && r.open && r.pending == []
  }

  function Input(r: Relay, t: Turn): Relay {
    if !Reads(r, t) then r
    else
      match t.read
      case ReadError => r.(running := false)
      case Data(bytes) =>
        if bytes == [] then r.(open := false)
        else
          var got := r.(received := r.received + bytes);
          match t.write
          case Wrote(count) =>
            var n := Taken(count, |bytes|);
            got.(pending := bytes[n..], written := r.written + bytes[..n])
          case WouldBlock => got.(pending := bytes)
          case WriteError => got.(running := false)
  }

  function RelayTurn(r: Relay, t: Turn): Relay {
    var flushed := Flush(r, t.delayed);
    if t.pollFails then flushed.(running := false)
    else
      var next := Input(flushed, t);
      if t.leave then next.(running := false) else next
  }

  /** The bytes of `data` that a write takes. */
  function WrittenOf(data: seq<Byte>, w: Write): seq<Byte> {
    if w.Wrote? then (if w.count < |data| then data[..w.count] else data) else []
  }

  lemma FlushWrites(r: Relay, w: Write)
    ensures var n := |WrittenOf(r.pending, w)|;
            n <= |r.pending| && Flush(r, w) == r.(pending := r.pending[n..], written := r.written + WrittenOf(r.pending, w))
  {
    assert r.written + [] == r.written && r.pending[0..] == r.pending;
  }

  lemma InputWrites(r: Relay, t: Turn)
    ensures var x, tries := Input(r, t), t.readable && r.open && r.pending == [];
            var data := if tries && t.read.Data? then t.read.bytes else [];
            && x.received == r.received + data
            && x.written == r.written + WrittenOf(data, t.write)
            && (x.open <==> r.open && !(tries && t.read == Data([])))
            && (x.running <==> r.running && !(tries && t.read.ReadError?) && !(data != [] && t.write.WriteError?))
            && (x.running && r.running ==> |x.pending| == |r.pending| + |data| - |WrittenOf(data, t.write)|)
  {
    assert r.received + [] == r.received && r.written + [] == r.written;
  }

  /** A turn, by what it meets: pending bytes are offered first, new bytes are read only once none are
      left, both are written as far as the descriptor takes them, and an empty read closes it. */
  lemma TurnFollowsTheCalls(r: Relay, t: Turn)
    requires r.running
    ensures var x, flushed := RelayTurn(r, t), WrittenOf(r.pending, t.delayed);
            var tries := !t.pollFails && t.readable && r.open && |flushed| == |r.pending|;
            var data := if tries && t.read.Data? then t.read.bytes else [];
            && x.received == r.received + data
            && x.written == r.written + flushed + WrittenOf(data, t.write)
            && (x.open <==> r.open && !(tries && t.read == Data([])))
            && (x.running <==> !t.pollFails && !t.leave && !(tries && t.read.ReadError?) && !(data != [] && t.write.WriteError?))
            && (x.running ==> |x.pending| == |r.pending| - |flushed| + |data| - |WrittenOf(data, t.write)|)
  {
    hide Flush, Input, WrittenOf, Reads;
    FlushWrites(r, t.delayed);
    InputWrites(Flush(r, t.delayed), t);
    EmptyWrite(t.write);
    var x := RelayTurn(r, t);
    assert r.received + [] == r.received;
    assert r.written + WrittenOf(r.pending, t.delayed) + [] == r.written + WrittenOf(r.pending, t.delayed);
  }

  lemma EmptyWrite(w: Write)
    ensures WrittenOf([], w) == []
  {
  }

  // ---------------------------------------------------------------------
  // Whole runs
  // ---------------------------------------------------------------------

  /** A run of the loop: states at its head, one more than turns taken. */
  ghost predicate Execution(states: seq<Relay>, turns: seq<Turn>) {
    && |states| == |turns| + 1 && states[0] == EMPTY
    && forall i :: 0 <= i < |turns| ==>
         states[i].running && states[i + 1] == RelayTurn(states[i], turns[i])
  }

  predicate Conserved(r: Relay) {
    r.written + r.pending == r.received
  }

  ghost predicate Inv(r: Relay) {
    && (r.running ==> Conserved(r))
    && (!r.open ==> r.pending == [] && r.written == r.received)
  }

  lemma {:induction false} FlushKeeps(r: Relay, w: Write)
    requires Conserved(r)
    ensures Conserved(Flush(r, w)) && r.written <= Flush(r, w).written
    ensures r.pending == [] ==> Flush(r, w) == r
  {
    if r.pending != [] && w.Wrote? {
      var n := Taken(w.count, |r.pending|);
      assert r.pending == r.pending[..n] + r.pending[n..];
    }
  }

  /** This turn reads bytes and fails to write them. */
  predicate Drops(r: Relay, t: Turn) {
    Reads(r, t) && t.read.Data? && t.read.bytes != [] && t.write.WriteError?
  }

  lemma {:induction false} InputKeeps(r: Relay, t: Turn)
    requires Conserved(r)
    ensures Conserved(Input(r, t)) <==> !Drops(r, t)
    ensures Drops(r, t) ==> !Input(r, t).running
    ensures !Input(r, t).open ==> !r.open || Input(r, t).pending == []
    ensures r.written <= Input(r, t).written && r.received <= Input(r, t).received
  {
    if Reads(r, t) && t.read.Data? && t.read.bytes != [] {
      assert r.written + r.pending == r.written;
      NewBytesKeep(r.written, t.read.bytes, t.write);
    }
  }

  lemma NewBytesKeep(written: seq<Byte>, bytes: seq<Byte>, w: Write)
    requires bytes != []
    ensures w.Wrote? ==> var n := Taken(w.count, |bytes|); written + bytes[..n] + bytes[n..] == written + bytes
    ensures written + [] != written + bytes
  {
    if w.Wrote? {
      var n := Taken(w.count, |bytes|);
      assert bytes == bytes[..n] + bytes[n..];
    }
    assert |written + []| != |written + bytes|;
  }

  lemma TurnKeepsInv(r: Relay, t: Turn)
    requires Inv(r) && r.running
    ensures Inv(RelayTurn(r, t))
  {
    hide Flush, Input, Reads, Drops;
    FlushKeeps(r, t.delayed);
    var f := Flush(r, t.delayed);
    FlushFields(r, t.delayed);
    InputKeeps(f, t);
    InputFields(f, t);
    assert f.written + [] == f.written && Input(f, t).written + [] == Input(f, t).written;
  }

  lemma FlushFields(r: Relay, w: Write)
    ensures Flush(r, w).open == r.open && Flush(r, w).running == r.running && Flush(r, w).received == r.received
  {
  }

  lemma InputFields(r: Relay, t: Turn)
    ensures !r.open ==> Input(r, t) == r
    ensures r.open && !Input(r, t).open ==> Input(r, t) == r.(open := false) && r.pending == []
  {
  }

  /** At every head of the loop the bytes written followed by the pending ones are the bytes
      received; and the descriptor is closed only with every received byte written. */
  lemma {:induction false} NothingIsLost(states: seq<Relay>, turns: seq<Turn>, i: nat)
    requires Execution(states, turns) && i < |states|
    ensures states[i].running ==> states[i].written + states[i].pending == states[i].received
    ensures !states[i].open ==> states[i].written == states[i].received
    ensures Inv(states[i])
  {
    if i > 0 {
      NothingIsLost(states, turns, i - 1);
      TurnKeepsInv(states[i - 1], turns[i - 1]);
    }
  }

  /** In every run, at the end as well, bytes are missing exactly when the last turn's write right
      after its read failed; and what is written is always a prefix of what was received. */
  lemma LossOnlyOnWriteError(states: seq<Relay>, turns: seq<Turn>, i: nat)
    requires Execution(states, turns) && i < |turns|
    ensures var f, t, x := Flush(states[i], turns[i].delayed), turns[i], states[i + 1];
            && (x.written + x.pending == x.received <==> t.pollFails || !Drops(f, t))
            && states[i].written <= x.written <= x.received && states[i].received <= x.received
  {
    NothingIsLost(states, turns, i);
    var r, t := states[i], turns[i];
    FlushKeeps(r, t.delayed);
    FlushFields(r, t.delayed);
    InputKeeps(Flush(r, t.delayed), t);
    if Drops(Flush(r, t.delayed), t) {
      DropKeepsPrefix(Flush(r, t.delayed), t);
    }
    hide Flush, Input, Reads, Drops;
  }

  /** A byte read just before the descriptor fails is received and never written. */
  lemma LossExample(b: Byte)
    ensures var x := RelayTurn(EMPTY, Turn(WouldBlock, false, true, Data([b]), WriteError, false));
            !x.running && x.received == [b] && x.written + x.pending == []
  {
  }

  lemma DropKeepsPrefix(r: Relay, t: Turn)
    requires Conserved(r) && Drops(r, t)
    ensures Input(r, t).written <= Input(r, t).received
  {
    assert r.written + [] == r.written;
  }

  // ---------------------------------------------------------------------
  // The loop
  // ---------------------------------------------------------------------

  class ProcessRelay {
    var pendingStdin: seq<Byte>
    var stdInOpen: bool
    ghost var received: seq<Byte>
    ghost var written: seq<Byte>
    ghost var running: bool

    ghost function Value(): Relay
      reads this
    {
      Relay(pendingStdin, stdInOpen, received, written, running)
    }

    constructor ()
      ensures Value() == EMPTY
    {
      pendingStdin, stdInOpen := [], true;
      received, written, running := [], [], true;
    }

    /** One turn; `stop` when the loop breaks. */
    method TakeTurn(t: Turn) returns (stop: bool)
      requires running
      modifies this
      ensures Value() == RelayTurn(old(Value()), t)
      ensures stop <==> !running
    {
      if pendingStdin != [] && t.delayed.Wrote? {
        var n := Taken(t.delayed.count, |pendingStdin|);
        written := written + pendingStdin[..n];
        pendingStdin := pendingStdin[n..];
      }
      if t.pollFails {
        running := false;
        return true;
      }
      if t.readable && stdInOpen && pendingStdin == [] {
        match t.read {
          case ReadError =>
            running := false;
            return true;
          case Data(bytes) =>
            if bytes == [] {
              stdInOpen := false;
            } else {
              received := received + bytes;
              match t.write {
                case WouldBlock =>
                  pendingStdin := bytes;
                case WriteError =>
                  running := false;
                  return true;
                case Wrote(count) =>
                  var n := Taken(count, |bytes|);
                  written := written + bytes[..n];
                  if n < |bytes| {
                    pendingStdin := bytes[n..];
                  }
              }
            }
        }
      }
      if t.leave {
        running := false;
        return true;
      }
      return false;
    }

    /** The loop over any turns the environment supplies: its states at the head form an execution,
        and it goes on until a turn breaks it. */
    method Run(turns: seq<Turn>) returns (taken: nat, ghost states: seq<Relay>)
      requires Value() == EMPTY
      modifies this
      ensures taken <= |turns| && Execution(states, turns[..taken]) && Value() == states[taken]
      ensures running ==> taken == |turns| && written + pendingStdin == received
      ensures !stdInOpen ==> written == received
    {
      hide RelayTurn;
      taken, states := 0, [Value()];
      var stop := false;
      while taken < |turns| && !stop
        invariant 0 <= taken <= |turns| && (stop <==> !running)
        invariant Execution(states, turns[..taken]) && Value() == states[taken]
      {
        stop := TakeTurn(turns[taken]);
        states := states + [Value()];
        taken := taken + 1;
      }
      NothingIsLost(states, turns[..taken], taken);
    }
  }
}
