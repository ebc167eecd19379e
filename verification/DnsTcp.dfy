/** DNS over TCP: the incremental deframer of one connection. Each request is preceded by its length
    in two bytes, most significant first (section 4.2.2 of RFC 1035). */
module DnsTcp {

  type Byte = b: int | 0 <= b < 256

  /** c_byteCountTcpRequestLength. */
  const PREFIX := 2

  datatype Option<+T> = None | Some(value: T)

  function Length(b0: Byte, b1: Byte): nat {
    256 * b0 + b1
  }

  // ---------------------------------------------------------------------
  // The reference: splitting a whole stream
  // ---------------------------------------------------------------------

  datatype Split = Split(frames: seq<seq<Byte>>, rest: seq<Byte>)

  function FrameSize(stream: seq<Byte>): nat
    requires |stream| >= PREFIX
  {
    PREFIX + Length(stream[0], stream[1])
  }

  /** The stream starts with a complete, non-empty frame. */
  predicate StartsWithFrame(stream: seq<Byte>) {
    |stream| >= PREFIX && PREFIX < FrameSize(stream) <= |stream|
  }

  /** The complete frames of a stream, prefix included, and what is left. A frame of length zero ends
      the splitting: it and everything after it is left over. */
  function SplitStream(stream: seq<Byte>): Split
    decreases |stream|
  {
    if !StartsWithFrame(stream) then Split([], stream)
    else
      var size := FrameSize(stream);
      var tail := SplitStream(stream[size..]);
      Split([stream[..size]] + tail.frames, tail.rest)
  }

  function Concat(frames: seq<seq<Byte>>): seq<Byte> {
    if frames == [] then [] else frames[0] + Concat(frames[1..])
  }

  /** Nothing is lost, added or reordered. */
  lemma {:induction false} SplitConserves(stream: seq<Byte>)
    ensures Concat(SplitStream(stream).frames) + SplitStream(stream).rest == stream
    decreases |stream|
  {
    if StartsWithFrame(stream) {
      var size := FrameSize(stream);
      hide FrameSize, StartsWithFrame;
      SplitConserves(stream[size..]);
      var tail := SplitStream(stream[size..]);
      var frames := [stream[..size]] + tail.frames;
      assert frames[0] == stream[..size] && frames[1..] == tail.frames;
      assert Concat(frames) + tail.rest == stream[..size] + (Concat(tail.frames) + tail.rest);
      assert stream == stream[..size] + stream[size..];
    } else {
      assert Concat([]) + stream == stream;
    }
  }

  lemma FrameSurvives(stream: seq<Byte>, more: seq<Byte>)
    requires StartsWithFrame(stream)
    ensures |stream| >= PREFIX
    ensures StartsWithFrame(stream + more) && FrameSize(stream + more) == FrameSize(stream) <= |stream|
  {
    hide Length;
  }

  /** A stream can be split as it arrives: only the left-over needs to be looked at again. */
  lemma {:induction false} SplitAppend(stream: seq<Byte>, more: seq<Byte>)
    ensures var s, t := SplitStream(stream), SplitStream(SplitStream(stream).rest + more);
            SplitStream(stream + more) == Split(s.frames + t.frames, t.rest)
    decreases |stream|
  {
    hide FrameSize, StartsWithFrame, SplitStream;
    if StartsWithFrame(stream) {
      FrameSurvives(stream, more);
      var size := FrameSize(stream);
      SplitStep(stream);
      SplitStep(stream + more);
      var tail := stream[size..];
      SplitAppend(tail, more);
      assert (stream + more)[..size] == stream[..size] && (stream + more)[size..] == tail + more;
      SeqAssoc([stream[..size]], SplitStream(tail).frames, SplitStream(SplitStream(tail).rest + more).frames);
    } else {
      SplitNothing(stream);
      assert [] + SplitStream(stream + more).frames == SplitStream(stream + more).frames;
    }
  }

  lemma SplitNothing(stream: seq<Byte>)
    requires !StartsWithFrame(stream)
    ensures SplitStream(stream) == Split([], stream)
  {
  }

  lemma {:induction false} SplitStep(stream: seq<Byte>)
    requires StartsWithFrame(stream)
    ensures var size, tail := FrameSize(stream), SplitStream(stream[FrameSize(stream)..]);
            0 < size <= |stream| && SplitStream(stream) == Split([stream[..size]] + tail.frames, tail.rest)
  {
  }

  lemma SeqAssoc<T>(a: seq<T>, b: seq<T>, c: seq<T>)
    ensures a + (b + c) == (a + b) + c
  {
  }

  // ---------------------------------------------------------------------
  // Streams of messages
  // ---------------------------------------------------------------------

  function FrameOf(message: seq<Byte>): seq<Byte>
    requires |message| < 0x1_0000
  {
    [|message| / 256, |message| % 256] + message
  }

  predicate Sendable(messages: seq<seq<Byte>>) {
    forall i :: 0 <= i < |messages| ==> |messages[i]| < 0x1_0000
  }

  function FramesOf(messages: seq<seq<Byte>>): seq<seq<Byte>>
    requires Sendable(messages)
  {
    if messages == [] then [] else [FrameOf(messages[0])] + FramesOf(messages[1..])
  }

  lemma {:induction false} SplitOfNonEmpty(messages: seq<seq<Byte>>)
    requires Sendable(messages) && forall i :: 0 <= i < |messages| ==> messages[i] != []
    ensures SplitStream(Concat(FramesOf(messages))) == Split(FramesOf(messages), [])
  {
    if messages != [] {
      SplitOfNonEmpty(messages[1..]);
      var frame, rest := FrameOf(messages[0]), Concat(FramesOf(messages[1..]));
      assert FramesOf(messages)[1..] == FramesOf(messages[1..]);
      assert Concat(FramesOf(messages)) == frame + rest;
      assert Length(frame[0], frame[1]) == |messages[0]|;
      assert (frame + rest)[..|frame|] == frame && (frame + rest)[|frame|..] == rest;
    }
  }

  lemma {:induction false} SplitStopsAtEmpty(messages: seq<seq<Byte>>, i: nat)
    requires Sendable(messages) && i < |messages| && messages[i] == []
    ensures |SplitStream(Concat(FramesOf(messages))).frames| < |messages|
  {
    var frame, rest := FrameOf(messages[0]), Concat(FramesOf(messages[1..]));
    assert FramesOf(messages)[1..] == FramesOf(messages[1..]);
    assert Concat(FramesOf(messages)) == frame + rest;
    assert Length(frame[0], frame[1]) == |messages[0]|;
    if messages[0] != [] {
      SplitStopsAtEmpty(messages[1..], i - 1);
      assert (frame + rest)[..|frame|] == frame && (frame + rest)[|frame|..] == rest;
    }
  }

  lemma {:induction false} FramesOfLength(messages: seq<seq<Byte>>)
    requires Sendable(messages)
    ensures |FramesOf(messages)| == |messages|
  {
    if messages != [] {
      FramesOfLength(messages[1..]);
    }
  }

  /** A stream of messages yields exactly its frames, in order and with nothing left, precisely when
      no message is empty. */
  lemma {:induction false} AllFramesIffNoneEmpty(messages: seq<seq<Byte>>)
    requires Sendable(messages)
    ensures SplitStream(Concat(FramesOf(messages))) == Split(FramesOf(messages), []) <==>
            forall i :: 0 <= i < |messages| ==> messages[i] != []
  {
    FramesOfLength(messages);
    if forall i :: 0 <= i < |messages| ==> messages[i] != [] {
      SplitOfNonEmpty(messages);
    } else {
      var i :| 0 <= i < |messages| && messages[i] == [];
      SplitStopsAtEmpty(messages, i);
    }
  }

  // ---------------------------------------------------------------------
  // The connection
  // ---------------------------------------------------------------------

  /** What `recv` delivers: an error, or at most the bytes asked for (none when the peer has closed,
      or when none were asked for). */
  datatype Recv = Failed | Bytes(data: seq<Byte>)

  /** The partial request: two bytes until the length is known, the whole frame afterwards. */
  ghost predicate WellSized(buffer: seq<Byte>, offset: nat) {
    && offset <= |buffer|
    && (offset < PREFIX ==> |buffer| == PREFIX)
    && (offset >= PREFIX ==> |buffer| == PREFIX + Length(buffer[0], buffer[1]))
    && (offset == |buffer| ==> |buffer| == PREFIX)
  }

  class TcpConnectionContext {
    const connectionId: nat
    var currentDnsRequest: seq<Byte>
    var currentRequestOffset: nat
    var open: bool                    // still in m_tcpConnectionContexts
    ghost var received: seq<Byte>     // every byte recv delivered
    ghost var tunneled: seq<seq<Byte>>

    /** At all times the requests tunneled so far and the partial buffer are the bytes received, split. */
    ghost predicate Valid()
      reads this
    {
      && WellSized(currentDnsRequest, currentRequestOffset)
      && SplitStream(received) == Split(tunneled, currentDnsRequest[..currentRequestOffset])
    }

    constructor (id: nat)
      ensures Valid() && connectionId == id && open && received == [] && tunneled == []
    {
      connectionId := id;
      currentDnsRequest := [0, 0];
      currentRequestOffset := 0;
      open := true;
      received, tunneled := [], [];
    }

    /** HandleNewTcpData: one `recv` into the rest of the buffer. Returns the request to tunnel, if the
        call completed one; an error or an empty read closes the connection. */
    method HandleNewTcpData(recv: Recv) returns (dnsRequest: Option<seq<Byte>>)
      requires Valid() && open
      requires recv.Bytes? ==> |recv.data| <= |currentDnsRequest| - currentRequestOffset
      modifies this
      ensures Valid()
      ensures open <==> recv.Bytes? && recv.data != []
      ensures !open ==> dnsRequest.None?
      ensures received == old(received) + (if recv.Bytes? then recv.data else [])
      ensures tunneled == old(tunneled) + (if dnsRequest.Some? then [dnsRequest.value] else [])
    {
      hide SplitStream, StartsWithFrame, FrameSize, Length;
      dnsRequest := None;
      if recv.Failed? || recv.data == [] {
        open := false;
        assert received + [] == received && tunneled + [] == tunneled;
        return;
      }
      ghost var before := currentDnsRequest[..currentRequestOffset];
      var end := currentRequestOffset + |recv.data|;
      currentDnsRequest := currentDnsRequest[..currentRequestOffset] + recv.data + currentDnsRequest[end..];
      currentRequestOffset := end;
      received := received + recv.data;
      ghost var partial := currentDnsRequest[..end];
      assert partial == before + recv.data;
      SplitAppend(old(received), recv.data);
      assert SplitStream(received) == Split(tunneled + SplitStream(partial).frames, SplitStream(partial).rest);
      if currentRequestOffset == |currentDnsRequest| {
        if |currentDnsRequest| == PREFIX {
          var length := Length(currentDnsRequest[0], currentDnsRequest[1]);
          currentDnsRequest := Resize(currentDnsRequest, PREFIX + length);
          SplitPartial(partial);
          assert currentDnsRequest[..end] == partial;
          assert tunneled + [] == tunneled;
        } else {
          dnsRequest := Some(currentDnsRequest);
          assert partial == currentDnsRequest;
          SplitWhole(partial);
          currentRequestOffset := 0;
          currentDnsRequest := [0, 0];
          tunneled := tunneled + [dnsRequest.value];
        }
      } else {
        SplitPartial(partial);
        assert tunneled + [] == tunneled;
      }
    }
  }

  /** std::vector::resize: the front is kept, new elements are zero. */
  function Resize(v: seq<Byte>, size: nat): (r: seq<Byte>)
    ensures |r| == size && forall i :: 0 <= i < size && i < |v| ==> r[i] == v[i]
  {
    if size <= |v| then v[..size] else v + seq(size - |v|, _ => 0)
  }

  /** A buffer that is not yet full. */
  lemma SplitPartial(partial: seq<Byte>)
    requires |partial| <= PREFIX || |partial| < PREFIX + Length(partial[0], partial[1])
    ensures SplitStream(partial) == Split([], partial)
  {
  }

  /** A buffer that holds exactly one frame. */
  lemma SplitWhole(frame: seq<Byte>)
    requires |frame| > PREFIX && |frame| == PREFIX + Length(frame[0], frame[1])
    ensures SplitStream(frame) == Split([frame], [])
  {
    assert frame[..|frame|] == frame && frame[|frame|..] == [];
    assert SplitStream([]) == Split([], []);
  }

  // ---------------------------------------------------------------------
  // Whole connections
  // ---------------------------------------------------------------------

  /** After a prefix that announces nothing, no further byte completes a frame. */
  lemma {:induction false} EmptyFrameStops(stream: seq<Byte>, more: seq<Byte>)
    requires var rest := SplitStream(stream).rest; |rest| == PREFIX && Length(rest[0], rest[1]) == 0
    ensures SplitStream(stream + more) == Split(SplitStream(stream).frames, SplitStream(stream).rest + more)
  {
    hide Length;
    SplitAppend(stream, more);
    var rest := SplitStream(stream).rest;
    assert SplitStream(rest + more) == Split([], rest + more);
  }

  /** Delivers a stream cut by `recv` in any way: `cut` says how many bytes the next call would find.
      Whatever the cuts, the requests tunneled are the frames of the stream; the connection is closed
      exactly when the stream goes on behind a frame of length zero. */
  method Deliver(context: TcpConnectionContext, stream: seq<Byte>, cut: nat -> nat) returns (requests: seq<seq<Byte>>)
    requires context.Valid() && context.open && context.received == [] && context.tunneled == []
    modifies context
    ensures context.Valid()
    ensures requests == context.tunneled == SplitStream(stream).frames
    ensures context.open ==> context.received == stream
    ensures var rest := SplitStream(stream).rest;
            !context.open <==> |rest| > PREFIX && Length(rest[0], rest[1]) == 0
  {
    requests := [];
    var taken := 0;
    while taken < |stream|
      invariant 0 <= taken <= |stream|
      invariant context.Valid() && context.open && context.received == stream[..taken]
      invariant requests == context.tunneled
    {
      var room := |context.currentDnsRequest| - context.currentRequestOffset;
      assert stream == stream[..taken] + stream[taken..];
      if room == 0 {
        EmptyFrameStops(stream[..taken], stream[taken..]);
        var none := context.HandleNewTcpData(Bytes([]));
        return;
      }
      var size := Min(1 + cut(taken), Min(room, |stream| - taken));
      assert stream[..taken] + stream[taken..taken + size] == stream[..taken + size];
      var request := context.HandleNewTcpData(Bytes(stream[taken..taken + size]));
      if request.Some? {
        requests := requests + [request.value];
      }
      taken := taken + size;
    }
    assert stream[..taken] == stream;
  }

  function Min(a: nat, b: nat): nat {
    if a < b then a else b
  }
}
