/**
 The byte path from a QUIC stream through the connection actor's channel to the request
 handler's socket, and the actor's bookkeeping of streams.
 */
module StreamForwarding {
  import opened Bytes

  const FORWARD_BUFFER := 65536

  datatype StreamState = Idle | Open | HalfClosedLocal | HalfClosedRemote | Closed | Reset

  /** In-order bytes received so far, how many the actor has read, the state, and whether sending is over. */
  datatype RxHalf = RxHalf(received: seq<Byte>, readPos: nat, state: StreamState, sendDone: bool)

  type StreamRx = s: RxHalf | s.readPos <= |s.received| witness RxHalf([], 0, Idle, false)

  predicate RemoteDone(s: StreamRx) { s.state == HalfClosedRemote || s.state == Closed }

  predicate FullyDone(s: StreamRx) { s.state == Reset || (s.state == Closed && s.sendDone) }

  /** Bytes a read would still return; a reset stream reads as ended. */
  function Unread(s: StreamRx): seq<Byte> { if s.state == Reset then [] else s.received[s.readPos..] }

  /** Successive reads into the forwarding buffer. */
  function Chunks(bytes: seq<Byte>): seq<seq<Byte>> { Split(bytes, FORWARD_BUFFER) }

  function AfterRead(s: StreamRx): StreamRx { if s.state == Reset then s else s.(readPos := |s.received|) }

  const EOF: seq<Byte> := []

  datatype Forwarded = Forwarded(stream: StreamRx, chunks: seq<seq<Byte>>, eof: bool)

  /** One stream's turn in the forwarding pass; `chunks` is what goes into its channel. */
  function Forward(s: StreamRx, eofSent: bool): Forwarded {
    if eofSent then Forwarded(s, [], true)
    else if RemoteDone(s) then Forwarded(AfterRead(s), Chunks(Unread(s)) + [EOF], true)
    else Forwarded(AfterRead(s), Chunks(Unread(s)), false)
  }

  method ForwardStream(s: StreamRx, eofSent: bool) returns (r: Forwarded)
    ensures r == Forward(s, eofSent)
  {
    if eofSent {
      return Forwarded(s, [], true);
    }
    var chunks := ReadAll(Unread(s));
    var stream := AfterRead(s);
    if stream.state == HalfClosedRemote || stream.state == Closed {
      return Forwarded(stream, chunks + [EOF], true);
    }
    r := Forwarded(stream, chunks, false);
  }

  /** Reads into the forwarding buffer until a read returns nothing; every read becomes one chunk. */
  method ReadAll(unread: seq<Byte>) returns (chunks: seq<seq<Byte>>)
    ensures chunks == Chunks(unread)
  {
    var rest := unread;
    chunks := [];
    while rest != []
      invariant chunks + Chunks(rest) == Chunks(unread)
      decreases |rest|
    {
      var n := Min(FORWARD_BUFFER, |rest|);
      Assoc(chunks, [rest[..n]], Chunks(rest[n..]));
      chunks := chunks + [rest[..n]];
      rest := rest[n..];
    }
  }

  lemma ChunksFlatten(bytes: seq<Byte>)
    ensures Flatten(Chunks(bytes)) == bytes
    ensures NonEmpty(Chunks(bytes))
    ensures forall i :: 0 <= i < |Chunks(bytes)| ==> |Chunks(bytes)[i]| <= 65536
    ensures forall i :: 0 <= i < |Chunks(bytes)| - 1 ==> |Chunks(bytes)[i]| == 65536
  {
    SplitCovers(bytes, FORWARD_BUFFER);
  }

  // ---------- the handler's socket ----------

  datatype Socket = Socket(leftover: seq<Byte>, eof: bool)

  datatype ReadResult = ReadResult(bytes: seq<Byte>, socket: Socket, queue: seq<seq<Byte>>)

  /** Whether a read returns rather than waits for the channel. */
  predicate Returns(s: Socket, queue: seq<seq<Byte>>) { s.leftover != [] || s.eof || queue != [] }

  function ReadFrom(s: Socket, queue: seq<seq<Byte>>, size: nat): ReadResult
    requires Returns(s, queue)
  {
    if s.leftover != [] then
      var n := Min(size, |s.leftover|);
      ReadResult(s.leftover[..n], s.(leftover := s.leftover[n..]), queue)
    else if s.eof then ReadResult([], s, queue)
    else if queue[0] == EOF then ReadResult([], s.(eof := true), queue[1..])
    else
      var n := Min(size, |queue[0]|);
      ReadResult(queue[0][..n], s.(leftover := queue[0][n..]), queue[1..])
  }

  class Channel {
    var items: seq<seq<Byte>>

    constructor ()
      ensures items == []
    {
      items := [];
    }
  }

  class ActorStreamSocket {
    const dataChan: Channel
    var leftover: seq<Byte>
    var eof: bool
    var writeBuf: seq<Byte>
    var sent: bool
    var responses: seq<seq<Byte>>

    constructor (chan: Channel)
      ensures dataChan == chan && Socket(leftover, eof) == Socket([], false) && !sent
      ensures writeBuf == [] && responses == []
    {
      dataChan := chan;
      leftover, eof, writeBuf, sent, responses := [], false, [], false, [];
    }

    method ReadInto(size: nat) returns (bytes: seq<Byte>)
      requires Returns(Socket(leftover, eof), dataChan.items)
      modifies this`leftover, this`eof, dataChan
      ensures ReadResult(bytes, Socket(leftover, eof), dataChan.items)
           == ReadFrom(old(Socket(leftover, eof)), old(dataChan.items), size)
    {
      if |leftover| > 0 {
        var n := Min(size, |leftover|);
        bytes := leftover[..n];
        leftover := leftover[n..];
        return;
      }
      if eof {
        return [];
      }
      var chunk := dataChan.items[0];
      dataChan.items := dataChan.items[1..];
      if chunk == [] {
        eof := true;
        return [];
      }
      var n := Min(size, |chunk|);
      bytes := chunk[..n];
      assert n == |chunk| ==> chunk[n..] == leftover;
      if n < |chunk| {
        leftover := chunk[n..];
      }
    }

    method Write(bytes: seq<Byte>)
      modifies this`writeBuf
      ensures writeBuf == old(writeBuf) + bytes
    {
      writeBuf := writeBuf + bytes;
    }

    /** However often it is called, the response is pushed once, with what was written before. */
    method CloseLocal()
      modifies this`sent, this`responses
      ensures sent
      ensures responses == if old(sent) then old(responses) else old(responses) + [writeBuf]
    {
      if sent {
        return;
      }
      sent := true;
      responses := responses + [writeBuf];
    }
  }

  // ---------- one stream end to end ----------

  /** The stream, whether its EOF chunk went out, the channel, the socket, and what reads returned. */
  datatype Pipe = Pipe(
    stream: StreamRx, eofSent: bool, removed: bool,
    queue: seq<seq<Byte>>, socket: Socket, output: seq<Byte>)

  datatype Action =
    | Receive(bytes: seq<Byte>)
    | Become(state: StreamState, sendDone: bool)
    | ForwardPass
    | HandlerRead(size: nat)

  /** The stream states a stream can move on to. */
  predicate MayBecome(a: StreamState, b: StreamState) {
    || a == b || b == Reset
    || (a == Idle && b == Open)
    || (a == Open && (b == HalfClosedLocal || b == HalfClosedRemote))
    || ((a == HalfClosedLocal || a == HalfClosedRemote) && b == Closed)
  }

  function Start(): Pipe { Pipe(RxHalf([], 0, Idle, false), false, false, [], Socket([], false), []) }

  /** A step of the peer, the actor or the handler; an impossible one changes nothing. */
  function Next(p: Pipe, a: Action): Pipe {
    match a
    case Receive(bytes) =>
      if RemoteDone(p.stream) then p
      else p.(stream := p.stream.(received := p.stream.received + bytes,
                                  state := if p.stream.state == Idle then Open else p.stream.state))
    case Become(state, sendDone) =>
      if MayBecome(p.stream.state, state) then p.(stream := p.stream.(state := state, sendDone := sendDone)) else p
    case ForwardPass =>
      if p.removed then p
      else
        var f := Forward(p.stream, p.eofSent);
        p.(stream := f.stream, queue := p.queue + f.chunks, eofSent := f.eof, removed := FullyDone(f.stream))
    case HandlerRead(size) =>
      if size == 0 || !Returns(p.socket, p.queue) then p
      else
        var r := ReadFrom(p.socket, p.queue, size);
        p.(socket := r.socket, queue := r.queue, output := p.output + r.bytes)
  }

  function Run(p: Pipe, actions: seq<Action>): Pipe
    decreases |actions|
  {
    if actions == [] then p else Run(Next(p, actions[0]), actions[1..])
  }

  predicate NonEmpty(queue: seq<seq<Byte>>) { forall i :: 0 <= i < |queue| ==> queue[i] != [] }

  /** The channel holds data chunks, then at most one EOF chunk, which is there until the handler takes it. */
  ghost predicate WellQueued(p: Pipe) {
    if p.eofSent && !p.socket.eof
    then p.queue != [] && p.queue[|p.queue| - 1] == EOF && NonEmpty(p.queue[..|p.queue| - 1])
    else NonEmpty(p.queue)
  }

  ghost predicate Inv(p: Pipe) {
    && p.output + p.socket.leftover + Flatten(p.queue) == p.stream.received[..p.stream.readPos]
    && WellQueued(p)
    && (p.socket.eof ==> p.eofSent && p.queue == [] && p.socket.leftover == [])
    && (p.eofSent ==> RemoteDone(p.stream) || p.stream.state == Reset)
    && (p.eofSent && RemoteDone(p.stream) ==> p.stream.readPos == |p.stream.received|)
  }

  /** What a forwarding pass adds to the queue adds exactly the unread bytes. */
  lemma ForwardedBytes(queue: seq<seq<Byte>>, s: StreamRx)
    ensures Flatten(queue + Forward(s, false).chunks) == Flatten(queue) + Unread(s)
  {
    var data := Chunks(Unread(s));
    ChunksFlatten(Unread(s));
    FlatMapAppend(Chunk<Byte>, queue, data);
    FlattenSnoc(queue + data, EOF);
    Assoc(queue, data, [EOF]);
  }

  lemma BytesExtend(s: StreamRx, output: seq<Byte>, leftover: seq<Byte>, queued: seq<Byte>)
    requires output + leftover + queued == s.received[..s.readPos]
    ensures var t := AfterRead(s); output + leftover + (queued + Unread(s)) == t.received[..t.readPos]
  {
    Assoc(output + leftover, queued, Unread(s));
  }

  /** The queue stays data, then at most one EOF chunk. */
  lemma ForwardedQueue(queue: seq<seq<Byte>>, s: StreamRx)
    requires NonEmpty(queue)
    ensures var q := queue + Forward(s, false).chunks;
      if RemoteDone(s) then q != [] && q[|q| - 1] == EOF && NonEmpty(q[..|q| - 1]) else NonEmpty(q)
  {
    var data := Chunks(Unread(s));
    ChunksFlatten(Unread(s));
    var q := queue + data + [EOF];
    Assoc(queue, data, [EOF]);
    assert q[..|q| - 1] == queue + data;
  }

  lemma ForwardKeepsInv(p: Pipe)
    requires Inv(p)
    ensures Inv(Next(p, ForwardPass))
  {
    if !p.removed {
      if p.eofSent {
        assert p.queue + [] == p.queue;
      } else {
        ForwardedBytes(p.queue, p.stream);
        BytesExtend(p.stream, p.output, p.socket.leftover, Flatten(p.queue));
        ForwardedQueue(p.queue, p.stream);
      }
    }
  }

  lemma ReadKeepsInv(p: Pipe, size: nat)
    requires Inv(p)
    ensures Inv(Next(p, HandlerRead(size)))
  {
    if size > 0 && Returns(p.socket, p.queue) {
      if p.socket.leftover != [] {
        var k := Min(size, |p.socket.leftover|);
        CutBytes(p.output, p.socket.leftover, k);
      } else if p.socket.eof {
        assert p.output + [] == p.output;
      } else {
        ChunkReadKeepsInv(p, size);
      }
    }
  }

  lemma CutBytes(output: seq<Byte>, chunk: seq<Byte>, k: nat)
    requires k <= |chunk|
    ensures output + chunk[..k] + chunk[k..] == output + chunk
  {
    Assoc(output, chunk[..k], chunk[k..]);
    assert chunk[..k] + chunk[k..] == chunk;
  }

  lemma ChunkReadKeepsInv(p: Pipe, size: nat)
    requires Inv(p) && size > 0 && p.socket.leftover == [] && !p.socket.eof && p.queue != []
    ensures Inv(Next(p, HandlerRead(size)))
  {
    var c, rest := p.queue[0], p.queue[1..];
    assert p.output + [] == p.output;
    if c == EOF {
      assert rest == [];
      assert [] + Flatten(rest) == Flatten(rest);
    } else {
      var k := Min(size, |c|);
      CutBytes(p.output, c, k);
      Assoc(p.output, c, Flatten(rest));
      QueueTail(p.queue);
    }
  }

  lemma QueueTail(queue: seq<seq<Byte>>)
    requires queue != []
    ensures NonEmpty(queue) ==> NonEmpty(queue[1..])
    ensures queue[0] != EOF && queue[|queue| - 1] == EOF && NonEmpty(queue[..|queue| - 1]) ==>
              |queue| > 1 && queue[1..][|queue| - 2] == EOF && NonEmpty(queue[1..][..|queue| - 2])
  {
    assert forall i :: 0 <= i < |queue| - 1 ==> queue[1..][i] == queue[i + 1] && queue[..|queue| - 1][i] == queue[i];
  }

  lemma NextKeepsInv(p: Pipe, a: Action)
    requires Inv(p)
    ensures Inv(Next(p, a))
  {
    match a
    case ForwardPass => ForwardKeepsInv(p);
    case HandlerRead(size) => ReadKeepsInv(p, size);
    case Receive(bytes) =>
      assert (p.stream.received + bytes)[..p.stream.readPos] == p.stream.received[..p.stream.readPos];
    case _ =>
  }

  lemma {:induction false} RunKeepsInv(p: Pipe, actions: seq<Action>)
    requires Inv(p)
    ensures Inv(Run(p, actions))
    decreases |actions|
  {
    if actions != [] {
      NextKeepsInv(p, actions[0]);
      RunKeepsInv(Next(p, actions[0]), actions[1..]);
    }
  }

  /**
   For every batching of packets and forwarding passes and every sequence of positive read
   sizes: what the handler has read is a prefix of the stream's bytes; when it has seen the
   end of file of a stream that ended normally, it has read all of them; and a read that
   returns nothing means end of file, now and for ever.
   */
  lemma HandlerReadsTheStream(actions: seq<Action>, size: nat)
    requires size > 0
    ensures var p := Run(Start(), actions);
            && p.output <= p.stream.received
            && (p.socket.eof && RemoteDone(p.stream) ==> p.output == p.stream.received)
            && (Returns(p.socket, p.queue) ==>
                  var n := Next(p, HandlerRead(size));
                  && (n.output == p.output <==> n.socket.eof)
                  && (p.socket.eof ==> n == p))
  {
    RunKeepsInv(Start(), actions);
    var p := Run(Start(), actions);
    var rest := p.socket.leftover + Flatten(p.queue);
    assert p.output + rest == p.stream.received[..p.stream.readPos];
    if p.socket.eof {
      assert rest == [];
    }
    if Returns(p.socket, p.queue) {
      PositiveReads(p, size);
    }
  }

  lemma PositiveReads(p: Pipe, size: nat)
    requires Inv(p) && size > 0 && Returns(p.socket, p.queue)
    ensures var r := ReadFrom(p.socket, p.queue, size);
            && (r.bytes == [] <==> r.socket.eof)
            && (p.output + r.bytes == p.output <==> r.bytes == [])
            && (p.socket.eof ==> r.socket == p.socket && r.queue == p.queue && r.bytes == [])
  {
    var r := ReadFrom(p.socket, p.queue, size);
    assert |p.output + r.bytes| == |p.output| + |r.bytes|;
    assert p.output + [] == p.output;
  }

  /**
   A pass drops a stream without its EOF chunk exactly when it was reset before one was sent.
   */
  lemma DroppedWithoutEofIff(p: Pipe)
    requires !p.removed
    ensures var n := Next(p, ForwardPass);
            n.removed && !n.eofSent <==> p.stream.state == Reset && !p.eofSent
  {
  }

  /** What is left for the handler of a stream that was dropped. */
  function Left(p: Pipe): seq<Byte> { p.socket.leftover + Flatten(p.queue) }

  /**
   From then on, whatever the peer, the actor and the handler do: no end of file is ever sent or
   seen, what the handler can still read only shrinks, and a handler that finds nothing waits
   on a channel that nobody fills again.
   */
  lemma {:induction false} HandlerWaitsForEver(p: Pipe, actions: seq<Action>)
    requires Inv(p) && p.removed && !p.eofSent
    ensures var n := Run(p, actions);
      && n.removed && !n.eofSent && !n.socket.eof
      && p.output + Left(p) == n.output + Left(n)
      && (!Returns(p.socket, p.queue) ==> n.output == p.output && !Returns(n.socket, n.queue))
    decreases |actions|
  {
    if actions != [] {
      hide Flatten, ReadFrom;
      var n := Next(p, actions[0]);
      NextKeepsInv(p, actions[0]);
      DroppedStep(p, actions[0]);
      HandlerWaitsForEver(n, actions[1..]);
    }
  }

  lemma DroppedStep(p: Pipe, a: Action)
    requires Inv(p) && p.removed && !p.eofSent
    ensures var n := Next(p, a);
      && n.removed && !n.eofSent && p.output + Left(p) == n.output + Left(n)
      && (!Returns(p.socket, p.queue) ==> n.socket == p.socket && n.queue == p.queue && n.output == p.output)
  {
    NextKeepsInv(p, a);
    var n := Next(p, a);
    Assoc(p.output, p.socket.leftover, Flatten(p.queue));
    Assoc(n.output, n.socket.leftover, Flatten(n.queue));
  }

  lemma OneChunk(b: Byte)
    ensures Chunks([b]) == [[b]]
  {
    assert [b][..1] == [b] && [b][1..] == [];
    assert Split([b], FORWARD_BUFFER) == [[b]] + Split([], FORWARD_BUFFER);
  }

  /** Such a stream: one byte arrives, the stream is reset, the actor forwards, the handler reads. */
  lemma ResetBeforeEof(b: Byte)
    ensures var p := Run(Start(), [Receive([b]), ForwardPass, Become(Reset, false), ForwardPass, HandlerRead(1)]);
      Inv(p) && p.removed && !p.eofSent && p.output == [b] && !Returns(p.socket, p.queue)
  {
    var actions := [Receive([b]), ForwardPass, Become(Reset, false), ForwardPass, HandlerRead(1)];
    RunKeepsInv(Start(), actions);
    var p1 := Next(Start(), Receive([b]));
    var p2 := Next(p1, ForwardPass);
    assert p1.stream.received == [b] && Unread(p1.stream) == [b];
    OneChunk(b);
    assert p2.queue == [[b]];
    var p4 := Next(Next(p2, Become(Reset, false)), ForwardPass);
    assert p4.removed && p4.queue == [[b]];
    var p5 := Next(p4, HandlerRead(1));
    assert p5.output == [b] && p5.queue == [] && p5.socket.leftover == [];
    FiveSteps(Start(), actions);
  }

  lemma FiveSteps(p: Pipe, actions: seq<Action>)
    requires |actions| == 5
    ensures Run(p, actions)
         == Next(Next(Next(Next(Next(p, actions[0]), actions[1]), actions[2]), actions[3]), actions[4])
  {
    hide Next;
    assert actions[1..][1..] == actions[2..] && actions[2..][1..] == actions[3..];
    assert actions[3..][1..] == actions[4..] && actions[4..][1..] == [];
    var p1 := Next(p, actions[0]);
    var p2 := Next(p1, actions[1]);
    assert Run(p, actions) == Run(p1, actions[1..]) == Run(p2, actions[2..]);
    var p3 := Next(p2, actions[2]);
    var p4 := Next(p3, actions[3]);
    assert Run(p2, actions[2..]) == Run(p3, actions[3..]) == Run(p4, actions[4..]);
    assert Run(p4, actions[4..]) == Run(Next(p4, actions[4]), []);
  }

  // ---------- the end is reached ----------

  /** A stream is dropped exactly when it was reset, or closed both ways with all its own data sent. */
  lemma DroppedIff(p: Pipe)
    ensures Next(p, ForwardPass).removed
       <==> p.removed || p.stream.state == Reset || (p.stream.state == Closed && p.stream.sendDone)
  {
  }

  /** How many reads a handler needs at most. */
  function Work(p: Pipe): nat { |Left(p)| + |p.queue| }

  function Reads(n: nat, size: nat): seq<Action> { seq(n, _ => HandlerRead(size)) }

  lemma ReadProgress(p: Pipe, size: nat)
    requires Inv(p) && size > 0 && p.eofSent && !p.socket.eof
    ensures var n := Next(p, HandlerRead(size));
      n.eofSent && n.stream == p.stream && (n.socket.eof || Work(n) < Work(p))
  {
    if p.socket.leftover == [] {
      var c := p.queue[0];
      assert Flatten(p.queue) == c + Flatten(p.queue[1..]);
    }
  }

  lemma EofStays(p: Pipe, size: nat)
    requires Inv(p) && p.socket.eof
    ensures Next(p, HandlerRead(size)) == p
  {
    assert p.output + [] == p.output;
  }

  lemma {:induction false} ReadsToTheEnd(p: Pipe, size: nat, n: nat)
    requires Inv(p) && size > 0 && p.eofSent && RemoteDone(p.stream) && (p.socket.eof || n >= Work(p))
    ensures var e := Run(p, Reads(n, size)); e.socket.eof && e.output == p.stream.received
    decreases n
  {
    hide Next, Work, Flatten;
    if p.socket.eof {
      Finished(p);
      if n > 0 {
        EofStays(p, size);
        assert Reads(n, size)[1..] == Reads(n - 1, size);
        ReadsToTheEnd(p, size, n - 1);
      }
    } else {
      SomeWork(p);
      NextKeepsInv(p, HandlerRead(size));
      ReadProgress(p, size);
      assert Reads(n, size)[1..] == Reads(n - 1, size);
      ReadsToTheEnd(Next(p, HandlerRead(size)), size, n - 1);
    }
  }

  lemma SomeWork(p: Pipe)
    requires Inv(p) && p.eofSent && !p.socket.eof
    ensures Work(p) > 0
  {
  }

  lemma Finished(p: Pipe)
    requires Inv(p) && p.socket.eof && RemoteDone(p.stream)
    ensures p.output == p.stream.received
  {
    assert p.output + [] + [] == p.output;
  }

  /**
   A stream the peer has finished reaches its handler to the end: one forwarding pass and enough
   reads of any positive size give it all bytes and then the end of file.
   */
  lemma EndReached(p: Pipe, size: nat)
    requires Inv(p) && !p.removed && size > 0
    requires p.stream.state == HalfClosedRemote || p.stream.state == Closed
    ensures var q := Next(p, ForwardPass);
      var e := Run(q, Reads(Work(q), size));
      e.socket.eof && e.output == p.stream.received
  {
    hide Flatten, Split;
    ForwardKeepsInv(p);
    ReadsToTheEnd(Next(p, ForwardPass), size, Work(Next(p, ForwardPass)));
  }

  /** Of a stream that is reset nothing more is forwarded, whatever it still held. */
  lemma ResetForwardsNothing(p: Pipe)
    requires p.stream.state == Reset
    ensures Next(p, ForwardPass).queue == p.queue && Next(p, ForwardPass).stream == p.stream
  {
    assert Chunks([]) == [];
    assert p.queue + [] == p.queue;
  }
}
