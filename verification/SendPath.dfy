/**
 Filling one outgoing packet: choice of packet number space, new stream data under the
 peer's connection limit, and the queue of lost frames.
 */
module SendPath {
  import opened Bytes

  datatype Frame =
    | Stream(id: nat, offset: nat, data: seq<Byte>, fin: bool)
    | Crypto(cryptoOffset: nat, cryptoData: seq<Byte>)
    | MaxData(limit: nat)
    | MaxStreamData(streamId: nat, streamLimit: nat)
    | Datagram(payload: seq<Byte>)
    | DataBlocked(at: nat)
    | StreamDataBlocked(blockedId: nat, blockedAt: nat)
    | OtherFrame(kind: nat)

  // ---------- one stream's send side ----------

  /** Everything written, how far it has been sent, the peer's limit, and the state of the FIN. */
  datatype SendHalf = SendHalf(id: nat, buffer: seq<Byte>, txOffset: nat, limit: nat, closing: bool, finSent: bool)

  type StreamTx = s: SendHalf | s.txOffset <= |s.buffer| witness SendHalf(0, [], 0, 0, false, false)

  datatype Blocked = NotBlocked | ByStream | ByConnection

  datatype Polled = Polled(stream: StreamTx, data: seq<Byte>, fin: bool, blocked: Blocked)

  function Poll(s: StreamTx, maxLen: nat, available: nat): Polled
  {
    if s.txOffset >= |s.buffer| && (!s.closing || s.finSent) then Polled(s, [], false, NotBlocked)
    else
      var remaining := |s.buffer| - s.txOffset;
      var streamAvailable := if s.limit > s.txOffset then s.limit - s.txOffset else 0;
      var len := Min(Min(maxLen, remaining), Min(streamAvailable, available));
      var blocked :=
        if remaining > 0 && len < remaining
        then (if streamAvailable <= available then ByStream else ByConnection)
        else NotBlocked;
      var tx := s.txOffset + len;
      var fin := s.closing && tx >= |s.buffer| && !s.finSent;
      Polled(s.(txOffset := tx, finSent := s.finSent || fin), s.buffer[s.txOffset..tx], fin, blocked)
  }

  /** What a stream's send side may do: move forward, never past its own limit. */
  predicate Advanced(before: StreamTx, after: StreamTx) {
    && after.id == before.id && after.buffer == before.buffer && after.limit == before.limit
    && before.txOffset <= after.txOffset <= Max(before.txOffset, Min(|before.buffer|, before.limit))
  }

  /** A poll yields the next bytes of the stream, within all three limits. */
  lemma PollWithinLimits(s: StreamTx, maxLen: nat, available: nat)
    ensures var p := Poll(s, maxLen, available);
            && |p.data| <= maxLen && |p.data| <= available
            && Advanced(s, p.stream)
            && p.stream.txOffset == s.txOffset + |p.data|
            && p.data == s.buffer[s.txOffset..p.stream.txOffset]
  {
  }

  // ---------- all streams into one packet ----------

  function StreamBudget(mtu: nat): nat {
    if mtu < 286 then 256 else Min(mtu - 30, 1200)
  }

  datatype Packed = Packed(streams: seq<StreamTx>, frames: seq<Frame>)

  predicate Emits(p: Polled) { |p.data| > 0 || p.fin }

  function FramesOf(s: StreamTx, p: Polled, maxRemote: nat): seq<Frame> {
    (if Emits(p) then [Stream(s.id, s.txOffset, p.data, p.fin)] else [])
    + (if p.blocked == ByConnection then [DataBlocked(maxRemote)]
       else if p.blocked == ByStream then [StreamDataBlocked(s.id, s.limit)]
       else [])
  }

  function Pack(streams: seq<StreamTx>, budget: int, available: nat, maxRemote: nat): Packed
    decreases |streams|
  {
    if streams == [] || budget <= 0 then Packed(streams, [])
    else
      var s := streams[0];
      PollWithinLimits(s, Min(budget, 1200), available);
      var p := Poll(s, Min(budget, 1200), available);
      var rest := Pack(streams[1..], BudgetAfter(budget, p), available - |p.data|, maxRemote);
      Packed([p.stream] + rest.streams, FramesOf(s, p, maxRemote) + rest.frames)
  }

  function DataBytes(f: Frame): nat { if f.Stream? then |f.data| else 0 }

  /** New stream bytes carried by a list of frames. */
  function StreamBytes(frames: seq<Frame>): nat { Sum(DataBytes, frames) }

  lemma NoBytes()
    ensures StreamBytes([]) == 0
  {
  }

  lemma FramesOfBytes(s: StreamTx, p: Polled, maxRemote: nat)
    ensures StreamBytes(FramesOf(s, p, maxRemote)) == |p.data|
  {
    var first := if Emits(p) then [Stream(s.id, s.txOffset, p.data, p.fin)] else [];
    var second := FramesOf(s, p, maxRemote)[|first|..];
    assert FramesOf(s, p, maxRemote) == first + second;
    SumAppend(DataBytes, first, second);
    assert StreamBytes(first) == |p.data|;
    assert StreamBytes(second) == 0;
  }

  function BudgetAfter(budget: int, p: Polled): int {
    if Emits(p) then budget - (|p.data| + 10) else budget
  }

  /** One step of packing: what the first stream contributes, and what is left for the others. */
  lemma PackCons(streams: seq<StreamTx>, budget: int, available: nat, maxRemote: nat) returns (p: Polled, rest: Packed)
    requires streams != [] && budget > 0
    ensures p == Poll(streams[0], Min(budget, 1200), available)
    ensures |p.data| <= available && |p.data| <= budget && Advanced(streams[0], p.stream)
    ensures rest == Pack(streams[1..], BudgetAfter(budget, p), available - |p.data|, maxRemote)
    ensures Pack(streams, budget, available, maxRemote)
         == Packed([p.stream] + rest.streams, FramesOf(streams[0], p, maxRemote) + rest.frames)
    ensures StreamBytes(Pack(streams, budget, available, maxRemote).frames) == |p.data| + StreamBytes(rest.frames)
  {
    PollWithinLimits(streams[0], Min(budget, 1200), available);
    p := Poll(streams[0], Min(budget, 1200), available);
    rest := Pack(streams[1..], BudgetAfter(budget, p), available - |p.data|, maxRemote);
    FramesOfBytes(streams[0], p, maxRemote);
    SumAppend(DataBytes, FramesOf(streams[0], p, maxRemote), rest.frames);
  }

  /** Counted against both the connection window and the packet budget. */
  predicate Within(n: nat, budget: int, available: int) { n <= available && n <= Max(budget, 0) }

  lemma WithinStep(p: Polled, n: nat, budget: int, available: int)
    requires |p.data| <= available && |p.data| <= budget
    requires Within(n, BudgetAfter(budget, p), available - |p.data|)
    ensures Within(|p.data| + n, budget, available)
  {
  }

  lemma NothingPacked(streams: seq<StreamTx>, budget: int, available: nat, maxRemote: nat)
    requires streams == [] || budget <= 0
    ensures Pack(streams, budget, available, maxRemote) == Packed(streams, [])
  {
  }

  /**
   However many streams compete, a packet's new stream data stays within the connection
   window and within the byte budget of the packet.
   */
  lemma {:induction false} PackWithinLimits(streams: seq<StreamTx>, budget: int, available: nat, maxRemote: nat)
    ensures Within(StreamBytes(Pack(streams, budget, available, maxRemote).frames), budget, available)
    decreases |streams|
  {
    hide Poll, FramesOf, BudgetAfter;
    if streams != [] && budget > 0 {
      var p, rest := PackCons(streams, budget, available, maxRemote);
      PackWithinLimits(streams[1..], BudgetAfter(budget, p), available - |p.data|, maxRemote);
      WithinStep(p, StreamBytes(rest.frames), budget, available);
    } else {
      NothingPacked(streams, budget, available, maxRemote);
    }
  }

  predicate AllAdvanced(before: seq<StreamTx>, after: seq<StreamTx>) {
    |after| == |before| && forall i :: 0 <= i < |before| ==> Advanced(before[i], after[i])
  }

  lemma AdvancedCons(s: StreamTx, t: StreamTx, before: seq<StreamTx>, after: seq<StreamTx>)
    requires Advanced(s, t) && AllAdvanced(before, after)
    ensures AllAdvanced([s] + before, [t] + after)
  {
  }

  /** Packing only moves each stream's send position forward, never past its own limit. */
  lemma {:induction false} PackAdvances(streams: seq<StreamTx>, budget: int, available: nat, maxRemote: nat)
    ensures AllAdvanced(streams, Pack(streams, budget, available, maxRemote).streams)
    decreases |streams|
  {
    hide Poll, FramesOf, BudgetAfter, StreamBytes;
    if streams != [] && budget > 0 {
      var p, rest := PackCons(streams, budget, available, maxRemote);
      PackAdvances(streams[1..], BudgetAfter(budget, p), available - |p.data|, maxRemote);
      AdvancedCons(streams[0], p.stream, streams[1..], rest.streams);
      assert [streams[0]] + streams[1..] == streams;
    }
  }

  // ---------- lost frames ----------

  /** A lost frame and the packet number space id (0 Initial, 1 Handshake, 2 application) it was sent in. */
  datatype Lost = Lost(space: nat, frame: Frame)

  datatype SentPacket = SentPacket(space: nat, frames: seq<Frame>)

  predicate Retransmittable(f: Frame) {
    f.Stream? || f.Crypto? || f.MaxData? || f.MaxStreamData? || f.Datagram?
  }

  /** The frames of a packet, each with the space id of the packet. */
  function FramesIn(p: SentPacket): seq<Lost> {
    seq(|p.frames|, i requires 0 <= i < |p.frames| => Lost(p.space, p.frames[i]))
  }

  function AllFrames(packets: seq<SentPacket>): seq<Lost> { FlatMap(FramesIn, packets) }

  function QueuedOf(l: Lost): seq<Lost> { if Retransmittable(l.frame) then [l] else [] }

  /** What a list of lost packets adds to the queue. */
  function LostOfAll(packets: seq<SentPacket>): seq<Lost> { FlatMap(QueuedOf, AllFrames(packets)) }

  /** What has to be sent again. */
  function WantedOf(l: Lost): seq<Lost> {
    match l.frame
    case Stream(_, _, _, _) => [l]
    case Crypto(_, _) => [l]
    case MaxData(_) => [l]
    case MaxStreamData(_, _) => [l]
    case Datagram(_) => [l]
    case _ => []
  }

  function Wanted(frames: seq<Lost>): seq<Lost> { FlatMap(WantedOf, frames) }

  lemma {:induction false} QueuedIsWanted(frames: seq<Lost>)
    ensures FlatMap(QueuedOf, frames) == Wanted(frames)
    decreases |frames|
  {
    if frames != [] {
      QueuedIsWanted(frames[1..]);
    }
  }

  /**
   A frame of a lost packet is queued under that packet's space id, as often as it occurred, if
   and only if it is of one of these five kinds.
   */
  lemma QueuedAsOften(packets: seq<SentPacket>, space: nat, f: Frame)
    ensures multiset(LostOfAll(packets))[Lost(space, f)]
      == if f.Stream? || f.Crypto? || f.MaxData? || f.MaxStreamData? || f.Datagram?
         then multiset(AllFrames(packets))[Lost(space, f)] else 0
  {
    QueuedCount(AllFrames(packets), Lost(space, f));
  }

  lemma {:induction false} QueuedCount(frames: seq<Lost>, l: Lost)
    ensures multiset(FlatMap(QueuedOf, frames))[l] == if Retransmittable(l.frame) then multiset(frames)[l] else 0
    decreases |frames|
  {
    if frames != [] {
      QueuedCount(frames[1..], l);
      assert frames == [frames[0]] + frames[1..];
      assert multiset(FlatMap(QueuedOf, frames))
        == multiset(QueuedOf(frames[0])) + multiset(FlatMap(QueuedOf, frames[1..]));
    }
  }

  function InSpace(space: nat): Lost -> seq<Lost> { (l: Lost) => if l.space == space then [l] else [] }

  /** The frames of one space, in order. */
  function OfSpace(q: seq<Lost>, space: nat): seq<Lost> { FlatMap(InSpace(space), q) }

  /** Frames whose space still has send keys, and frames whose space has none. */
  function Kept(q: seq<Lost>, keys: set<nat>): seq<Lost> {
    if q == [] then [] else (if q[0].space in keys then [q[0]] else []) + Kept(q[1..], keys)
  }

  function Gone(q: seq<Lost>, keys: set<nat>): seq<Lost> {
    if q == [] then [] else (if q[0].space in keys then [] else [q[0]]) + Gone(q[1..], keys)
  }

  lemma {:induction false} PurgeSplitsSpaces(q: seq<Lost>, keys: set<nat>, space: nat)
    ensures OfSpace(Gone(q, keys), space) == if space in keys then [] else OfSpace(q, space)
    ensures OfSpace(Kept(q, keys), space) == if space in keys then OfSpace(q, space) else []
    decreases |q|
  {
    if q != [] {
      PurgeSplitsSpaces(q[1..], keys, space);
      var head := if q[0].space in keys then [q[0]] else [];
      var other := if q[0].space in keys then [] else [q[0]];
      FlatMapAppend(InSpace(space), head, Kept(q[1..], keys));
      FlatMapAppend(InSpace(space), other, Gone(q[1..], keys));
      assert OfSpace([q[0]], space) == (if q[0].space == space then [q[0]] else []) by {
        assert OfSpace([q[0]][1..], space) == [];
      }
    }
  }

  lemma {:induction false} GoneHasNoKeys(q: seq<Lost>, keys: set<nat>)
    ensures forall l :: l in Gone(q, keys) ==> l.space !in keys
    ensures forall l :: l in Kept(q, keys) ==> l.space in keys
    decreases |q|
  {
    if q != [] {
      GoneHasNoKeys(q[1..], keys);
    }
  }

  // ---------- one call of send ----------

  datatype Chosen = InitialSpace | HandshakeSpace | AppSpace | ZeroRttSpace

  /** 0-RTT packets share the application space's id. */
  function SpaceId(c: Chosen): nat {
    if c == InitialSpace then 0 else if c == HandshakeSpace then 1 else 2
  }

  function SpaceForId(id: nat): Chosen {
    if id == 0 then InitialSpace else if id == 1 then HandshakeSpace else AppSpace
  }

  /** Everything else the call depends on, free to be anything at every call. */
  datatype Env = Env(
    keys: set<nat>,                 // space ids with send keys
    zeroRttKeys: bool, handshakeComplete: bool,
    closed: bool, closeSent: bool,
    tls: set<nat>, acks: set<nat>,  // spaces with TLS output pending, with an ACK due
    canSend: bool, mtu: nat,        // congestion control, path MTU
    otherFrames: bool,              // ACK, CRYPTO, padding or control frames go into the packet
    withheld: bool,                 // congestion or amplification limit ends the call at once
    idle: bool,                     // nothing to send, or no connection id yet
    initialMaxData: Option<nat>)    // remote transport parameters, once known

  datatype State = State(lost: seq<Lost>, maxRemote: nat, tpApplied: bool, dataSent: nat, streams: seq<StreamTx>)

  /** How a frame left the queue: in a packet of some space, or because its space had no send keys. */
  datatype Exit = Resent(lost: Lost, under: nat) | KeysGone(lost: Lost, keys: set<nat>)

  datatype Packet = Packet(space: nat, newFrames: seq<Frame>, resent: Option<Frame>)

  datatype Sent = Sent(state: State, packet: Option<Packet>, exits: seq<Exit>)

  function Fallback(env: Env): Chosen { if 2 in env.keys then AppSpace else InitialSpace }

  predicate TlsPending(env: Env) { 0 in env.tls || 1 in env.tls || 2 in env.tls }

  /** Only this branch looks at the lost frames, and only it discards those without keys. */
  predicate ConsultsLost(env: Env, q: seq<Lost>) {
    && !TlsPending(env) && 0 !in env.acks && 1 !in env.acks
    && (env.closed ==> env.closeSent)
    && (env.zeroRttKeys ==> env.handshakeComplete)
    && q != []
  }

  function Choose(env: Env, q: seq<Lost>): Chosen {
    if 0 in env.tls then InitialSpace
    else if 1 in env.tls then HandshakeSpace
    else if 2 in env.tls then AppSpace
    else if 0 in env.acks then InitialSpace
    else if 1 in env.acks then HandshakeSpace
    else if env.closed && !env.closeSent then
      (if 2 in env.keys then AppSpace else if 1 in env.keys then HandshakeSpace else InitialSpace)
    else if env.zeroRttKeys && !env.handshakeComplete then ZeroRttSpace
    else if q != [] then
      (if Kept(q, env.keys) == [] then Fallback(env) else SpaceForId(Kept(q, env.keys)[0].space))
    else Fallback(env)
  }

  /** Transport parameters are applied once, and replace the limit rather than raise it. */
  function ApplyParameters(s: State, env: Env): State {
    if s.tpApplied || env.initialMaxData.None? then s
    else s.(maxRemote := env.initialMaxData.value, tpApplied := true)
  }

  predicate Sealable(c: Chosen, env: Env) {
    if c == ZeroRttSpace then env.zeroRttKeys else SpaceId(c) in env.keys
  }

  function Window(s: State): nat { if s.maxRemote > s.dataSent then s.maxRemote - s.dataSent else 0 }

  /** New stream data goes only into 1-RTT or 0-RTT packets without TLS data. */
  predicate Packs(env: Env, c: Chosen) {
    (c == AppSpace || c == ZeroRttSpace) && env.canSend && !TlsPending(env)
  }

  function Fill(s: State, env: Env, c: Chosen): Packed
  {
    if Packs(env, c)
    then Pack(s.streams, StreamBudget(env.mtu), Window(s), s.maxRemote)
    else Packed(s.streams, [])
  }

  function AsGone(q: seq<Lost>, keys: set<nat>): seq<Exit> {
    if q == [] then [] else [KeysGone(q[0], keys)] + AsGone(q[1..], keys)
  }

  /** At most the first lost frame, and only into a packet of its own space id. */
  predicate TakesLost(q: seq<Lost>, c: Chosen) { q != [] && q[0].space == SpaceId(c) }

  /** What is left of the queue, and what left it, when the call reaches the packet being built. */
  function Purge(s: State, env: Env): (seq<Lost>, seq<Exit>) {
    if ConsultsLost(env, s.lost)
    then (Kept(s.lost, env.keys), AsGone(Gone(s.lost, env.keys), env.keys))
    else (s.lost, [])
  }

  /**
   Building the packet.  A packet without any frame is not sent.  Without keys for the chosen
   space sealing raises, after the queue has been shifted and stream data charged.
   */
  function Build(s: State, env: Env, c: Chosen): Sent {
    var packed := Fill(s, env, c);
    var takes := TakesLost(s.lost, c);
    var next := s.(lost := if takes then s.lost[1..] else s.lost,
                   streams := packed.streams,
                   dataSent := s.dataSent + StreamBytes(packed.frames));
    if packed.frames == [] && !takes && !env.otherFrames then Sent(next, None, [])
    else if !Sealable(c, env)
    then Sent(next, None, if takes then [KeysGone(s.lost[0], env.keys)] else [])
    else Sent(next,
              Some(Packet(SpaceId(c), packed.frames, if takes then Some(s.lost[0].frame) else None)),
              if takes then [Resent(s.lost[0], SpaceId(c))] else [])
  }

  function SendOne(s0: State, env: Env): Sent {
    var s := ApplyParameters(s0, env);
    if (env.closed && env.closeSent) || env.withheld then Sent(s, None, [])
    else
      var (q, purged) := Purge(s, env);
      var kept := s.(lost := q);
      if env.idle then Sent(kept, None, purged)
      else
        var built := Build(kept, env, Choose(env, s.lost));
        built.(exits := purged + built.exits)
  }

  lemma NothingWanted()
    ensures Wanted([]) == [] && AllFrames([]) == []
  {
  }

  lemma WantedSnoc(packets: seq<SentPacket>, i: nat)
    requires i < |packets|
    ensures Wanted(AllFrames(packets[..i + 1])) == Wanted(AllFrames(packets[..i])) + Wanted(FramesIn(packets[i]))
  {
    hide FlatMap;
    assert packets[..i + 1] == packets[..i] + [packets[i]];
    FlatMapAppend(FramesIn, packets[..i], [packets[i]]);
    FlatMapOne(FramesIn, packets[i]);
    FlatMapAppend(WantedOf, AllFrames(packets[..i]), FramesIn(packets[i]));
  }

  class Connection {
    var lostFrames: seq<Lost>
    var maxDataRemote: nat
    var remoteTpApplied: bool
    var dataSent: nat
    var streams: seq<StreamTx>

    ghost function Value(): State
      reads this
    {
      State(lostFrames, maxDataRemote, remoteTpApplied, dataSent, streams)
    }

    constructor ()
      ensures Value() == State([], 0, false, 0, [])
    {
      lostFrames, maxDataRemote, remoteTpApplied, dataSent, streams := [], 0, false, 0, [];
    }

    method QueueLostFrames(packets: seq<SentPacket>)
      modifies this
      ensures Value() == old(Value()).(lost := old(lostFrames) + Wanted(AllFrames(packets)))
    {
      hide FlatMap, WantedOf;
      var i := 0;
      assert packets[..0] == [];
      NothingWanted();
      assert lostFrames + [] == lostFrames;
      while i < |packets|
        invariant 0 <= i <= |packets|
        invariant lostFrames == old(lostFrames) + Wanted(AllFrames(packets[..i]))
        invariant Value() == old(Value()).(lost := lostFrames)
      {
        WantedSnoc(packets, i);
        ghost var so := Wanted(AllFrames(packets[..i]));
        Assoc(old(lostFrames), so, Wanted(FramesIn(packets[i])));
        QueueFramesOf(packets[i]);
        i := i + 1;
      }
      assert packets[..i] == packets;
    }

    method QueueFramesOf(p: SentPacket)
      modifies this
      ensures Value() == old(Value()).(lost := old(lostFrames) + Wanted(FramesIn(p)))
    {
      hide FlatMap;
      ghost var all := FramesIn(p);
      NothingWanted();
      assert all[..0] == [] && lostFrames + [] == lostFrames;
      for i := 0 to |p.frames|
        invariant lostFrames == old(lostFrames) + Wanted(all[..i])
        invariant Value() == old(Value()).(lost := lostFrames)
      {
        var f := p.frames[i];
        assert all[..i + 1] == all[..i] + [all[i]];
        FlatMapAppend(WantedOf, all[..i], [all[i]]);
        FlatMapOne(WantedOf, all[i]);
        Assoc(old(lostFrames), Wanted(all[..i]), WantedOf(all[i]));
        assert lostFrames + [] == lostFrames;
        if f.Stream? || f.Crypto? || f.MaxData? || f.MaxStreamData? || f.Datagram? {
          lostFrames := lostFrames + [Lost(p.space, f)];
        }
      }
      assert all[..|p.frames|] == all;
    }

    method OnMaxData(limit: nat)
      modifies this
      ensures Value() == old(Value()).(maxRemote := Max(old(maxDataRemote), limit))
    {
      maxDataRemote := Max(maxDataRemote, limit);
    }

    /** New stream data is charged to the connection as it is packed. */
    method PackStreams(mtu: nat) returns (frames: seq<Frame>)
      modifies this
      ensures var p := Pack(old(streams), StreamBudget(mtu), old(Window(Value())), maxDataRemote);
              && frames == p.frames
              && Value() == old(Value()).(streams := p.streams, dataSent := old(dataSent) + StreamBytes(p.frames))
    {
      hide Pack, StreamBytes, StreamBudget;
      var available := if maxDataRemote > dataSent then maxDataRemote - dataSent else 0;
      var charged;
      streams, frames, charged := FillPacket(streams, StreamBudget(mtu), available, maxDataRemote);
      dataSent := dataSent + charged;
    }

    /** One call of send, as far as lost frames and new stream data are concerned. */
    method Send(env: Env) returns (packet: Option<Packet>, ghost exits: seq<Exit>)
      modifies this
      ensures Sent(Value(), packet, exits) == SendOne(old(Value()), env)
    {
      packet, exits := None, [];
      if !remoteTpApplied && env.initialMaxData.Some? {
        maxDataRemote, remoteTpApplied := env.initialMaxData.value, true;
      }
      if (env.closed && env.closeSent) || env.withheld {
        return;
      }
      var c := Choose(env, lostFrames);
      if ConsultsLost(env, lostFrames) {
        exits := AsGone(Gone(lostFrames, env.keys), env.keys);
        lostFrames := Kept(lostFrames, env.keys);
      }
      if env.idle {
        return;
      }
      ghost var purged := exits;
      packet, exits := BuildPacket(env, c);
      exits := purged + exits;
    }

    method FillStreams(env: Env, c: Chosen) returns (frames: seq<Frame>)
      modifies this
      ensures var p := Fill(old(Value()), env, c);
              && frames == p.frames
              && Value() == old(Value()).(streams := p.streams, dataSent := old(dataSent) + StreamBytes(p.frames))
    {
      hide Pack, StreamBudget, Sum;
      frames := [];
      NoBytes();
      if (c == AppSpace || c == ZeroRttSpace) && env.canSend && !TlsPending(env) {
        frames := PackStreams(env.mtu);
      }
    }

    method BuildPacket(env: Env, c: Chosen) returns (packet: Option<Packet>, ghost exits: seq<Exit>)
      modifies this
      ensures Sent(Value(), packet, exits) == Build(old(Value()), env, c)
    {
      hide Fill, StreamBytes, Sealable, SpaceId;
      packet := None;
      var frames := FillStreams(env, c);
      var resent;
      resent, exits := TakeLost(env, c);
      if frames == [] && resent.None? && !env.otherFrames {
        return;
      }
      if Sealable(c, env) {
        packet := Some(Packet(SpaceId(c), frames, resent));
      }
    }

    /** One lost frame of the packet's own space goes along, if it is next in the queue. */
    method TakeLost(env: Env, c: Chosen) returns (resent: Option<Frame>, ghost exits: seq<Exit>)
      modifies this`lostFrames
      ensures var taken := TakesLost(old(lostFrames), c);
        && lostFrames == (if taken then old(lostFrames)[1..] else old(lostFrames))
        && resent == (if taken then Some(old(lostFrames)[0].frame) else None)
        && exits == (if !taken then []
                     else if Sealable(c, env) then [Resent(old(lostFrames)[0], SpaceId(c))]
                     else [KeysGone(old(lostFrames)[0], env.keys)])
    {
      resent, exits := None, [];
      if lostFrames != [] && lostFrames[0].space == SpaceId(c) {
        exits := if Sealable(c, env) then [Resent(lostFrames[0], SpaceId(c))] else [KeysGone(lostFrames[0], env.keys)];
        resent := Some(lostFrames[0].frame);
        lostFrames := lostFrames[1..];
      }
    }
  }

  /** The loop over streams that fills a packet with new data. */
  method FillPacket(streams: seq<StreamTx>, start: int, window: nat, maxRemote: nat)
    returns (done: seq<StreamTx>, frames: seq<Frame>, charged: nat)
    ensures Packed(done, frames) == Pack(streams, start, window, maxRemote)
    ensures charged == StreamBytes(frames)
  {
    hide Pack, Poll, FramesOf, Behind, BudgetAfter, Sum;
    var budget, available, todo := start, window, streams;
    done, frames, charged := [], [], 0;
    ghost var whole := Pack(streams, start, window, maxRemote);
    PackOnStart(streams, start, window, maxRemote);
    while todo != [] && budget > 0
      invariant 0 <= available
      invariant PackOn(done, frames, todo, budget, available, maxRemote) == whole
      invariant charged == StreamBytes(frames)
      decreases |todo|
    {
      PackOnStep(done, frames, todo, budget, available, maxRemote);
      var p := Poll(todo[0], Min(budget, 1200), available);
      var more := FramesOf(todo[0], p, maxRemote);
      FramesOfBytes(todo[0], p, maxRemote);
      SumAppend(DataBytes, frames, more);
      done, frames, charged := done + [p.stream], frames + more, charged + |p.data|;
      available, budget, todo := available - |p.data|, BudgetAfter(budget, p), todo[1..];
    }
    PackOnEnd(done, frames, todo, budget, available, maxRemote);
    done := done + todo;
  }

  /** Packing from the middle, behind what has been packed so far. */
  function PackOn(
    done: seq<StreamTx>, frames: seq<Frame>, todo: seq<StreamTx>,
    budget: int, available: nat, maxRemote: nat): Packed
  {
    Behind(done, frames, Pack(todo, budget, available, maxRemote))
  }

  function Behind(done: seq<StreamTx>, frames: seq<Frame>, p: Packed): Packed {
    Packed(done + p.streams, frames + p.frames)
  }

  lemma BehindAssoc(done: seq<StreamTx>, frames: seq<Frame>, s: StreamTx, fs: seq<Frame>, p: Packed)
    ensures Behind(done, frames, Packed([s] + p.streams, fs + p.frames)) == Behind(done + [s], frames + fs, p)
  {
    assert done + ([s] + p.streams) == done + [s] + p.streams;
    assert frames + (fs + p.frames) == frames + fs + p.frames;
  }

  lemma PackOnStart(streams: seq<StreamTx>, budget: int, available: nat, maxRemote: nat)
    ensures PackOn([], [], streams, budget, available, maxRemote) == Pack(streams, budget, available, maxRemote)
    ensures StreamBytes([]) == 0
  {
    var whole := Pack(streams, budget, available, maxRemote);
    assert [] + whole.streams == whole.streams && [] + whole.frames == whole.frames;
  }

  lemma PackOnEnd(
      done: seq<StreamTx>, frames: seq<Frame>, todo: seq<StreamTx>, budget: int, available: nat, maxRemote: nat)
    requires todo == [] || budget <= 0
    ensures PackOn(done, frames, todo, budget, available, maxRemote) == Packed(done + todo, frames)
  {
    assert frames + [] == frames;
  }

  lemma PackOnStep(
      done: seq<StreamTx>, frames: seq<Frame>, todo: seq<StreamTx>, budget: int, available: nat, maxRemote: nat)
    requires todo != [] && budget > 0
    ensures var p := Poll(todo[0], Min(budget, 1200), available);
            && |p.data| <= available
            && PackOn(done, frames, todo, budget, available, maxRemote)
               == PackOn(done + [p.stream], frames + FramesOf(todo[0], p, maxRemote), todo[1..],
                         BudgetAfter(budget, p), available - |p.data|, maxRemote)
  {
    hide Pack, Poll, FramesOf, Behind, BudgetAfter, StreamBytes;
    var p, rest := PackCons(todo, budget, available, maxRemote);
    BehindAssoc(done, frames, p.stream, FramesOf(todo[0], p, maxRemote), rest);
  }

  // ---------- whole runs ----------

  /** The state, all frames of lost packets, all that left the queue, all packets, the largest limit advertised. */
  datatype History = History(state: State, ever: seq<Lost>, exits: seq<Exit>, packets: seq<Packet>, advertised: nat)

  datatype Action =
    | Lose(packets: seq<SentPacket>)
    | PeerMaxData(limit: nat)
    | SendCall(env: Env)
    | Application(streams: seq<StreamTx>)   // writes, closes and stream limits change the streams at will

  const FRESH := History(State([], 0, false, 0, []), [], [], [], 0)

  function Advertised(h: History, env: Env): nat {
    if h.state.tpApplied || env.initialMaxData.None? then h.advertised
    else Max(h.advertised, env.initialMaxData.value)
  }

  function Step(h: History, a: Action): History {
    match a
    case Lose(packets) =>
      h.(state := h.state.(lost := h.state.lost + LostOfAll(packets)), ever := h.ever + AllFrames(packets))
    case PeerMaxData(limit) =>
      h.(state := h.state.(maxRemote := Max(h.state.maxRemote, limit)), advertised := Max(h.advertised, limit))
    case SendCall(env) =>
      var r := SendOne(h.state, env);
      h.(state := r.state, exits := h.exits + r.exits,
         packets := h.packets + PacketsOf(r),
         advertised := Advertised(h, env))
    case Application(streams) => h.(state := h.state.(streams := streams))
  }

  function Run(h: History, actions: seq<Action>): History
    decreases |actions|
  {
    if actions == [] then h else Run(Step(h, actions[0]), actions[1..])
  }

  // ---- flow control ----

  function NewBytes(p: Packet): nat { StreamBytes(p.newFrames) }

  function WireBytes(packets: seq<Packet>): nat { Sum(NewBytes, packets) }

  ghost predicate WithinCredit(h: History) {
    h.state.maxRemote <= h.advertised && h.state.dataSent <= h.advertised && WireBytes(h.packets) <= h.state.dataSent
  }

  /** New stream data of one call: within the window and the packet budget; lost frames are free. */
  lemma BuildWithinLimits(s: State, env: Env, c: Chosen)
    ensures var r := Build(s, env, c);
            && r.state.maxRemote == s.maxRemote
            && s.dataSent <= r.state.dataSent <= s.dataSent + Window(s)
            && (r.packet.Some? ==>
                  && StreamBytes(r.packet.value.newFrames) == r.state.dataSent - s.dataSent
                  && StreamBytes(r.packet.value.newFrames) <= StreamBudget(env.mtu))
  {
    hide Pack, Sum, StreamBudget, Window;
    NoBytes();
    PackWithinLimits(s.streams, StreamBudget(env.mtu), Window(s), s.maxRemote);
  }

  // ---- the byte budget of one packet ----

  /** All stream bytes of the packet a call sends, new and re-sent. */
  function PacketBytes(r: Sent): nat {
    if r.packet.None? then 0
    else
      var p := r.packet.value;
      StreamBytes(p.newFrames) + if p.resent.Some? then DataBytes(p.resent.value) else 0
  }

  /** The stream bytes of the lost frame that goes along. */
  function LostBytes(q: seq<Lost>, c: Chosen): nat { if TakesLost(q, c) then DataBytes(q[0].frame) else 0 }

  /** One stream with exactly `n` bytes to send and leave to send them. */
  function Full(n: nat): StreamTx { SendHalf(0, seq(n, _ => 0), 0, n, false, false) }

  lemma FullIsPacked(n: nat, budget: int, available: nat, maxRemote: nat)
    requires 0 < n <= budget <= 1200 && n <= available
    ensures StreamBytes(Pack([Full(n)], budget, available, maxRemote).frames) == n
  {
    var p, rest := PackCons([Full(n)], budget, available, maxRemote);
    assert |p.data| == n;
    NothingPacked([], BudgetAfter(budget, p), available - |p.data|, maxRemote);
    assert [Full(n)][1..] == [];
  }

  /** How many new bytes there may be at most. */
  function MostNew(s: State, env: Env, c: Chosen): nat {
    if Packs(env, c) then Min(StreamBudget(env.mtu), Window(s)) else 0
  }

  lemma MostNewIsReached(s: State, env: Env, c: Chosen) returns (streams: seq<StreamTx>)
    ensures StreamBytes(Fill(s.(streams := streams), env, c).frames) == MostNew(s, env, c)
  {
    var n := MostNew(s, env, c);
    streams := if n == 0 then [] else [Full(n)];
    if n > 0 {
      FullIsPacked(n, StreamBudget(env.mtu), Window(s), s.maxRemote);
    }
  }

  lemma NewAtMost(s: State, env: Env, c: Chosen)
    ensures StreamBytes(Fill(s, env, c).frames) <= MostNew(s, env, c)
  {
    hide Pack;
    PackWithinLimits(s.streams, StreamBudget(env.mtu), Window(s), s.maxRemote);
  }

  lemma BuiltBytes(s: State, env: Env, c: Chosen)
    requires Sealable(c, env)
    ensures PacketBytes(Build(s, env, c)) == StreamBytes(Fill(s, env, c).frames) + LostBytes(s.lost, c)
  {
    hide Fill;
  }

  /**
   The budget is meant for all stream frames of a packet, but the lost frame is not counted:
   whatever the streams hold, the packet stays within it if and only if the lost frame leaves
   room for all the new data that window and budget allow.
   */
  lemma PacketWithinBudgetIff(s: State, env: Env, c: Chosen)
    requires Sealable(c, env)
    ensures (forall streams: seq<StreamTx> {:trigger Build(s.(streams := streams), env, c)} ::
               PacketBytes(Build(s.(streams := streams), env, c)) <= StreamBudget(env.mtu))
       <==> LostBytes(s.lost, c) + MostNew(s, env, c) <= StreamBudget(env.mtu)
  {
    hide Build, Fill, PacketBytes;
    forall streams: seq<StreamTx>
      ensures PacketBytes(Build(s.(streams := streams), env, c)) <= LostBytes(s.lost, c) + MostNew(s, env, c)
    {
      NewAtMost(s.(streams := streams), env, c);
      BuiltBytes(s.(streams := streams), env, c);
    }
    var worst := MostNewIsReached(s, env, c);
    BuiltBytes(s.(streams := worst), env, c);
  }

  /** The call reaches the point where a packet is sealed. */
  predicate Builds(s: State, env: Env) {
    && !(env.closed && env.closeSent) && !env.withheld && !env.idle && Sealable(Choose(env, s.lost), env)
  }

  /** The same for a whole call of send, with the queue as it is after the purge. */
  lemma SendWithinBudgetIff(s0: State, env: Env)
    requires Builds(s0, env)
    ensures var s := ApplyParameters(s0, env);
      var q, c := Purge(s, env).0, Choose(env, s.lost);
      (forall streams: seq<StreamTx> {:trigger SendOne(s0.(streams := streams), env)} ::
         PacketBytes(SendOne(s0.(streams := streams), env)) <= StreamBudget(env.mtu))
      <==> LostBytes(q, c) + MostNew(s, env, c) <= StreamBudget(env.mtu)
  {
    hide Build, Choose, Purge, Window, StreamBudget;
    var s := ApplyParameters(s0, env);
    var kept, c := s.(lost := Purge(s, env).0), Choose(env, s.lost);
    PacketWithinBudgetIff(kept, env, c);
    forall streams: seq<StreamTx>
      ensures PacketBytes(SendOne(s0.(streams := streams), env))
           == PacketBytes(Build(kept.(streams := streams), env, c))
    {
      PurgeIgnoresStreams(s, env, streams);
    }
    SameWindow(s, kept);
  }

  lemma SameWindow(a: State, b: State)
    requires a.maxRemote == b.maxRemote && a.dataSent == b.dataSent
    ensures Window(a) == Window(b)
  {
  }

  lemma PurgeIgnoresStreams(s: State, env: Env, streams: seq<StreamTx>)
    ensures Purge(s.(streams := streams), env) == Purge(s, env)
  {
  }

  /** 1170 new and 1170 re-sent bytes in one packet that has a budget of 1170. */
  lemma PacketOverBudget(env: Env, data: seq<Byte>)
    requires env == Env({2}, false, true, false, false, {}, {}, true, 1200, false, false, false, Some(1_000_000))
    requires |data| == 1170
    ensures var s := State([Lost(2, Stream(4, 0, data, false))], 1_000_000, true, 0, [Full(1170)]);
      StreamBudget(env.mtu) == 1170 && PacketBytes(SendOne(s, env)) == 2340
  {
    hide Pack, StreamBytes;
    var l := Lost(2, Stream(4, 0, data, false));
    var s := State([l], 1_000_000, true, 0, [Full(1170)]);
    assert Kept([l], env.keys) == [l] by {
      assert [l][1..] == [];
    }
    FullIsPacked(1170, 1170, 1_000_000, 1_000_000);
    BuiltBytes(s, env, AppSpace);
  }

  lemma SendKeepsCredit(h: History, env: Env)
    requires WithinCredit(h)
    ensures WithinCredit(Step(h, SendCall(env)))
    ensures var r := SendOne(h.state, env);
            r.packet.Some? ==> StreamBytes(r.packet.value.newFrames) <= StreamBudget(env.mtu)
  {
    var s := ApplyParameters(h.state, env);
    BuildWithinLimits(s.(lost := Purge(s, env).0), env, Choose(env, s.lost));
    var r := SendOne(h.state, env);
    if r.packet.Some? {
      SumAppend(NewBytes, h.packets, [r.packet.value]);
      SumOne(NewBytes, r.packet.value);
    } else {
      assert h.packets + [] == h.packets;
    }
  }

  /**
   In every run, in whatever order transport parameters and MAX_DATA frames take effect: the
   new stream bytes put on the wire never exceed the largest connection limit advertised.
   */
  lemma {:induction false} NeverOverConnectionLimit(h: History, actions: seq<Action>)
    requires WithinCredit(h)
    ensures WithinCredit(Run(h, actions))
    ensures WireBytes(Run(h, actions).packets) <= Run(h, actions).advertised
    decreases |actions|
  {
    if actions != [] {
      if actions[0].SendCall? {
        SendKeepsCredit(h, actions[0].env);
      }
      NeverOverConnectionLimit(Step(h, actions[0]), actions[1..]);
    }
  }

  // ---- lost frames ----

  function ExitOf(e: Exit): seq<Lost> { [e.lost] }

  function LostIn(exits: seq<Exit>): seq<Lost> { FlatMap(ExitOf, exits) }

  /** A frame leaves only in a packet of its own space, or when its space has no keys. */
  predicate Justified(e: Exit) {
    match e
    case Resent(l, under) => under == l.space
    case KeysGone(l, keys) => l.space !in keys
  }

  predicate AllJustified(exits: seq<Exit>) { forall e :: e in exits ==> Justified(e) }

  function CarriedBy(p: Packet): seq<Lost> { if p.resent.Some? then [Lost(p.space, p.resent.value)] else [] }

  /** The lost frames carried by packets, each under the space id of its packet. */
  function Carried(packets: seq<Packet>): seq<Lost> { FlatMap(CarriedBy, packets) }

  function ResentBy(e: Exit): seq<Lost> { if e.Resent? then [Lost(e.under, e.lost.frame)] else [] }

  function ResentIn(exits: seq<Exit>): seq<Lost> { FlatMap(ResentBy, exits) }

  /** Space by space and in order: what had to be sent again = what left the queue + what is still queued. */
  ghost predicate Conserved(h: History) {
    Balanced(Wanted(h.ever), h.exits, h.state.lost)
  }

  ghost predicate Accounted(h: History) {
    Conserved(h) && AllJustified(h.exits) && ResentIn(h.exits) == Carried(h.packets)
  }

  lemma {:induction false} GoneExits(q: seq<Lost>, keys: set<nat>)
    requires forall l :: l in q ==> l.space !in keys
    ensures LostIn(AsGone(q, keys)) == q && ResentIn(AsGone(q, keys)) == [] && AllJustified(AsGone(q, keys))
    decreases |q|
  {
    if q != [] {
      GoneExits(q[1..], keys);
    }
  }

  /** What one call takes out of the queue is exactly what it reports, space by space. */
  ghost predicate Balanced(before: seq<Lost>, exits: seq<Exit>, after: seq<Lost>) {
    forall space: nat :: OfSpace(before, space) == OfSpace(LostIn(exits), space) + OfSpace(after, space)
  }

  lemma PurgeBalanced(s: State, env: Env)
    ensures var (q, purged) := Purge(s, env);
            Balanced(s.lost, purged, q) && AllJustified(purged) && ResentIn(purged) == []
  {
    GoneHasNoKeys(s.lost, env.keys);
    GoneExits(Gone(s.lost, env.keys), env.keys);
    forall space: nat
      ensures OfSpace(s.lost, space) == OfSpace(LostIn(Purge(s, env).1), space) + OfSpace(Purge(s, env).0, space)
    {
      PurgeSplitsSpaces(s.lost, env.keys, space);
    }
  }

  lemma Unsealable(env: Env, q: seq<Lost>)
    ensures !Sealable(Choose(env, q), env) ==> SpaceId(Choose(env, q)) !in env.keys
  {
  }

  lemma NoneMapped()
    ensures FlatMap(ExitOf, []) == [] && FlatMap(ResentBy, []) == [] && FlatMap(CarriedBy, []) == []
    ensures forall space: nat :: OfSpace([], space) == []
  {
  }

  lemma OneExit(e: Exit)
    ensures LostIn([e]) == [e.lost]
    ensures ResentIn([e]) == if e.Resent? then [Lost(e.under, e.lost.frame)] else []
  {
    FlatMapOne(ExitOf, e);
    FlatMapOne(ResentBy, e);
  }

  lemma BuildBalanced(s: State, env: Env, c: Chosen)
    requires !Sealable(c, env) ==> SpaceId(c) !in env.keys
    ensures var r := Build(s, env, c);
            && Balanced(s.lost, r.exits, r.state.lost) && AllJustified(r.exits)
            && ResentIn(r.exits) == Carried(PacketsOf(r))
  {
    hide Fill, FlatMap;
    var r := Build(s, env, c);
    NoneMapped();
    if TakesLost(s.lost, c) {
      OneExit(r.exits[0]);
      assert r.exits == [r.exits[0]];
      forall space: nat
        ensures OfSpace(s.lost, space) == OfSpace(LostIn(r.exits), space) + OfSpace(r.state.lost, space)
      {
        assert s.lost == [s.lost[0]] + s.lost[1..];
        FlatMapAppend(InSpace(space), [s.lost[0]], s.lost[1..]);
      }
    }
    if r.packet.Some? {
      FlatMapOne(CarriedBy, r.packet.value);
    }
  }

  lemma BalancedChain(a: seq<Lost>, x: seq<Exit>, b: seq<Lost>, y: seq<Exit>, c: seq<Lost>)
    requires Balanced(a, x, b) && Balanced(b, y, c)
    ensures Balanced(a, x + y, c)
  {
    hide FlatMap;
    FlatMapAppend(ExitOf, x, y);
    forall space: nat ensures OfSpace(a, space) == OfSpace(LostIn(x + y), space) + OfSpace(c, space) {
      FlatMapAppend(InSpace(space), LostIn(x), LostIn(y));
      Assoc(OfSpace(LostIn(x), space), OfSpace(LostIn(y), space), OfSpace(c, space));
    }
  }

  lemma SendBalanced(s0: State, env: Env)
    ensures var r := SendOne(s0, env);
            && Balanced(s0.lost, r.exits, r.state.lost) && AllJustified(r.exits)
            && ResentIn(r.exits) == Carried(PacketsOf(r))
  {
    var s := ApplyParameters(s0, env);
    var (q, purged) := Purge(s, env);
    var c := Choose(env, s.lost);
    PurgeBalanced(s, env);
    Unsealable(env, s.lost);
    BuildBalanced(s.(lost := q), env, c);
    var built := Build(s.(lost := q), env, c);
    BalancedChain(s.lost, purged, q, built.exits, built.state.lost);
    FlatMapAppend(ResentBy, purged, built.exits);
  }

  function PacketsOf(r: Sent): seq<Packet> { if r.packet.Some? then [r.packet.value] else [] }

  lemma AllJustifiedAppend(a: seq<Exit>, b: seq<Exit>)
    requires AllJustified(a) && AllJustified(b)
    ensures AllJustified(a + b)
  {
  }

  lemma CallKeepsAccounted(h: History, r: Sent, advertised: nat)
    requires Accounted(h) && Balanced(h.state.lost, r.exits, r.state.lost) && AllJustified(r.exits)
    requires ResentIn(r.exits) == Carried(PacketsOf(r))
    ensures Accounted(History(r.state, h.ever, h.exits + r.exits, h.packets + PacketsOf(r), advertised))
  {
    hide FlatMap, PacketsOf;
    FlatMapAppend(ResentBy, h.exits, r.exits);
    FlatMapAppend(CarriedBy, h.packets, PacketsOf(r));
    BalancedChain(Wanted(h.ever), h.exits, h.state.lost, r.exits, r.state.lost);
    AllJustifiedAppend(h.exits, r.exits);
  }

  lemma SendKeepsAccounted(h: History, env: Env)
    requires Accounted(h)
    ensures Accounted(Step(h, SendCall(env)))
  {
    SendBalanced(h.state, env);
    CallKeepsAccounted(h, SendOne(h.state, env), Advertised(h, env));
  }

  lemma LoseKeepsAccounted(h: History, packets: seq<SentPacket>)
    requires Accounted(h)
    ensures Accounted(Step(h, Lose(packets)))
  {
    hide FlatMap;
    var all := AllFrames(packets);
    var n := Step(h, Lose(packets));
    QueuedIsWanted(all);
    FlatMapAppend(WantedOf, h.ever, all);
    forall space: nat
      ensures OfSpace(Wanted(n.ever), space) == OfSpace(LostIn(n.exits), space) + OfSpace(n.state.lost, space)
    {
      FlatMapAppend(InSpace(space), Wanted(h.ever), Wanted(all));
      FlatMapAppend(InSpace(space), h.state.lost, Wanted(all));
      Assoc(OfSpace(LostIn(h.exits), space), OfSpace(h.state.lost, space), OfSpace(Wanted(all), space));
    }
  }

  /**
   In every run, whatever keys come and go and whatever else competes for packets: of each
   space, the STREAM, CRYPTO, MAX_DATA, MAX_STREAM_DATA and DATAGRAM frames of all lost packets
   are, in order, those that have left the queue and those still in it; each that left went out
   in a packet of its own space id or had lost
   its keys; and the packets carry exactly the frames reported as re-sent.
   */
  lemma {:induction false} LostFramesConserved(h: History, actions: seq<Action>)
    requires Accounted(h)
    ensures Accounted(Run(h, actions))
    decreases |actions|
  {
    if actions != [] {
      match actions[0] {
        case SendCall(env) => SendKeepsAccounted(h, env);
        case Lose(packets) => LoseKeepsAccounted(h, packets);
        case _ =>
      }
      LostFramesConserved(Step(h, actions[0]), actions[1..]);
    }
  }

  /** Both results from the first step of a connection on. */
  lemma ConnectionRun(actions: seq<Action>)
    ensures var h := Run(FRESH, actions);
            && Accounted(h) && WireBytes(h.packets) <= h.state.dataSent <= h.advertised
  {
    NeverOverConnectionLimit(FRESH, actions);
    LostFramesConserved(FRESH, actions);
  }
}
