/**
 What the STREAM frames of the send path carry: one packet at a time, and over whole runs.
 */
module SendStreams {
  import opened Bytes
  import opened SendPath

  // ---------- one stream ----------

  /** The window a stream has left. */
  function Credit(s: StreamTx): nat { if s.limit > s.txOffset then s.limit - s.txOffset else 0 }

  /** Everything about a poll: as much as the limits allow, the FIN with the last byte, and who is to blame. */
  lemma PollExact(s: StreamTx, maxLen: nat, available: nat)
    ensures var p := Poll(s, maxLen, available);
      var n, left := |p.data|, |s.buffer| - s.txOffset;
      && p.stream == s.(txOffset := s.txOffset + n, finSent := s.finSent || p.fin)
      && p.data == s.buffer[s.txOffset..s.txOffset + n]
      && n <= maxLen && n <= left && n <= available && n <= Credit(s)
      && (n == maxLen || n == left || n == available || n == Credit(s))
      && (p.fin <==> s.closing && !s.finSent && n == left)
      && (p.blocked == NotBlocked <==> n == left)
      && (p.blocked == ByStream <==> n < left && Credit(s) <= available)
  {
    var p := Poll(s, maxLen, available);
    assert s.buffer[s.txOffset..s.txOffset] == [];
  }

  /**
   A stream or connection is reported as blocked even when only the packet was too small: the
   window it blames is used up if and only if it was not larger than the room in the packet.
   */
  lemma BlockedTruthfulIff(s: StreamTx, maxLen: nat, available: nat)
    ensures var p := Poll(s, maxLen, available);
      && (p.blocked == ByStream ==> (Credit(p.stream) == 0 <==> Credit(s) <= maxLen))
      && (p.blocked == ByConnection ==> (|p.data| == available <==> available <= maxLen))
  {
    PollExact(s, maxLen, available);
  }

  /** `t` is `s` after some sending: further on, and with its FIN out only at the very end. */
  predicate Later(s: StreamTx, t: StreamTx) {
    && t == s.(txOffset := t.txOffset, finSent := t.finSent)
    && s.txOffset <= t.txOffset && (s.finSent ==> t.finSent)
    && (t.finSent && !s.finSent ==> s.closing && t.txOffset == |s.buffer|)
  }

  /** The frame that takes a stream from `s` to `t`. */
  function Emitted(s: StreamTx, t: StreamTx): seq<Frame>
    requires s.txOffset <= t.txOffset <= |s.buffer|
  {
    if t.txOffset == s.txOffset && t.finSent == s.finSent then []
    else [Stream(s.id, s.txOffset, s.buffer[s.txOffset..t.txOffset], t.finSent && !s.finSent)]
  }

  /** A stream that is not sent to its end reports the tighter of the two windows. */
  function Reported(s: StreamTx, t: StreamTx, available: nat, maxRemote: nat): seq<Frame> {
    if t.txOffset == |s.buffer| then []
    else if Credit(s) <= available then [StreamDataBlocked(s.id, s.limit)]
    else [DataBlocked(maxRemote)]
  }

  /** What a polled stream puts into the packet. */
  lemma PolledFrames(s: StreamTx, maxLen: nat, available: nat, maxRemote: nat)
    ensures var p := Poll(s, maxLen, available);
      && Later(s, p.stream)
      && FramesOf(s, p, maxRemote) == Emitted(s, p.stream) + Reported(s, p.stream, available, maxRemote)
      && (Emits(p) <==> Emitted(s, p.stream) != [])
  {
    hide Poll;
    PollExact(s, maxLen, available);
  }

  // ---------- one packet ----------

  /** What a stream costs: its bytes and ten for the frame header. */
  function Charge(s: StreamTx, t: StreamTx): nat
    requires s.txOffset <= t.txOffset <= |s.buffer|
  {
    if Emitted(s, t) == [] then 0 else t.txOffset - s.txOffset + 10
  }

  ghost predicate AllLater(a: seq<StreamTx>, b: seq<StreamTx>) {
    |a| == |b| && forall i :: 0 <= i < |a| ==> Later(a[i], b[i])
  }

  function Spent(a: seq<StreamTx>, b: seq<StreamTx>, i: nat): nat
    requires AllLater(a, b) && i <= |a|
  {
    if i == 0 then 0 else Spent(a, b, i - 1) + Charge(a[i - 1], b[i - 1])
  }

  function Used(a: seq<StreamTx>, b: seq<StreamTx>, i: nat): nat
    requires AllLater(a, b) && i <= |a|
  {
    if i == 0 then 0 else Used(a, b, i - 1) + (b[i - 1].txOffset - a[i - 1].txOffset)
  }

  lemma {:induction false} SpentCons(a: seq<StreamTx>, b: seq<StreamTx>, i: nat)
    requires AllLater(a, b) && 1 <= i <= |a|
    ensures AllLater(a[1..], b[1..])
    ensures Spent(a, b, i) == Charge(a[0], b[0]) + Spent(a[1..], b[1..], i - 1)
    ensures Used(a, b, i) == b[0].txOffset - a[0].txOffset + Used(a[1..], b[1..], i - 1)
  {
    assert forall j :: 0 <= j < |a| - 1 ==> a[1..][j] == a[j + 1] && b[1..][j] == b[j + 1];
    if i > 1 {
      SpentCons(a, b, i - 1);
    }
  }

  /** What stream `i` is, given what the ones before it took: polled while there is budget, else untouched. */
  ghost predicate PolledAt(a: seq<StreamTx>, b: seq<StreamTx>, budget: int, available: nat, i: nat)
    requires AllLater(a, b) && i < |a|
  {
    && Used(a, b, i) <= available
    && b[i] == if budget - Spent(a, b, i) > 0
               then Poll(a[i], Min(budget - Spent(a, b, i), 1200), available - Used(a, b, i)).stream
               else a[i]
  }

  ghost predicate AllPolled(a: seq<StreamTx>, b: seq<StreamTx>, budget: int, available: nat) {
    AllLater(a, b) && forall i :: 0 <= i < |a| ==> PolledAt(a, b, budget, available, i)
  }

  lemma LaterCons(s: StreamTx, t: StreamTx, a: seq<StreamTx>, b: seq<StreamTx>)
    requires Later(s, t) && AllLater(a, b)
    ensures AllLater([s] + a, [t] + b)
  {
  }

  lemma PolledAtCons(
      s: StreamTx, t: StreamTx, a: seq<StreamTx>, b: seq<StreamTx>, budget: int, available: nat, i: nat)
    requires Later(s, t) && AllLater(a, b) && AllLater([s] + a, [t] + b) && i < |a|
    requires t.txOffset - s.txOffset <= available
    requires PolledAt(a, b, budget - Charge(s, t), available - (t.txOffset - s.txOffset), i)
    ensures PolledAt([s] + a, [t] + b, budget, available, i + 1)
  {
    hide Poll, Charge;
    SpentCons([s] + a, [t] + b, i + 1);
    assert ([s] + a)[1..] == a && ([t] + b)[1..] == b;
  }

  /** The streams take turns, each with what is left of the budget and of the connection window. */
  lemma {:induction false} PackPolls(streams: seq<StreamTx>, budget: int, available: nat, maxRemote: nat)
    ensures AllPolled(streams, Pack(streams, budget, available, maxRemote).streams, budget, available)
    decreases |streams|
  {
    hide Poll, FramesOf, StreamBytes, AllPolled, Later, Charge;
    if streams != [] && budget > 0 {
      var p, rest := PackCons(streams, budget, available, maxRemote);
      PolledCharge(streams[0], budget, available, maxRemote);
      PackPolls(streams[1..], BudgetAfter(budget, p), available - |p.data|, maxRemote);
      assert streams == [streams[0]] + streams[1..];
      PolledAll(streams[0], p.stream, streams[1..], rest.streams, budget, available);
    } else {
      NothingPacked(streams, budget, available, maxRemote);
      Untouched(streams, budget, available);
    }
  }

  lemma Untouched(streams: seq<StreamTx>, budget: int, available: nat)
    requires streams == [] || budget <= 0
    ensures AllPolled(streams, streams, budget, available)
  {
    NothingSpent(streams, 0);
    forall i | 0 <= i < |streams| ensures PolledAt(streams, streams, budget, available, i) {
      NothingSpent(streams, i);
    }
  }

  lemma PolledCharge(s: StreamTx, budget: int, available: nat, maxRemote: nat)
    requires budget > 0
    ensures var p := Poll(s, Min(budget, 1200), available);
      && Later(s, p.stream) && p.stream.txOffset - s.txOffset == |p.data| <= available
      && BudgetAfter(budget, p) == budget - Charge(s, p.stream)
  {
    hide Poll;
    PolledFrames(s, Min(budget, 1200), available, maxRemote);
    PollExact(s, Min(budget, 1200), available);
  }

  lemma PolledAll(s: StreamTx, t: StreamTx, a: seq<StreamTx>, b: seq<StreamTx>, budget: int, available: nat)
    requires budget > 0 && t == Poll(s, Min(budget, 1200), available).stream && Later(s, t)
    requires t.txOffset - s.txOffset <= available
    requires AllPolled(a, b, budget - Charge(s, t), available - (t.txOffset - s.txOffset))
    ensures AllPolled([s] + a, [t] + b, budget, available)
  {
    LaterCons(s, t, a, b);
    forall i | 0 <= i <= |a| ensures PolledAt([s] + a, [t] + b, budget, available, i) {
      if i > 0 {
        PolledAtCons(s, t, a, b, budget, available, i - 1);
      }
    }
  }

  lemma {:induction false} NothingSpent(streams: seq<StreamTx>, i: nat)
    requires i <= |streams|
    ensures AllLater(streams, streams) && Spent(streams, streams, i) == 0 && Used(streams, streams, i) == 0
  {
    if i > 0 {
      NothingSpent(streams, i - 1);
    }
  }

  function StreamOnly(f: Frame): seq<Frame> { if f.Stream? then [f] else [] }

  function AllEmitted(a: seq<StreamTx>, b: seq<StreamTx>): seq<Frame>
    requires AllLater(a, b)
    decreases |a|
  {
    if a == [] then []
    else
      assert Later(a[0], b[0]);
      assert forall j :: 0 <= j < |a| - 1 ==> a[1..][j] == a[j + 1] && b[1..][j] == b[j + 1];
      Emitted(a[0], b[0]) + AllEmitted(a[1..], b[1..])
  }

  /**
   The STREAM frames of a packet are, in the order of the streams, at most one for each: its id,
   the position it had reached, the bytes from there to where it is now, and the FIN if it closes
   with the last of them.
   */
  lemma {:induction false} PackedFrames(streams: seq<StreamTx>, budget: int, available: nat, maxRemote: nat)
    ensures var p := Pack(streams, budget, available, maxRemote);
      AllLater(streams, p.streams) && FlatMap(StreamOnly, p.frames) == AllEmitted(streams, p.streams)
    decreases |streams|
  {
    hide Poll, StreamBytes;
    PackPolls(streams, budget, available, maxRemote);
    if streams != [] && budget > 0 {
      var p, rest := PackCons(streams, budget, available, maxRemote);
      var after := Pack(streams, budget, available, maxRemote).streams;
      assert after[1..] == rest.streams && after[0] == p.stream;
      PackedFrames(streams[1..], BudgetAfter(budget, p), available - |p.data|, maxRemote);
      PolledOnly(streams[0], Min(budget, 1200), available, maxRemote);
      FlatMapAppend(StreamOnly, FramesOf(streams[0], p, maxRemote), rest.frames);
    } else {
      NothingEmitted(streams);
    }
  }

  lemma PolledOnly(s: StreamTx, maxLen: nat, available: nat, maxRemote: nat)
    ensures var p := Poll(s, maxLen, available);
      Later(s, p.stream) && FlatMap(StreamOnly, FramesOf(s, p, maxRemote)) == Emitted(s, p.stream)
  {
    hide Poll, FramesOf;
    PolledFrames(s, maxLen, available, maxRemote);
    var p := Poll(s, maxLen, available);
    var first := Emitted(s, p.stream);
    var second := FramesOf(s, p, maxRemote)[|first|..];
    assert FramesOf(s, p, maxRemote) == first + second;
    FlatMapAppend(StreamOnly, first, second);
    if first != [] {
      FlatMapOne(StreamOnly, first[0]);
      assert first == [first[0]];
    }
    if second != [] {
      FlatMapOne(StreamOnly, second[0]);
      assert second == [second[0]];
    }
  }

  lemma {:induction false} NothingEmitted(streams: seq<StreamTx>)
    ensures AllLater(streams, streams) && AllEmitted(streams, streams) == []
    decreases |streams|
  {
    if streams != [] {
      NothingEmitted(streams[1..]);
    }
  }

  /** The FIN goes out exactly once a closing stream is sent to its end and has not had one. */
  lemma FinIff(streams: seq<StreamTx>, budget: int, available: nat, maxRemote: nat, i: nat)
    requires i < |streams|
    ensures var after := Pack(streams, budget, available, maxRemote).streams;
      && AllLater(streams, after)
      && (Emitted(streams[i], after[i]) != [] ==>
            (Emitted(streams[i], after[i])[0].fin
             <==> streams[i].closing && !streams[i].finSent && after[i].txOffset == |streams[i].buffer|))
  {
    hide Poll;
    PackPolls(streams, budget, available, maxRemote);
    var after := Pack(streams, budget, available, maxRemote).streams;
    assert PolledAt(streams, after, budget, available, i);
    var b := budget - Spent(streams, after, i);
    if b > 0 {
      PollExact(streams[i], Min(b, 1200), available - Used(streams, after, i));
    }
  }

  // ---------- whole runs ----------

  function OfStream(id: nat): Frame -> seq<Frame> { (f: Frame) => if f.Stream? && f.id == id then [f] else [] }

  /** The STREAM frames of one stream in a list of frames, and the new ones in a list of packets. */
  function FramesFor(frames: seq<Frame>, id: nat): seq<Frame> { FlatMap(OfStream(id), frames) }

  function NewIn(id: nat): Packet -> seq<Frame> { (p: Packet) => FramesFor(p.newFrames, id) }

  function NewFor(packets: seq<Packet>, id: nat): seq<Frame> { FlatMap(NewIn(id), packets) }

  /**
   What frames spell that lie end to end from offset zero, and whether the last one has the FIN;
   none if they leave a gap, overlap, or go on after the FIN.
   */
  function Spelled(frames: seq<Frame>): Option<(seq<Byte>, bool)> {
    if frames == [] then Some(([], false))
    else
      var last := frames[|frames| - 1];
      match Spelled(frames[..|frames| - 1])
      case None => None
      case Some((bytes, fin)) =>
        if !last.Stream? || fin || last.offset != |bytes| then None else Some((bytes + last.data, last.fin))
  }

  ghost predicate DistinctIds(streams: seq<StreamTx>) {
    forall i, j :: 0 <= i < j < |streams| ==> streams[i].id != streams[j].id
  }

  /** The frames sent for a stream spell what it counts as sent. */
  ghost predicate SentRight(packets: seq<Packet>, s: StreamTx) {
    && Spelled(NewFor(packets, s.id)) == Some((s.buffer[..s.txOffset], s.finSent))
    && (s.finSent ==> s.closing && s.txOffset == |s.buffer|)
  }

  ghost predicate AllRight(h: History) {
    && DistinctIds(h.state.streams)
    && (forall i :: 0 <= i < |h.state.streams| ==> SentRight(h.packets, h.state.streams[i]))
    && (forall l :: l in h.state.lost ==> l.space <= 2)
  }

  /** The application writes, closes, and the peer's limits change; nothing is written after the close. */
  predicate Written(s: StreamTx, t: StreamTx) {
    && t.id == s.id && t.txOffset == s.txOffset && t.finSent == s.finSent && s.buffer <= t.buffer
    && (s.closing ==> t.closing && t.buffer == s.buffer)
  }

  predicate NewStream(packets: seq<Packet>, t: StreamTx) {
    NewFor(packets, t.id) == [] && t.txOffset == 0 && !t.finSent
  }

  /** Streams may also go; a stream that is not there already is a new one.  There are three spaces. */
  ghost predicate Legal(h: History, a: Action) {
    match a
    case Application(streams) =>
      && DistinctIds(streams)
      && forall j :: 0 <= j < |streams| ==>
           || NewStream(h.packets, streams[j])
           || exists i :: 0 <= i < |h.state.streams| && Written(h.state.streams[i], streams[j])
    case Lose(packets) => forall p :: p in packets ==> p.space <= 2
    case _ => true
  }

  lemma SpelledOn(frames: seq<Frame>, s: StreamTx, t: StreamTx)
    requires Spelled(frames) == Some((s.buffer[..s.txOffset], s.finSent)) && Later(s, t)
    requires s.finSent ==> s.txOffset == |s.buffer|
    ensures Spelled(frames + Emitted(s, t)) == Some((t.buffer[..t.txOffset], t.finSent))
  {
    var more := Emitted(s, t);
    if more == [] {
      assert frames + more == frames;
    } else {
      assert (frames + more)[..|frames|] == frames;
      assert s.buffer[..s.txOffset] + s.buffer[s.txOffset..t.txOffset] == s.buffer[..t.txOffset];
    }
  }

  lemma {:induction false} ForIsOnly(frames: seq<Frame>, id: nat)
    ensures FramesFor(frames, id) == FramesFor(FlatMap(StreamOnly, frames), id)
    decreases |frames|
  {
    if frames != [] {
      ForIsOnly(frames[1..], id);
      FlatMapAppend(OfStream(id), StreamOnly(frames[0]), FlatMap(StreamOnly, frames[1..]));
      if frames[0].Stream? {
        FlatMapOne(OfStream(id), frames[0]);
      }
    }
  }

  /** With distinct ids, the frames for a stream are the one that it emitted. */
  lemma {:induction false} EmittedFor(a: seq<StreamTx>, b: seq<StreamTx>, i: nat)
    requires AllLater(a, b) && DistinctIds(a) && i < |a|
    ensures FramesFor(AllEmitted(a, b), a[i].id) == Emitted(a[i], b[i])
    decreases |a|
  {
    var a1, b1 := a[1..], b[1..];
    assert forall j :: 0 <= j < |a| - 1 ==> a1[j] == a[j + 1] && b1[j] == b[j + 1];
    var first := Emitted(a[0], b[0]);
    FlatMapAppend(OfStream(a[i].id), first, AllEmitted(a1, b1));
    if first != [] {
      assert first == [first[0]];
      FlatMapOne(OfStream(a[i].id), first[0]);
    }
    if i == 0 {
      EmittedForOther(a1, b1, a[0].id);
    } else {
      EmittedFor(a1, b1, i - 1);
    }
  }

  lemma {:induction false} EmittedForOther(a: seq<StreamTx>, b: seq<StreamTx>, id: nat)
    requires AllLater(a, b) && forall j :: 0 <= j < |a| ==> a[j].id != id
    ensures FramesFor(AllEmitted(a, b), id) == []
    decreases |a|
  {
    if a != [] {
      var a1, b1 := a[1..], b[1..];
      assert forall j :: 0 <= j < |a| - 1 ==> a1[j] == a[j + 1] && b1[j] == b[j + 1];
      var first := Emitted(a[0], b[0]);
      FlatMapAppend(OfStream(id), first, AllEmitted(a1, b1));
      if first != [] {
        assert first == [first[0]];
        FlatMapOne(OfStream(id), first[0]);
      }
      EmittedForOther(a1, b1, id);
    }
  }

  /** Where new stream data goes there are keys, so no data is taken from a stream and not sent. */
  lemma PacksSealable(env: Env, q: seq<Lost>)
    requires forall l :: l in q ==> l.space <= 2
    ensures Packs(env, Choose(env, q)) ==> Sealable(Choose(env, q), env)
  {
    KeptIsSub(q, env.keys);
    GoneHasNoKeys(q, env.keys);
    var kept := Kept(q, env.keys);
    if kept != [] {
      assert kept[0] in kept;
    }
  }

  lemma {:induction false} KeptIsSub(q: seq<Lost>, keys: set<nat>)
    ensures forall l :: l in Kept(q, keys) ==> l in q
    decreases |q|
  {
    if q != [] {
      KeptIsSub(q[1..], keys);
    }
  }

  lemma FillRight(s: State, env: Env, c: Chosen, i: nat)
    requires DistinctIds(s.streams) && i < |s.streams|
    ensures var p := Fill(s, env, c);
      && AllLater(s.streams, p.streams)
      && FramesFor(p.frames, s.streams[i].id) == Emitted(s.streams[i], p.streams[i])
  {
    hide Pack, FlatMap;
    var p := Fill(s, env, c);
    if Packs(env, c) {
      PackedFrames(s.streams, StreamBudget(env.mtu), Window(s), s.maxRemote);
      ForIsOnly(p.frames, s.streams[i].id);
      EmittedFor(s.streams, p.streams, i);
    } else {
      NothingSpent(s.streams, 0);
      NoFrames(s.streams[i].id);
    }
  }

  lemma NoFrames(id: nat)
    ensures FramesFor([], id) == [] && NewFor([], id) == []
  {
  }

  /** What a call adds to the frames of a stream is what that stream emitted. */
  lemma BuildRight(s: State, env: Env, c: Chosen, packets: seq<Packet>, i: nat)
    requires DistinctIds(s.streams) && i < |s.streams| && (Packs(env, c) ==> Sealable(c, env))
    requires SentRight(packets, s.streams[i])
    ensures var r := Build(s, env, c);
      && |r.state.streams| == |s.streams| && r.state.streams[i].id == s.streams[i].id
      && SentRight(packets + PacketsOf(r), r.state.streams[i])
  {
    hide Fill, FlatMap, Spelled;
    FillRight(s, env, c, i);
    var r, p := Build(s, env, c), Fill(s, env, c);
    var id := s.streams[i].id;
    NoFrames(id);
    SpelledOn(NewFor(packets, id), s.streams[i], p.streams[i]);
    if r.packet.Some? {
      FlatMapAppend(NewIn(id), packets, [r.packet.value]);
      FlatMapOne(NewIn(id), r.packet.value);
    } else {
      UnsentHasNoFrames(s, env, c);
      assert packets + [] == packets;
      assert NewFor(packets, id) + [] == NewFor(packets, id);
    }
  }

  lemma UnsentHasNoFrames(s: State, env: Env, c: Chosen)
    requires Packs(env, c) ==> Sealable(c, env)
    ensures Build(s, env, c).packet.None? ==> Fill(s, env, c).frames == []
  {
    hide Pack;
  }

  lemma SendRight(h: History, env: Env)
    requires AllRight(h)
    ensures AllRight(Step(h, SendCall(env)))
  {
    hide Build, Choose, SentRight, FlatMap;
    var s := ApplyParameters(h.state, env);
    var q, c := Purge(s, env).0, Choose(env, s.lost);
    PacksSealable(env, s.lost);
    KeptIsSub(s.lost, env.keys);
    var kept := s.(lost := q);
    assert h.packets + [] == h.packets;
    forall i | 0 <= i < |kept.streams|
      ensures var r := Build(kept, env, c);
        && |r.state.streams| == |kept.streams| && r.state.streams[i].id == kept.streams[i].id
        && SentRight(h.packets + PacketsOf(r), r.state.streams[i])
    {
      BuildRight(kept, env, c, h.packets, i);
    }
    BuildKeepsSpaces(kept, env, c);
    PacketsSame(h.state, env);
  }

  lemma PacketsSame(s0: State, env: Env)
    ensures var s := ApplyParameters(s0, env);
      var b := Build(s.(lost := Purge(s, env).0), env, Choose(env, s.lost));
      PacketsOf(b.(exits := Purge(s, env).1 + b.exits)) == PacketsOf(b)
  {
    hide Build, Choose;
  }

  lemma BuildKeepsSpaces(s: State, env: Env, c: Chosen)
    requires forall l :: l in s.lost ==> l.space <= 2
    ensures forall l :: l in Build(s, env, c).state.lost ==> l.space <= 2
    ensures |Build(s, env, c).state.streams| == |s.streams|
  {
    hide Pack;
    PackPolls(s.streams, StreamBudget(env.mtu), Window(s), s.maxRemote);
  }

  lemma {:induction false} QueuedSpaces(frames: seq<Lost>)
    requires forall l :: l in frames ==> l.space <= 2
    ensures forall l :: l in FlatMap(QueuedOf, frames) ==> l.space <= 2
    decreases |frames|
  {
    if frames != [] {
      QueuedSpaces(frames[1..]);
    }
  }

  lemma {:induction false} LostSpaces(packets: seq<SentPacket>)
    requires forall p :: p in packets ==> p.space <= 2
    ensures forall l :: l in AllFrames(packets) ==> l.space <= 2
    decreases |packets|
  {
    if packets != [] {
      LostSpaces(packets[1..]);
      assert packets[0] in packets;
    }
  }

  lemma ApplicationRight(h: History, streams: seq<StreamTx>)
    requires AllRight(h) && Legal(h, Application(streams))
    ensures AllRight(Step(h, Application(streams)))
  {
    hide FlatMap;
    forall j | 0 <= j < |streams| ensures SentRight(h.packets, streams[j]) {
      if !NewStream(h.packets, streams[j]) {
        var i :| 0 <= i < |h.state.streams| && Written(h.state.streams[i], streams[j]);
        var s, t := h.state.streams[i], streams[j];
        assert SentRight(h.packets, s);
        assert t.buffer[..t.txOffset] == s.buffer[..s.txOffset];
      }
    }
  }

  lemma StepRight(h: History, a: Action)
    requires AllRight(h) && Legal(h, a)
    ensures AllRight(Step(h, a))
  {
    match a
    case SendCall(env) => SendRight(h, env);
    case Application(streams) => ApplicationRight(h, streams);
    case Lose(packets) =>
      LostSpaces(packets);
      QueuedSpaces(AllFrames(packets));
    case PeerMaxData(_) =>
  }

  ghost predicate AllLegal(h: History, actions: seq<Action>)
    decreases |actions|
  {
    actions == [] || (Legal(h, actions[0]) && AllLegal(Step(h, actions[0]), actions[1..]))
  }

  /**
   In every run, with any number of streams coming and going: the new STREAM frames of each stream
   lie end to end from offset zero and spell exactly what was written up to its send position, and
   the FIN is on the last of them, once, exactly when all that was written before the close is out.
   */
  lemma {:induction false} StreamsSpelled(h: History, actions: seq<Action>)
    requires AllRight(h) && AllLegal(h, actions)
    ensures AllRight(Run(h, actions))
    decreases |actions|
  {
    hide AllRight, Step, Legal;
    if actions != [] {
      StepRight(h, actions[0]);
      StreamsSpelled(Step(h, actions[0]), actions[1..]);
    }
  }

  lemma ConnectionSpelled(actions: seq<Action>)
    requires AllLegal(FRESH, actions)
    ensures AllRight(Run(FRESH, actions))
  {
    StreamsSpelled(FRESH, actions);
  }
}
