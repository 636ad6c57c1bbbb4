/**
 The connection actor's tables: which streams have a handler, a channel and a sent EOF.
 */
module ActorStreams {
  import opened Bytes
  import opened StreamForwarding

  /**
   A handler is spawned for a stream; the actor forgets the stream, after all it has sent into
   its channel.
   */
  datatype Event = Dispatched(id: nat) | Dropped(id: nat, sent: seq<seq<Byte>>, wasReset: bool)

  /** The last event about the stream is its dispatch. */
  predicate Live(log: seq<Event>, id: nat) {
    log != [] &&
    var last := log[|log| - 1];
    if last.id == id then last.Dispatched? else Live(log[..|log| - 1], id)
  }

  /** Every dispatch is of a stream that is not live, every drop of one that is. */
  predicate Alternates(log: seq<Event>) {
    log == [] ||
    var before, last := log[..|log| - 1], log[|log| - 1];
    Alternates(before) && (last.Dispatched? <==> !Live(before, last.id))
  }

  /** Between two dispatches of a stream lies a drop of it. */
  lemma {:induction false} OneDispatchPerLife(log: seq<Event>, i: nat, j: nat)
    requires Alternates(log) && i < j < |log| && log[i].Dispatched? && log[j] == log[i]
    ensures exists k :: i < k < j && log[k].Dropped? && log[k].id == log[i].id
    decreases |log|
  {
    var before := log[..|log| - 1];
    if j < |log| - 1 {
      OneDispatchPerLife(before, i, j);
      var k :| i < k < j && before[k].Dropped? && before[k].id == before[i].id;
      assert log[k].Dropped? && log[k].id == log[i].id;
    } else {
      var k := NotLiveMeansDropped(before, i);
      assert log[k].Dropped? && log[k].id == log[i].id;
    }
  }

  lemma {:induction false} NotLiveMeansDropped(log: seq<Event>, i: nat) returns (k: nat)
    requires Alternates(log) && i < |log| && log[i].Dispatched? && !Live(log, log[i].id)
    ensures i < k < |log| && log[k].Dropped? && log[k].id == log[i].id
    decreases |log|
  {
    var n := |log| - 1;
    if log[n].id == log[i].id {
      k := n;
    } else {
      k := NotLiveMeansDropped(log[..n], i);
    }
  }

  /** In a log that alternates, a stream was dispatched before it was dropped. */
  lemma {:induction false} DroppedMeansDispatched(log: seq<Event>, k: nat) returns (i: nat)
    requires Alternates(log) && k < |log| && log[k].Dropped?
    ensures i < k && log[i] == Dispatched(log[k].id)
    decreases |log|
  {
    var n := |log| - 1;
    if k < n {
      i := DroppedMeansDispatched(log[..n], k);
    } else {
      i := LiveMeansDispatched(log[..n], log[n].id);
    }
  }

  lemma {:induction false} LiveMeansDispatched(log: seq<Event>, id: nat) returns (i: nat)
    requires Live(log, id)
    ensures i < |log| && log[i] == Dispatched(id)
    decreases |log|
  {
    var n := |log| - 1;
    if log[n].id == id {
      i := n;
    } else {
      i := LiveMeansDispatched(log[..n], id);
    }
  }

  ghost predicate Twice(log: seq<Event>, id: nat) {
    exists i, j :: 0 <= i < j < |log| && log[i] == Dispatched(id) && log[j] == Dispatched(id)
  }

  /** Exactly when an id is dispatched twice: when it is dispatched again after it was cleaned up. */
  lemma DispatchedTwiceIff(log: seq<Event>, id: nat)
    requires Alternates(log)
    ensures Twice(log, id)
       <==> exists k, j :: 0 <= k < j < |log| && log[k].Dropped? && log[k].id == id && log[j] == Dispatched(id)
  {
    if i, j :| 0 <= i < j < |log| && log[i] == Dispatched(id) && log[j] == Dispatched(id) {
      OneDispatchPerLife(log, i, j);
      var k :| i < k < j && log[k].Dropped? && log[k].id == log[i].id;
      assert 0 <= k < j < |log| && log[k].Dropped? && log[k].id == id && log[j] == Dispatched(id);
    }
    if k, j :| 0 <= k < j < |log| && log[k].Dropped? && log[k].id == id && log[j] == Dispatched(id) {
      var i := DroppedMeansDispatched(log, k);
    }
  }

  lemma LogStep(log: seq<Event>, e: Event)
    requires Alternates(log) && (e.Dispatched? <==> !Live(log, e.id))
    ensures Alternates(log + [e])
    ensures forall id: nat :: Live(log + [e], id) <==> if id == e.id then e.Dispatched? else Live(log, id)
  {
    assert (log + [e])[..|log + [e]| - 1] == log;
  }

  /** All chunks ever sent on a channel: data, then the EOF chunk if it has been sent. */
  predicate WellSent(chunks: seq<seq<Byte>>, eof: bool) {
    if eof
    then chunks != [] && chunks[|chunks| - 1] == EOF && NonEmpty(chunks[..|chunks| - 1])
    else NonEmpty(chunks)
  }

  /** A stream is forgotten only after its one EOF chunk, or when it was reset. */
  predicate WellDropped(e: Event) { e.Dropped? && !e.wasReset ==> WellSent(e.sent, true) }

  lemma ForwardWellSent(s: StreamRx, eof: bool, chunks: seq<seq<Byte>>)
    requires WellSent(chunks, eof)
    ensures WellSent(chunks + Forward(s, eof).chunks, Forward(s, eof).eof)
  {
    var data := Chunks(Unread(s));
    ChunksFlatten(Unread(s));
    assert chunks + [] == chunks;
    assert (chunks + (data + [EOF]))[..|chunks| + |data|] == chunks + data;
  }

  predicate ClientInitiated(id: nat) { id % 4 == 0 || id % 4 == 2 }

  /** Section 2.1 of RFC 9000: the client's streams, of either kind, have the even ids. */
  lemma ClientIdsAreEven(id: nat)
    ensures ClientInitiated(id) <==> id % 2 == 0
  {
  }

  /** The actor's tables as a value. */
  datatype Tables = Tables(
    streams: map<nat, StreamRx>, channels: map<nat, seq<seq<Byte>>>,
    eofSent: set<nat>, handled: set<nat>, log: seq<Event>)

  /** The handled streams are those with a channel, those live in the log, and client-initiated. */
  ghost predicate Consistent(t: Tables) {
    && t.handled == t.channels.Keys && t.eofSent <= t.handled
    && Alternates(t.log)
    && (forall id: nat :: id in t.handled <==> Live(t.log, id))
    && (forall id :: id in t.handled ==> ClientInitiated(id))
    && (forall id :: id in t.channels ==> WellSent(t.channels[id], id in t.eofSent))
    && (forall e :: e in t.log ==> WellDropped(e))
  }

  function Dispatch(t: Tables, id: nat): Tables {
    if id in t.handled || !ClientInitiated(id) then t
    else t.(channels := t.channels[id := []], handled := t.handled + {id}, log := t.log + [Dispatched(id)])
  }

  lemma DispatchConsistent(t: Tables, id: nat)
    requires Consistent(t)
    ensures Consistent(Dispatch(t, id))
  {
    if id !in t.handled {
      LogStep(t.log, Dispatched(id));
    }
  }

  /** The outcome of forwarding stream `id` is entered into the tables; a fully done stream is forgotten. */
  function Record(t: Tables, id: nat, f: Forwarded): Tables
    requires id in t.channels
  {
    if FullyDone(f.stream)
    then Tables(t.streams[id := f.stream], t.channels - {id}, t.eofSent - {id}, t.handled - {id},
                t.log + [Dropped(id, t.channels[id] + f.chunks, f.stream.state == Reset)])
    else t.(streams := t.streams[id := f.stream],
            channels := t.channels[id := t.channels[id] + f.chunks],
            eofSent := if f.eof then t.eofSent + {id} else t.eofSent)
  }

  lemma RecordConsistent(t: Tables, id: nat, f: Forwarded)
    requires Consistent(t) && id in t.channels && WellSent(t.channels[id] + f.chunks, f.eof)
    requires id in t.eofSent ==> f.eof
    requires RemoteDone(f.stream) ==> f.eof
    ensures Consistent(Record(t, id, f))
  {
    if FullyDone(f.stream) {
      LogStep(t.log, Dropped(id, t.channels[id] + f.chunks, f.stream.state == Reset));
    }
  }

  function ForwardIn(t: Tables, id: nat): Tables
    requires id in t.streams
  {
    if id in t.channels then Record(t, id, Forward(t.streams[id], id in t.eofSent)) else t
  }

  lemma ForwardInConsistent(t: Tables, id: nat)
    requires Consistent(t) && id in t.streams
    ensures Consistent(ForwardIn(t, id))
  {
    if id in t.channels {
      ForwardWellSent(t.streams[id], id in t.eofSent, t.channels[id]);
      RecordConsistent(t, id, Forward(t.streams[id], id in t.eofSent));
    }
  }

  /** The fully done streams leave the stream table; a late frame for one of them recreates it. */
  function Recreated(t: Tables, id: nat, s: StreamRx): Tables {
    var live := map i | i in t.streams && !FullyDone(t.streams[i]) :: t.streams[i];
    t.(streams := live[id := s])
  }

  /**
   A STREAM frame for a stream that was fully done: the stream is cleaned up, recreated, and its id
   dispatched to a handler again, for every client-initiated stream with a handler.
   */
  lemma LateFrameDispatchesAgain(t: Tables, id: nat, late: StreamRx)
    requires Consistent(t) && id in t.handled && id in t.streams && FullyDone(t.streams[id])
    ensures var cleaned := ForwardIn(t, id);
      var again := Dispatch(Recreated(cleaned, id, late), id);
      && id !in cleaned.handled && id in again.handled && again.streams[id] == late
      && Consistent(again) && Twice(again.log, id)
  {
    ForwardInConsistent(t, id);
    var cleaned := ForwardIn(t, id);
    assert cleaned.log[..|t.log|] == t.log && cleaned.log[|t.log|].Dropped?;
    var back := Recreated(cleaned, id, late);
    assert Consistent(back);
    DispatchConsistent(back, id);
    var again := Dispatch(back, id);
    var i := LiveMeansDispatched(t.log, id);
    assert again.log[i] == Dispatched(id) && again.log[|t.log| + 1] == Dispatched(id);
  }

  /** From empty tables: a request that is served and done, and a late copy of one of its frames. */
  lemma LateFrameRun(id: nat, done: StreamRx, late: StreamRx)
    requires ClientInitiated(id) && FullyDone(done)
    ensures var first := Dispatch(Tables(map[id := done], map[], {}, {}, []), id);
      var again := Dispatch(Recreated(ForwardIn(first, id), id, late), id);
      |again.log| == 3 && again.log[0] == Dispatched(id) && again.log[1].Dropped? && again.log[2] == Dispatched(id)
  {
    var empty := Tables(map[id := done], map[], {}, {}, []);
    assert Consistent(empty);
    DispatchConsistent(empty, id);
    LateFrameDispatchesAgain(Dispatch(empty, id), id, late);
  }

  /** Stream `id` looks the same in both tables. */
  ghost predicate SameAt(a: Tables, b: Tables, id: nat) {
    && (id in a.streams <==> id in b.streams) && (id in a.streams ==> a.streams[id] == b.streams[id])
    && (id in a.channels <==> id in b.channels) && (id in a.channels ==> a.channels[id] == b.channels[id])
    && (id in a.eofSent <==> id in b.eofSent)
  }

  lemma ForwardInLocal(t: Tables, id: nat, other: nat)
    requires id in t.streams && other != id
    ensures SameAt(ForwardIn(t, id), t, other)
  {
  }

  /** What forwarding does to a stream depends on nothing but that stream. */
  lemma ForwardInSame(a: Tables, b: Tables, id: nat)
    requires SameAt(a, b, id) && id in a.streams
    ensures SameAt(ForwardIn(a, id), ForwardIn(b, id), id)
  {
  }

  /** Every stream has had its turn, each from its state at the start of the pass. */
  ghost predicate Passed(start: Tables, t: Tables, done: set<nat>) {
    forall id: nat :: SameAt(t, if id in done && id in start.streams then ForwardIn(start, id) else start, id)
  }

  lemma PassStart(start: Tables)
    ensures Passed(start, start, {})
  {
  }

  lemma PassStep(start: Tables, t: Tables, done: set<nat>, id: nat)
    requires Passed(start, t, done) && id in start.streams && id !in done
    ensures id in t.streams && Passed(start, ForwardIn(t, id), done + {id})
  {
    assert SameAt(t, start, id);
    forall other: nat
      ensures SameAt(ForwardIn(t, id),
                     if other in done + {id} && other in start.streams then ForwardIn(start, other) else start, other)
    {
      if other == id {
        ForwardInSame(t, start, id);
      } else {
        ForwardInLocal(t, id, other);
        assert SameAt(t, if other in done && other in start.streams then ForwardIn(start, other) else start, other);
      }
    }
  }

  /** After the pass exactly the fully done streams have lost their channel. */
  lemma PassDropsDone(start: Tables, t: Tables, id: nat)
    requires Passed(start, t, start.streams.Keys)
    ensures id in t.streams <==> id in start.streams
    ensures id in t.channels <==> id in start.channels && (id in start.streams ==> !FullyDone(t.streams[id]))
  {
    assert SameAt(t, if id in start.streams then ForwardIn(start, id) else start, id);
  }

  /** The log has grown by dispatches, of exactly the streams that are handled now and were not before. */
  ghost predicate Announced(start: seq<Event>, log: seq<Event>, was: set<nat>, handled: set<nat>) {
    start <= log && forall id: nat :: Dispatched(id) in log[|start|..] <==> id in handled && id !in was
  }

  lemma NoneAnnounced(log: seq<Event>, handled: set<nat>)
    ensures Announced(log, log, handled, handled)
  {
  }

  lemma AnnounceOne(start: seq<Event>, log: seq<Event>, was: set<nat>, handled: set<nat>, id: nat)
    requires Announced(start, log, was, handled)
    ensures id !in handled && id !in was ==> Announced(start, log + [Dispatched(id)], was, handled + {id})
  {
    assert (log + [Dispatched(id)])[|start|..] == log[|start|..] + [Dispatched(id)];
  }

  class ConnectionActor {
    var streams: map<nat, StreamRx>
    var channels: map<nat, seq<seq<Byte>>>
    var eofSent: set<nat>
    var handled: set<nat>
    ghost var log: seq<Event>

    ghost function Value(): Tables
      reads this
    {
      Tables(streams, channels, eofSent, handled, log)
    }

    ghost predicate Valid()
      reads this
    {
      Consistent(Value())
    }

    constructor ()
      ensures Valid() && Value() == Tables(map[], map[], {}, {}, [])
    {
      streams, channels, eofSent, handled, log := map[], map[], {}, {}, [];
    }

    method DispatchOne(id: nat)
      requires Valid()
      modifies this`channels, this`handled, this`log
      ensures Valid() && Value() == Dispatch(old(Value()), id)
    {
      DispatchConsistent(Value(), id);
      if id in handled {
        return;
      }
      if id % 4 == 0 || id % 4 == 2 {
        handled := handled + {id};
        channels := channels[id := []];
        log := log + [Dispatched(id)];
      }
    }

    /** Every client-initiated stream without a handler gets one; nothing else changes. */
    method DispatchNewStreams()
      requires Valid()
      modifies this`channels, this`handled, this`log
      ensures Valid()
      ensures forall id :: id in handled <==> id in old(handled) || (id in streams && ClientInitiated(id))
      ensures forall id :: id in old(channels) ==> id in channels && channels[id] == old(channels)[id]
      ensures Announced(old(log), log, old(handled), handled)
    {
      hide Alternates, Live, WellSent, WellDropped, Announced;
      NoneAnnounced(log, handled);
      ghost var before := channels;
      var todo := streams.Keys;
      while todo != {}
        invariant Valid() && todo <= streams.Keys
        invariant forall id ::
          id in handled <==> id in old(handled) || (id in streams && id !in todo && ClientInitiated(id))
        invariant forall id :: id in before ==> id in channels && channels[id] == before[id]
        invariant before.Keys == old(handled) && Announced(old(log), log, old(handled), handled)
        decreases |todo|
      {
        var id :| id in todo;
        AnnounceOne(old(log), log, old(handled), handled, id);
        DispatchOne(id);
        todo := todo - {id};
      }
    }

    method ForwardOne(id: nat)
      requires Valid() && id in streams
      modifies this
      ensures Valid() && Value() == ForwardIn(old(Value()), id)
    {
      ForwardInConsistent(Value(), id);
      if id in channels {
        var f := ForwardStream(streams[id], id in eofSent);
        RecordOutcome(id, f);
      }
    }

    method RecordOutcome(id: nat, f: Forwarded)
      requires id in channels
      modifies this
      ensures Value() == Record(old(Value()), id, f)
    {
      streams := streams[id := f.stream];
      if f.eof {
        eofSent := eofSent + {id};
      }
      if FullyDone(f.stream) {
        log := log + [Dropped(id, channels[id] + f.chunks, f.stream.state == Reset)];
        channels := channels - {id};
        handled := handled - {id};
        eofSent := eofSent - {id};
      } else {
        channels := channels[id := channels[id] + f.chunks];
      }
    }

    /** The forwarding pass: every stream with a channel is forwarded once, from its state at the start. */
    method ForwardStreamData()
      requires Valid()
      modifies this
      ensures Valid() && Passed(old(Value()), Value(), old(streams.Keys))
    {
      hide Consistent, Passed;
      ghost var start, done: set<nat> := Value(), {};
      PassStart(start);
      var todo := streams.Keys;
      while todo != {}
        invariant Valid() && todo <= start.streams.Keys && done == start.streams.Keys - todo
        invariant Passed(start, Value(), done)
        decreases |todo|
      {
        var id :| id in todo;
        PassStep(start, Value(), done, id);
        ForwardOne(id);
        todo := todo - {id};
        done := done + {id};
      }
      assert done == start.streams.Keys;
    }

    method CleanupDoneStreams()
      modifies this`streams
      ensures streams == map id | id in old(streams) && !FullyDone(old(streams)[id]) :: old(streams)[id]
    {
      streams := map id | id in streams && !FullyDone(streams[id]) :: streams[id];
    }

    /** Between two steps of the run loop: consistent, and no channel outlives its stream. */
    ghost predicate Running()
      reads this
    {
      Valid() && channels.Keys <= streams.Keys
    }

    /** A packet opens or changes streams; new ones are dispatched at once. */
    method RecvPacket(changed: map<nat, StreamRx>)
      requires Running()
      modifies this
      ensures Running() && streams == old(streams) + changed && old(log) <= log
      ensures forall id :: id in streams && ClientInitiated(id) ==> id in handled
      ensures forall id :: Dispatched(id) in log[|old(log)|..] <==>
        id in streams && ClientInitiated(id) && id !in old(handled)
    {
      streams := streams + changed;
      DispatchNewStreams();
    }

    /** One turn of the run loop's packet branch, for any number of packets. */
    method ServeBatch(packets: seq<map<nat, StreamRx>>)
      requires Running()
      modifies this
      ensures Running()
      ensures packets != [] ==> forall id :: id in streams && ClientInitiated(id) ==> id in handled
    {
      for i := 0 to |packets|
        invariant Running()
        invariant i > 0 ==> forall id :: id in streams && ClientInitiated(id) ==> id in handled
      {
        RecvPacket(packets[i]);
      }
      AfterBatch();
    }

    /** After a batch of packets no channel outlives its stream, and every live stream keeps its own. */
    method AfterBatch()
      requires Running()
      modifies this
      ensures Running() && streams.Keys <= old(streams.Keys)
      ensures forall id :: id in old(channels) && id in streams ==> id in channels
    {
      ghost var start := Value();
      ForwardStreamData();
      ghost var end := Value();
      forall id: nat
        ensures id in end.streams <==> id in start.streams
        ensures id in end.channels <==> id in start.channels && (id in start.streams ==> !FullyDone(end.streams[id]))
      {
        PassDropsDone(start, end, id);
      }
      CleanupDoneStreams();
    }
  }
}
