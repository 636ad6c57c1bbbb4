/**
 The acknowledgments an HTTP/3 endpoint writes on its QPACK decoder stream, and the Known
 Received Count a peer computes from them (section 2.1.4 of RFC 9204).
 */
module DecoderStreams {
  import opened Bytes
  import opened PrefixInteger
  import opened DynamicTables
  import opened RequiredInsertCounts
  import opened QpackEncoding
  import opened QpackRoundTrip
  import opened EncoderStreamCuts
  import opened QpackReferences
  import Q = QpackDecoding

  // ---------- our side ----------

  /** Table, remembered Required Insert Count, and the bytes written on the decoder stream. */
  datatype State = State(table: Table, last: nat, sent: seq<Byte>)

  const START := State(EMPTY, 0, [])

  /** Instructions from the peer's encoder: an increment is sent only if the batch did not raise. */
  function OnEncoderData(env: Q.Env, s: State, data: seq<Byte>): State {
    var r := Q.Replay(env, s.table, data);
    var added := r.table.Inserted() - s.table.Inserted();
    var sent := if r.ok && added > 0 then s.sent + Encode(added, 6, 0x00) else s.sent;
    s.(table := r.table, sent := sent)
  }

  function LastRequired(s: State, block: seq<Byte>): nat { Q.Remembered(s.table, s.last, block) }

  /** A decoded section is acknowledged when the remembered count is positive. */
  function OnSection(env: Q.Env, s: State, sid: Option<nat>, block: seq<Byte>): State {
    var last := LastRequired(s, block);
    if Q.DecodeBlock(env, s.table, block).Headers? && sid.Some? && last > 0
    then s.(last := last, sent := s.sent + Encode(sid.value, 7, 0x80))
    else s.(last := last)
  }

  // ---------- the peer's side ----------

  datatype Ack = SectionAck(sid: nat) | Cancellation(sid: nat) | Increment(count: nat)

  function ParseOne(bs: seq<Byte>): (r: Read<Ack>)
    requires bs != []
    ensures r.Got? ==> |r.rest| < |bs|
  {
    var b, tail := bs[0], bs[1..];
    if b >= 128 then var (sid, rest) :- Decode(b, 7, tail); Got(SectionAck(sid), rest)
    else if b >= 64 then var (sid, rest) :- Decode(b, 6, tail); Got(Cancellation(sid), rest)
    else var (n, rest) :- Decode(b, 6, tail); Got(Increment(n), rest)
  }

  /** All instructions of the stream, if every one of them is complete. */
  function ParseAll(bs: seq<Byte>): Option<seq<Ack>>
    decreases |bs|
  {
    if bs == [] then Some([])
    else match ParseOne(bs)
      case Raised => None
      case Got(a, rest) =>
        match ParseAll(rest)
        case None => None
        case Some(later) => Some([a] + later)
  }

  /**
   What the peer's encoder keeps: its Known Received Count, and for every stream the positive
   Required Insert Counts of the sections it sent there and has no acknowledgment for.
   */
  datatype Peer = Peer(known: nat, queues: map<nat, seq<nat>>)

  function Queue<T>(queues: map<nat, seq<T>>, sid: nat): seq<T> { if sid in queues then queues[sid] else [] }

  /**
   Sections 2.1.4 and 4.4 of RFC 9204: an acknowledgment is for the oldest such section of its
   stream; one for which there is no section is a connection error.
   */
  function Hear(p: Peer, a: Ack): Option<Peer> {
    match a
    case Increment(n) => Some(p.(known := p.known + n))
    case Cancellation(sid) => Some(p.(queues := p.queues[sid := []]))
    case SectionAck(sid) =>
      var q := Queue(p.queues, sid);
      if q == [] then None else Some(Peer(Max(p.known, q[0]), p.queues[sid := q[1..]]))
  }

  function HearAll(p: Peer, acks: seq<Ack>): Option<Peer> {
    if acks == [] then Some(p)
    else match HearAll(p, acks[..|acks| - 1])
      case None => None
      case Some(q) => Hear(q, acks[|acks| - 1])
  }

  /** The peer after it has read all of `sent`, when it has sent sections with these counts; none if it closes. */
  function View(sent: seq<Byte>, queues: map<nat, seq<nat>>): Option<Peer> {
    match ParseAll(sent)
    case None => None
    case Some(acks) => HearAll(Peer(0, queues), acks)
  }

  lemma {:induction false} ParseAllSnoc(bs: seq<Byte>, more: seq<Byte>, a: Ack)
    requires ParseAll(bs).Some? && more != [] && ParseOne(more) == Got(a, [])
    ensures ParseAll(bs + more) == Some(ParseAll(bs).value + [a])
    decreases |bs|
  {
    if bs == [] {
      assert bs + more == more;
      assert [a] + [] == [a] == [] + [a];
    } else {
      ParseOneAppend(bs, more);
      var first := ParseOne(bs);
      ParseAllSnoc(first.rest, more, a);
      Assoc([first.value], ParseAll(first.rest).value, [a]);
    }
  }

  lemma {:induction false} DecodeTailAppend(acc: nat, bs: seq<Byte>, shift: nat, more: seq<Byte>)
    requires DecodeTail(acc, bs, shift).Got?
    ensures DecodeTail(acc, bs + more, shift)
         == Got(DecodeTail(acc, bs, shift).value, DecodeTail(acc, bs, shift).rest + more)
    decreases |bs|
  {
    assert (bs + more)[0] == bs[0] && (bs + more)[1..] == bs[1..] + more;
    if bs[0] >= 128 {
      DecodeTailAppend(acc + bs[0] % 128 * Pow2(shift) % U64, bs[1..], shift + 7, more);
    }
  }

  lemma ParseOneAppend(bs: seq<Byte>, more: seq<Byte>)
    requires bs != [] && ParseOne(bs).Got?
    ensures ParseOne(bs + more) == Got(ParseOne(bs).value, ParseOne(bs).rest + more)
  {
    var b, tail := bs[0], bs[1..];
    assert (bs + more)[0] == b && (bs + more)[1..] == tail + more;
    var n := if b >= 128 then 7 else 6;
    if b % (Mask(n) + 1) == Mask(n) {
      DecodeTailAppend(Mask(n), tail, 0, more);
    }
  }

  lemma AckHeard(sent: seq<Byte>, queues: map<nat, seq<nat>>, more: seq<Byte>, a: Ack)
    requires View(sent, queues).Some? && more != [] && ParseOne(more) == Got(a, [])
    ensures View(sent + more, queues) == Hear(View(sent, queues).value, a)
  {
    hide ParseOne, Hear;
    ParseAllSnoc(sent, more, a);
    var acks := ParseAll(sent).value;
    assert (acks + [a])[..|acks|] == acks;
  }

  lemma IncrementHeard(sent: seq<Byte>, queues: map<nat, seq<nat>>, n: nat)
    requires View(sent, queues).Some? && n < U64
    ensures var p := View(sent, queues).value;
      View(sent + Encode(n, 6, 0x00), queues) == Some(p.(known := p.known + n))
  {
    hide View;
    assert Encode(n, 6, 0x00) + [] == Encode(n, 6, 0x00);
    EncodeDecode(n, 6, 0x00, []);
    AckHeard(sent, queues, Encode(n, 6, 0x00), Increment(n));
  }

  lemma SectionAckHeard(sent: seq<Byte>, queues: map<nat, seq<nat>>, sid: nat)
    requires View(sent, queues).Some? && sid < U64
    ensures View(sent + Encode(sid, 7, 0x80), queues) == Hear(View(sent, queues).value, SectionAck(sid))
  {
    hide View, Hear;
    assert Encode(sid, 7, 0x80) + [] == Encode(sid, 7, 0x80);
    EncodeDecode(sid, 7, 0x80, []);
    AckHeard(sent, queues, Encode(sid, 7, 0x80), SectionAck(sid));
  }

  function Push<T>(queues: map<nat, seq<T>>, sid: nat, x: seq<T>): map<nat, seq<T>> {
    queues[sid := Queue(queues, sid) + x]
  }

  predicate NoCancellation(acks: seq<Ack>) { forall i :: 0 <= i < |acks| ==> !acks[i].Cancellation? }

  lemma HearPushed(p: Peer, a: Ack, sid: nat, x: seq<nat>)
    requires Hear(p, a).Some? && !a.Cancellation?
    ensures var q := Hear(p, a).value;
      Hear(p.(queues := Push(p.queues, sid, x)), a) == Some(q.(queues := Push(q.queues, sid, x)))
  {
    if a.SectionAck? {
      var q, old' := Hear(p, a).value, Queue(p.queues, a.sid);
      assert (old' + x)[1..] == old'[1..] + x;
      assert Push(p.queues, sid, x)[a.sid := Queue(Push(p.queues, sid, x), a.sid)[1..]] == Push(q.queues, sid, x);
    }
  }

  /** A section sent later waits behind the others and changes nothing for what was read before. */
  lemma {:induction false} HearAllPushed(p: Peer, acks: seq<Ack>, sid: nat, x: seq<nat>)
    requires HearAll(p, acks).Some? && NoCancellation(acks)
    ensures var q := HearAll(p, acks).value;
      HearAll(p.(queues := Push(p.queues, sid, x)), acks) == Some(q.(queues := Push(q.queues, sid, x)))
    decreases |acks|
  {
    if acks != [] {
      hide Hear;
      var n := |acks| - 1;
      HearAllPushed(p, acks[..n], sid, x);
      HearPushed(HearAll(p, acks[..n]).value, acks[n], sid, x);
    }
  }

  // ---------- both sides ----------

  /** A field section as its sender knows it: the bytes, and the Required Insert Count they stand for. */
  datatype Section = Section(block: seq<Byte>, count: nat)

  /**
   Our endpoint, the counts of all sections the peer ever sent, the sections of each stream that
   are not decoded yet, and the streams that are not read any more.
   */
  datatype Link = Link(
    ours: State, queues: map<nat, seq<nat>>, flight: map<nat, seq<Section>>, abandoned: set<nat>)

  const IDLE := Link(START, map[], map[], {})

  datatype Event =
    | EncoderData(data: seq<Byte>)
    | PeerSends(sid: nat, section: Section)
    | Attempt(sid: nat)

  /** Sections with a count of zero refer to no entry and are not acknowledged. */
  function CountOf(s: Section): seq<nat> { if s.count > 0 then [s.count] else [] }

  function Counts(sections: seq<Section>): seq<nat> { FlatMap(CountOf, sections) }

  /** The next section of a stream, if it is still read. */
  predicate Waiting(l: Link, sid: nat) { sid !in l.abandoned && Queue(l.flight, sid) != [] }

  function Head(l: Link, sid: nat): Section
    requires Waiting(l, sid)
  {
    Queue(l.flight, sid)[0]
  }

  /** `named` tells which streams are read through a socket that knows its stream id. */
  function IdOf(named: set<nat>, sid: nat): Option<nat> { if sid in named then Some(sid) else None }

  /** One attempt at the next section; after an exception nobody reads the stream again. */
  function OnAttempt(env: Q.Env, named: set<nat>, l: Link, sid: nat): Link
    requires Waiting(l, sid)
  {
    var block := Head(l, sid).block;
    var next := l.(ours := OnSection(env, l.ours, IdOf(named, sid), block));
    match Q.DecodeBlock(env, l.ours.table, block)
    case Headers(_) => next.(flight := l.flight[sid := Queue(l.flight, sid)[1..]])
    case Blocked(_) => next
    case _ => next.(abandoned := l.abandoned + {sid})
  }

  function Next(env: Q.Env, named: set<nat>, l: Link, e: Event): Link {
    match e
    case EncoderData(data) => l.(ours := OnEncoderData(env, l.ours, data))
    case PeerSends(sid, section) =>
      l.(queues := Push(l.queues, sid, CountOf(section)), flight := Push(l.flight, sid, [section]))
    case Attempt(sid) => if Waiting(l, sid) then OnAttempt(env, named, l, sid) else l
  }

  function Run(env: Q.Env, named: set<nat>, events: seq<Event>): Link {
    if events == [] then IDLE
    else Next(env, named, Run(env, named, events[..|events| - 1]), events[|events| - 1])
  }

  /** The section's bytes carry its count, as section 4.5.1.1 of RFC 9204 writes it for this table. */
  ghost predicate Carries(t: Table, s: Section) {
    Recoverable(t, s.count) && WriteCount(MaxEntries(t.capacity), s.count) <= s.block
  }

  /**
   Counts and stream ids stay within 64 bits; an empty section stands for no count; any other
   that is decoded carries its count.  Sections that raise or block may hold anything.
   */
  ghost predicate Legal(env: Q.Env, l: Link, e: Event) {
    match e
    case EncoderData(data) => Q.Replay(env, l.ours.table, data).table.Inserted() < U64
    case PeerSends(sid, section) => sid < U64 && (section.block == [] ==> section.count == 0)
    case Attempt(sid) =>
      Waiting(l, sid) ==>
        var s := Head(l, sid);
        && sid < U64 && (s.block == [] ==> s.count == 0)
        && (s.block != [] && Q.DecodeBlock(env, l.ours.table, s.block).Headers? ==> Carries(l.ours.table, s))
  }

  function PeerOf(l: Link): Option<Peer> { View(l.ours.sent, l.queues) }

  /** What the peer waits for on a stream is exactly what we have not decoded there. */
  ghost predicate InStep(named: set<nat>, l: Link, p: Peer) {
    forall sid :: sid in named && sid !in l.abandoned ==> Queue(p.queues, sid) == Counts(Queue(l.flight, sid))
  }

  /**
   The peer can read all we wrote, every acknowledgment met a section that we have decoded, and
   its count is one of entries that have arrived.
   */
  ghost predicate Exact(named: set<nat>, l: Link) {
    PeerOf(l).Some? && InStep(named, l, PeerOf(l).value) && PeerOf(l).value.known <= l.ours.table.Inserted()
  }

  /** An empty section is decoded while the remembered count of some earlier section is positive. */
  predicate Stale(named: set<nat>, l: Link, e: Event) {
    e.Attempt? && Waiting(l, e.sid) && Head(l, e.sid).block == [] && e.sid in named && l.ours.last > 0
  }

  predicate Raises(env: Q.Env, l: Link, e: Event) { e.EncoderData? && !Q.Replay(env, l.ours.table, e.data).ok }

  /** We never cancel a stream. */
  ghost predicate NeverCancels(l: Link) {
    ParseAll(l.ours.sent).Some? && NoCancellation(ParseAll(l.ours.sent).value)
  }

  // ---------- one step ----------

  lemma EncoderDataHeard(env: Q.Env, s: State, queues: map<nat, seq<nat>>, data: seq<Byte>)
    requires View(s.sent, queues).Some? && Q.Replay(env, s.table, data).table.Inserted() < U64
    ensures var n, p := OnEncoderData(env, s, data), View(s.sent, queues).value;
      var added := n.table.Inserted() - s.table.Inserted();
      && added >= 0
      && View(n.sent, queues) == Some(p.(known := if Q.Replay(env, s.table, data).ok then p.known + added else p.known))
  {
    hide Q.Replay, Encode, View;
    ReplayExtends(env, s.table, data);
    IncrementHeard(s.sent, queues, Q.Replay(env, s.table, data).table.Inserted() - s.table.Inserted());
  }

  lemma SendHeard(l: Link, sid: nat, section: Section)
    requires PeerOf(l).Some? && NeverCancels(l)
    ensures var p := PeerOf(l).value;
      View(l.ours.sent, Push(l.queues, sid, CountOf(section)))
      == Some(p.(queues := Push(p.queues, sid, CountOf(section))))
  {
    HearAllPushed(Peer(0, l.queues), ParseAll(l.ours.sent).value, sid, CountOf(section));
  }

  lemma SendExact(env: Q.Env, named: set<nat>, l: Link, sid: nat, section: Section)
    requires Exact(named, l) && NeverCancels(l)
    ensures Exact(named, Next(env, named, l, PeerSends(sid, section)))
    ensures PeerOf(Next(env, named, l, PeerSends(sid, section))).value.known == PeerOf(l).value.known
  {
    hide View, NeverCancels;
    SendHeard(l, sid, section);
    FlatMapAppend(CountOf, Queue(l.flight, sid), [section]);
    FlatMapOne(CountOf, section);
  }

  /** A section that carries its count is remembered with it. */
  lemma RememberedIsCarried(env: Q.Env, s: State, section: Section)
    requires Carries(s.table, section)
    ensures section.block != [] && LastRequired(s, section.block) == section.count
  {
    hide WriteCount, Decode, Reconstruct;
    var prefix := WriteCount(MaxEntries(s.table.capacity), section.count);
    var body := section.block[|prefix|..];
    assert section.block == prefix + body;
    CountDecoded(s.table, section.count, body);
  }

  lemma DecodedMeansAvailable(env: Q.Env, s: State, block: seq<Byte>)
    requires block != [] && Q.DecodeBlock(env, s.table, block).Headers?
    ensures LastRequired(s, block) <= s.table.Inserted()
  {
    hide Q.DecodeLines, Decode, Reconstruct;
  }

  /** The peer after our acknowledgment of stream `sid`. */
  lemma AttemptHeard(env: Q.Env, named: set<nat>, l: Link, sid: nat)
    requires PeerOf(l).Some? && Waiting(l, sid) && sid < U64
    ensures var block, n := Head(l, sid).block, OnAttempt(env, named, l, sid);
      PeerOf(n) == if Q.DecodeBlock(env, l.ours.table, block).Headers? && sid in named && n.ours.last > 0
                   then Hear(PeerOf(l).value, SectionAck(sid)) else PeerOf(l)
  {
    hide View, Hear, Q.DecodeBlock, Q.Remembered;
    SectionAckHeard(l.ours.sent, l.queues, sid);
  }

  /** Taking the head off both sides keeps them in step; off one side only, it does not. */
  lemma AttemptExactIff(env: Q.Env, named: set<nat>, l: Link, sid: nat)
    requires Exact(named, l) && Waiting(l, sid) && Legal(env, l, Attempt(sid))
    ensures var n := OnAttempt(env, named, l, sid);
      && (Exact(named, n) <==> !Stale(named, l, Attempt(sid)))
      && (Exact(named, n) ==> PeerOf(n).value.known >= PeerOf(l).value.known)
  {
    hide View, Q.DecodeBlock, Q.Remembered, Carries;
    var s, n := Head(l, sid), OnAttempt(env, named, l, sid);
    AttemptHeard(env, named, l, sid);
    CountsHead(Queue(l.flight, sid));
    if Q.DecodeBlock(env, l.ours.table, s.block).Headers? {
      DecodedHead(env, l.ours, s);
    } else {
      EmptyDecodes(env, l.ours.table);
    }
  }

  lemma EmptyDecodes(env: Q.Env, t: Table)
    ensures Q.DecodeBlock(env, t, []).Headers?
  {
  }

  lemma CountsHead(sections: seq<Section>)
    requires sections != []
    ensures Counts(sections) == CountOf(sections[0]) + Counts(sections[1..])
  {
  }

  /** What is remembered after a section is decoded. */
  lemma DecodedHead(env: Q.Env, s: State, section: Section)
    requires Q.DecodeBlock(env, s.table, section.block).Headers?
    requires section.block == [] ==> section.count == 0
    requires section.block != [] ==> Carries(s.table, section)
    ensures var last := LastRequired(s, section.block);
      if section.block == [] then last == s.last else last == section.count <= s.table.Inserted()
  {
    hide Q.DecodeBlock, Carries;
    if section.block != [] {
      RememberedIsCarried(env, s, section);
      DecodedMeansAvailable(env, s, section.block);
    }
  }

  lemma StepExactIff(env: Q.Env, named: set<nat>, l: Link, e: Event)
    requires Exact(named, l) && NeverCancels(l) && Legal(env, l, e)
    ensures var n := Next(env, named, l, e);
      && (Exact(named, n) <==> !Stale(named, l, e))
      && (PeerOf(l).value.known == l.ours.table.Inserted() && !Raises(env, l, e) && !Stale(named, l, e) ==>
            PeerOf(n).value.known == n.ours.table.Inserted())
  {
    hide View, Q.DecodeBlock, Q.Replay, NeverCancels;
    match e
    case EncoderData(data) => EncoderDataHeard(env, l.ours, l.queues, data);
    case PeerSends(sid, section) => SendExact(env, named, l, sid, section);
    case Attempt(sid) =>
      if Waiting(l, sid) {
        AttemptExactIff(env, named, l, sid);
        SectionKeepsTable(env, l.ours, IdOf(named, sid), Head(l, sid).block);
      }
  }

  lemma SectionKeepsTable(env: Q.Env, s: State, sid: Option<nat>, block: seq<Byte>)
    ensures OnSection(env, s, sid, block).table == s.table
  {
    hide Q.DecodeBlock;
  }

  lemma WrittenParses(sent: seq<Byte>, more: seq<Byte>, a: Ack)
    requires ParseAll(sent).Some? && NoCancellation(ParseAll(sent).value)
    requires more != [] && ParseOne(more) == Got(a, []) && !a.Cancellation?
    ensures ParseAll(sent + more).Some? && NoCancellation(ParseAll(sent + more).value)
  {
    hide ParseOne;
    ParseAllSnoc(sent, more, a);
  }

  lemma StepNeverCancels(env: Q.Env, named: set<nat>, l: Link, e: Event)
    requires NeverCancels(l) && Legal(env, l, e)
    ensures NeverCancels(Next(env, named, l, e))
  {
    hide ParseAll, Q.DecodeBlock, Q.Replay, Q.Remembered, Carries;
    match e
    case PeerSends(_, _) =>
    case EncoderData(data) =>
      var r := Q.Replay(env, l.ours.table, data);
      var added := r.table.Inserted() - l.ours.table.Inserted();
      ReplayExtends(env, l.ours.table, data);
      EncodeDecode(added, 6, 0x00, []);
      assert Encode(added, 6, 0x00) + [] == Encode(added, 6, 0x00);
      WrittenParses(l.ours.sent, Encode(added, 6, 0x00), Increment(added));
    case Attempt(sid) =>
      if Waiting(l, sid) {
        EncodeDecode(sid, 7, 0x80, []);
        assert Encode(sid, 7, 0x80) + [] == Encode(sid, 7, 0x80);
        WrittenParses(l.ours.sent, Encode(sid, 7, 0x80), SectionAck(sid));
      }
  }

  // ---------- whole runs ----------

  ghost predicate AllLegal(env: Q.Env, named: set<nat>, events: seq<Event>) {
    forall i {:trigger events[i]} :: 0 <= i < |events| ==> Legal(env, Run(env, named, events[..i]), events[i])
  }

  ghost predicate NoBatchRaised(env: Q.Env, named: set<nat>, events: seq<Event>) {
    forall i {:trigger events[i]} :: 0 <= i < |events| ==> !Raises(env, Run(env, named, events[..i]), events[i])
  }

  ghost predicate NoneStale(env: Q.Env, named: set<nat>, events: seq<Event>) {
    forall i {:trigger events[i]} :: 0 <= i < |events| ==> !Stale(named, Run(env, named, events[..i]), events[i])
  }

  lemma Prefixes(env: Q.Env, named: set<nat>, events: seq<Event>, n: nat)
    requires n <= |events|
    ensures AllLegal(env, named, events) ==> AllLegal(env, named, events[..n])
    ensures NoBatchRaised(env, named, events) ==> NoBatchRaised(env, named, events[..n])
    ensures NoneStale(env, named, events) ==> NoneStale(env, named, events[..n])
  {
    assert forall i :: 0 <= i < n ==> events[..n][i] == events[i] && events[..n][..i] == events[..i];
  }

  lemma {:induction false} RunNeverCancels(env: Q.Env, named: set<nat>, events: seq<Event>)
    requires AllLegal(env, named, events)
    ensures NeverCancels(Run(env, named, events))
    decreases |events|
  {
    hide Next, Legal;
    if events != [] {
      var n := |events| - 1;
      Prefixes(env, named, events, n);
      RunNeverCancels(env, named, events[..n]);
      StepNeverCancels(env, named, Run(env, named, events[..n]), events[n]);
    }
  }

  /**
   Over any interleaving of the peer's sections on any number of streams, attempts at them,
   blocked and failing ones included, and encoder-stream batches: unless an empty section is
   decoded while an earlier count is remembered, the peer has at every point an unacknowledged
   section for each acknowledgment, it waits for exactly the sections we have not decoded, it
   never counts an entry that has not arrived, and if no batch raised it counts them all.
   */
  lemma {:induction false} KnownReceivedCount(env: Q.Env, named: set<nat>, events: seq<Event>)
    requires AllLegal(env, named, events) && NoneStale(env, named, events)
    ensures var l := Run(env, named, events);
      && Exact(named, l)
      && (NoBatchRaised(env, named, events) ==> PeerOf(l).value.known == l.ours.table.Inserted())
    decreases |events|
  {
    hide Next, Legal, Raises, Stale;
    if events != [] {
      var n := |events| - 1;
      Prefixes(env, named, events, n);
      KnownReceivedCount(env, named, events[..n]);
      RunNeverCancels(env, named, events[..n]);
      StepExactIff(env, named, Run(env, named, events[..n]), events[n]);
    }
  }

  /** And that condition is exact. */
  lemma ExactIff(env: Q.Env, named: set<nat>, events: seq<Event>)
    requires AllLegal(env, named, events)
    ensures (forall i :: 0 <= i <= |events| ==> Exact(named, Run(env, named, events[..i])))
       <==> NoneStale(env, named, events)
  {
    hide Exact, Next, Legal, Stale;
    if NoneStale(env, named, events) {
      forall i | 0 <= i <= |events| ensures Exact(named, Run(env, named, events[..i])) {
        Prefixes(env, named, events, i);
        KnownReceivedCount(env, named, events[..i]);
      }
    }
    if forall i :: 0 <= i <= |events| ==> Exact(named, Run(env, named, events[..i])) {
      forall i | 0 <= i < |events| ensures !Stale(named, Run(env, named, events[..i]), events[i]) {
        Prefixes(env, named, events, i);
        RunNeverCancels(env, named, events[..i]);
        StepExactIff(env, named, Run(env, named, events[..i]), events[i]);
        assert events[..i + 1][..i] == events[..i];
        assert Exact(named, Run(env, named, events[..i + 1]));
      }
    }
  }

  // ---------- what a stale acknowledgment does ----------

  /**
   An empty section decoded while an earlier count is remembered: the peer closes the connection
   if it has no unacknowledged section on that stream, and otherwise takes the acknowledgment for
   the next one, counting entries that have not arrived exactly if that section needs more.
   */
  lemma StaleExactly(env: Q.Env, named: set<nat>, l: Link, sid: nat)
    requires Exact(named, l) && Stale(named, l, Attempt(sid)) && sid < U64
    ensures OnAttempt(env, named, l, sid).ours.table == l.ours.table
    ensures var behind, n := Counts(Queue(l.flight, sid)), OnAttempt(env, named, l, sid);
      if behind == [] then PeerOf(n) == None
      else
        && PeerOf(n).Some? && PeerOf(n).value.known == Max(PeerOf(l).value.known, behind[0])
        && (PeerOf(n).value.known <= n.ours.table.Inserted() <==> behind[0] <= l.ours.table.Inserted())
  {
    hide View, Q.DecodeBlock;
    AttemptHeard(env, named, l, sid);
    EmptyDecodes(env, l.ours.table);
    SectionKeepsTable(env, l.ours, IdOf(named, sid), Head(l, sid).block);
  }

  /** A section that blocks on one stream makes an empty section on any other stream stale. */
  lemma BlockedThenEmpty(env: Q.Env, named: set<nat>, l: Link, first: nat, r: nat, second: nat)
    requires Waiting(l, first) && Waiting(l, second) && first != second && second in named
    requires Q.DecodeBlock(env, l.ours.table, Head(l, first).block) == Q.Blocked(r) && Head(l, second).block == []
    ensures Stale(named, Next(env, named, l, Attempt(first)), Attempt(second))
  {
    hide Q.DecodeBlock, Q.Remembered;
    BlockedRemembers(env, l.ours, Head(l, first).block, r);
  }

  lemma BlockedRemembers(env: Q.Env, s: State, block: seq<Byte>, r: nat)
    requires Q.DecodeBlock(env, s.table, block) == Q.Blocked(r)
    ensures LastRequired(s, block) == r > s.table.Inserted()
  {
    hide Q.DecodeLines, Decode, Reconstruct;
    if block != [] {
      var count := Decode(block[0], 8, block[1..]);
      if count.Got? {
        var required := Reconstruct(s.table.capacity, s.table.Inserted(), count.value);
        if required.Some? && required.value <= s.table.Inserted() {
          BodyNeverBlocks(env, s.table, required.value, count.rest);
        }
      }
    }
  }

  lemma BodyNeverBlocks(env: Q.Env, t: Table, required: nat, bs: seq<Byte>)
    requires required <= t.Inserted()
    ensures !Q.DecodeBody(env, t, required, bs).Blocked?
  {
    hide Q.DecodeLines, Decode;
    if bs != [] {
      var delta := Decode(bs[0], 7, bs[1..]);
      if delta.Got? {
        var base := Q.BaseOf(required, bs[0] >= 128, delta.value);
        if base.Some? {
          LinesNeverBlock(env, t, base.value, delta.rest, Q.START);
        }
      }
    }
  }

  lemma {:induction false} LinesNeverBlock(env: Q.Env, t: Table, base: nat, bs: seq<Byte>, section: Q.Section)
    ensures !Q.DecodeLines(env, t, base, bs, section).Blocked?
    decreases |bs|
  {
    hide Q.DecodeLine, Q.Accept;
    if bs != [] {
      var f := Q.DecodeLine(env, t, base, bs);
      if f.Got? {
        var next := Q.Accept(section, f.value);
        if next.Some? {
          LinesNeverBlock(env, t, base, f.rest, next.value);
        }
      }
    }
  }

  // ---------- the shortest runs on a new connection ----------

  /** `[2, 0]` needs one entry. */
  lemma NeedsOne(env: Q.Env, t: Table)
    requires t.capacity == 0 && t.Inserted() <= 1
    ensures Q.DecodeBlock(env, t, [2, 0])
         == if t.Inserted() == 0 then Q.Blocked(1) else Q.Headers([])
    ensures Q.Remembered(t, 0, [2, 0]) == 1
  {
    var bs: seq<Byte>, body: seq<Byte> := [2, 0], [0];
    assert bs[1..] == body && body[1..] == [];
    assert Decode(2, 8, body) == Got(2, body);
    assert Reconstruct(0, t.Inserted(), 2) == Some(1);
    assert Decode(0, 7, []) == Got(0, []);
  }

  lemma RunAt(env: Q.Env, named: set<nat>, es: seq<Event>, i: nat)
    requires i < |es|
    ensures Run(env, named, es[..i + 1]) == Next(env, named, Run(env, named, es[..i]), es[i])
  {
    hide Next;
    assert es[..i + 1][..i] == es[..i];
  }

  lemma RunNone(env: Q.Env, named: set<nat>)
    ensures Run(env, named, []) == IDLE
  {
  }

  const NEEDS_ONE := Section([2, 0], 1)
  const NO_BYTES := Section([], 0)

  /** The peer after these sections, when it was up to date before. */
  lemma SentExact(env: Q.Env, named: set<nat>, l: Link, later: Section)
    requires Exact(named, l) && NeverCancels(l)
    ensures var a := Next(env, named, Next(env, named, l, PeerSends(0, NEEDS_ONE)), PeerSends(4, NO_BYTES));
      var b := Next(env, named, a, PeerSends(4, later));
      && a.ours == b.ours == l.ours && a.abandoned == b.abandoned == l.abandoned
      && Queue(a.flight, 0) == Queue(b.flight, 0) == Queue(l.flight, 0) + [NEEDS_ONE]
      && Queue(a.flight, 4) == Queue(l.flight, 4) + [NO_BYTES]
      && Queue(b.flight, 4) == Queue(l.flight, 4) + [NO_BYTES] + [later]
      && Exact(named, a) && Exact(named, b) && PeerOf(b).value.known == PeerOf(l).value.known
  {
    hide Exact, PeerOf, NeverCancels;
    var m := Next(env, named, l, PeerSends(0, NEEDS_ONE));
    var a := Next(env, named, m, PeerSends(4, NO_BYTES));
    SendExact(env, named, l, 0, NEEDS_ONE);
    SameBytes(l, m);
    SendExact(env, named, m, 4, NO_BYTES);
    SameBytes(m, a);
    SendExact(env, named, a, 4, later);
  }

  lemma SameBytes(l: Link, m: Link)
    requires l.ours == m.ours && NeverCancels(l)
    ensures NeverCancels(m)
  {
  }

  lemma IdleExact(named: set<nat>)
    ensures Exact(named, IDLE) && NeverCancels(IDLE)
  {
  }

  /** Nothing has arrived: stream 0 blocks, stream 4 sends an empty section, and the peer closes. */
  lemma PeerCloses(env: Q.Env)
    ensures var l := Run(env, {0, 4}, [PeerSends(0, NEEDS_ONE), PeerSends(4, NO_BYTES), Attempt(0), Attempt(4)]);
      PeerOf(l) == None
  {
    hide Q.DecodeBlock, Q.Remembered, View, Exact, NeverCancels, OnAttempt, Push;
    var named, es := {0, 4}, [PeerSends(0, NEEDS_ONE), PeerSends(4, NO_BYTES), Attempt(0), Attempt(4)];
    IdleExact(named);
    SentExact(env, named, IDLE, NO_BYTES);
    var l := Next(env, named, Next(env, named, IDLE, es[0]), es[1]);
    assert Queue(l.flight, 0) == [NEEDS_ONE] && Queue(l.flight, 4) == [NO_BYTES];
    NeedsOne(env, EMPTY);
    BlockedKeeps(env, named, l, 0);
    BlockedThenEmpty(env, named, l, 0, 1, 4);
    FlatMapOne(CountOf, NO_BYTES);
    StaleExactly(env, named, Next(env, named, l, Attempt(0)), 4);
    FourSteps(env, named, es);
  }

  lemma FourSteps(env: Q.Env, named: set<nat>, es: seq<Event>)
    requires |es| >= 4
    ensures var l := Next(env, named, Next(env, named, IDLE, es[0]), es[1]);
      Run(env, named, es[..4]) == Next(env, named, Next(env, named, l, es[2]), es[3])
    ensures |es| == 4 ==> es[..4] == es
  {
    hide Next, Run;
    RunNone(env, named);
    assert es[..0] == [];
    RunAt(env, named, es, 0);
    RunAt(env, named, es, 1);
    RunAt(env, named, es, 2);
    RunAt(env, named, es, 3);
  }

  /** A blocked attempt changes nothing but the remembered count. */
  lemma BlockedKeeps(env: Q.Env, named: set<nat>, l: Link, sid: nat)
    requires Waiting(l, sid) && Q.DecodeBlock(env, l.ours.table, Head(l, sid).block).Blocked?
    ensures var n := Next(env, named, l, Attempt(sid));
      && n == l.(ours := l.ours.(last := n.ours.last)) && (Exact(named, n) <==> Exact(named, l))
  {
    hide Q.DecodeBlock, Q.Remembered, View;
  }

  /** The bytes of one insertion. */
  const ONE_INSERTION: seq<Byte> := [0x41, 97, 0x01, 98]

  lemma OneArrived(env: Q.Env, named: set<nat>)
    ensures var l := Next(env, named, IDLE, EncoderData(ONE_INSERTION));
      && l.ours.table.capacity == 0 && l.ours.table.Inserted() == 1 && l.ours.last == 0
      && l.flight == map[] && l.abandoned == {}
      && Exact(named, l) && NeverCancels(l) && PeerOf(l).value.known == 1
  {
    hide Q.Instruction, View, NeverCancels;
    OneInsertion(env, []);
    assert ONE_INSERTION + [] == ONE_INSERTION;
    AddExtends(EMPTY, Field([97], [98]));
    assert Q.Replay(env, EMPTY, ONE_INSERTION) == Q.Replay(env, EMPTY.Add(Field([97], [98])), []);
    IdleExact(named);
    IdleKnows(named);
    StepExactIff(env, named, IDLE, EncoderData(ONE_INSERTION));
    StepNeverCancels(env, named, IDLE, EncoderData(ONE_INSERTION));
  }

  lemma IdleKnows(named: set<nat>)
    ensures PeerOf(IDLE) == Some(Peer(0, map[]))
  {
  }

  /** A section that is decoded and acknowledged in step leaves the other streams alone. */
  lemma DecodedKeeps(env: Q.Env, named: set<nat>, l: Link, sid: nat, other: nat)
    requires Exact(named, l) && Waiting(l, sid) && Legal(env, l, Attempt(sid)) && other != sid
    requires Head(l, sid).block != [] && Q.DecodeBlock(env, l.ours.table, Head(l, sid).block).Headers?
    ensures var n := Next(env, named, l, Attempt(sid));
      && Exact(named, n) && Queue(n.flight, other) == Queue(l.flight, other) && n.abandoned == l.abandoned
      && n.ours.table == l.ours.table && n.ours.last == Head(l, sid).count
      && PeerOf(l).value.known <= PeerOf(n).value.known <= n.ours.table.Inserted()
  {
    hide View, Q.DecodeBlock, Q.Remembered, Carries, InStep;
    AttemptExactIff(env, named, l, sid);
    DecodedHead(env, l.ours, Head(l, sid));
  }

  /** One entry has arrived and is used; the empty section then acknowledges one that needs five. */
  lemma PeerOvercounts(env: Q.Env, block: seq<Byte>)
    ensures var l := Run(env, {0, 4},
        [EncoderData(ONE_INSERTION), PeerSends(0, NEEDS_ONE), PeerSends(4, NO_BYTES), PeerSends(4, Section(block, 5)),
         Attempt(0), Attempt(4)]);
      PeerOf(l).Some? && PeerOf(l).value.known == 5 && l.ours.table.Inserted() == 1
  {
    hide Q.DecodeBlock, Q.Remembered, View, Exact, NeverCancels, OnAttempt, OnEncoderData, Push, Carries;
    var named, later := {0, 4}, Section(block, 5);
    var l0 := Next(env, named, IDLE, EncoderData(ONE_INSERTION));
    OneArrived(env, named);
    SentExact(env, named, l0, later);
    var l3 := Next(env, named, Next(env, named, Next(env, named, l0, PeerSends(0, NEEDS_ONE)), PeerSends(4, NO_BYTES)),
                   PeerSends(4, later));
    assert Queue(l3.flight, 0) == [NEEDS_ONE] && Queue(l3.flight, 4) == [NO_BYTES, later];
    NeedsOne(env, l3.ours.table);
    OneIsCarried(l3.ours.table);
    DecodedKeeps(env, named, l3, 0, 4);
    var l4 := Next(env, named, l3, Attempt(0));
    TwoCounts(later);
    StaleExactly(env, named, l4, 4);
    SixSteps(env, named, [EncoderData(ONE_INSERTION), PeerSends(0, NEEDS_ONE), PeerSends(4, NO_BYTES),
                          PeerSends(4, later), Attempt(0), Attempt(4)]);
  }

  lemma OneIsCarried(t: Table)
    requires t.capacity == 0 && t.Inserted() == 1
    ensures Carries(t, NEEDS_ONE)
  {
    assert WriteCount(128, 1) == [2];
  }

  lemma TwoCounts(later: Section)
    requires later.count > 0
    ensures Counts([NO_BYTES, later]) == [later.count]
  {
    FlatMapOne(CountOf, NO_BYTES);
    FlatMapOne(CountOf, later);
    FlatMapAppend(CountOf, [NO_BYTES], [later]);
    assert [NO_BYTES] + [later] == [NO_BYTES, later];
  }

  lemma SixSteps(env: Q.Env, named: set<nat>, es: seq<Event>)
    requires |es| == 6
    ensures var l := Next(env, named, Next(env, named, Next(env, named, IDLE, es[0]), es[1]), es[2]);
      Run(env, named, es) == Next(env, named, Next(env, named, Next(env, named, l, es[3]), es[4]), es[5])
  {
    hide Next, Run;
    FourSteps(env, named, es);
    RunNone(env, named);
    RunAt(env, named, es, 4);
    RunAt(env, named, es, 5);
    assert es[..6] == es;
  }

  // ---------- batches that raise ----------

  ghost predicate PeerKnows(s: State, queues: map<nat, seq<nat>>, k: nat) {
    View(s.sent, queues).Some? && View(s.sent, queues).value.known == k
  }

  lemma NothingHeard(queues: map<nat, seq<nat>>)
    ensures PeerKnows(START, queues, 0)
  {
  }

  /** A batch whose completed instructions insert something before the next one raises. */
  ghost predicate FailsAfterInserting(env: Q.Env, t: Table, data: seq<Byte>) {
    exists a, b, mid :: data == a + b && FailsAfter(env, t, a, b, mid) && mid.Inserted() > t.Inserted()
  }

  /** The peer is then short by exactly the entries that the completed instructions inserted. */
  lemma ShortByTheInserted(env: Q.Env, s: State, queues: map<nat, seq<nat>>, a: seq<Byte>, b: seq<Byte>, mid: Table)
    requires PeerKnows(s, queues, s.table.Inserted()) && Q.Replay(env, s.table, a + b).table.Inserted() < U64
    requires FailsAfter(env, s.table, a, b, mid)
    ensures var n := OnEncoderData(env, s, a + b);
      && n.table == mid == Q.Replay(env, s.table, a).table
      && var inserted := mid.Inserted() - s.table.Inserted();
         inserted >= 0 && PeerKnows(n, queues, n.table.Inserted() - inserted)
  {
    hide View, Q.Replay, Reaches, Q.Instruction;
    EncoderDataHeard(env, s, queues, a + b);
    FailsAfterExactly(env, s.table, a, b, mid);
  }

  /**
   The condition is exact for one batch: a peer that was up to date stays up to date unless
   the batch is some instructions that insert and then bytes on which an instruction raises.
   */
  lemma UpToDateIff(env: Q.Env, s: State, queues: map<nat, seq<nat>>, data: seq<Byte>)
    requires PeerKnows(s, queues, s.table.Inserted()) && Q.Replay(env, s.table, data).table.Inserted() < U64
    ensures var n := OnEncoderData(env, s, data);
            PeerKnows(n, queues, n.table.Inserted()) <==> !FailsAfterInserting(env, s.table, data)
  {
    hide Q.Replay, Reaches, Q.Instruction, View;
    EncoderDataHeard(env, s, queues, data);
    RaisesIff(env, s.table, data);
    if a, b, mid :| data == a + b && FailsAfter(env, s.table, a, b, mid) {
      FailsAfterExactly(env, s.table, a, b, mid);
    }
    if FailsAfterInserting(env, s.table, data) {
      var a, b, mid :| data == a + b && FailsAfter(env, s.table, a, b, mid) && mid.Inserted() > s.table.Inserted();
      FailsAfterExactly(env, s.table, a, b, mid);
    }
  }

  /** Whatever an encoder has written, followed by an instruction that raises. */
  lemma EncodedThenRaises(env: Q.Env, s: State, queues: map<nat, seq<nat>>, hs: seq<Field>, b: seq<Byte>)
    requires Addressable(s.table) && AllSized(hs) && |env.statics| <= I32
    requires PeerKnows(s, queues, s.table.Inserted())
    requires var out := Pass1(env.statics, s.table, hs);
      && out.table.Inserted() < U64 && b != [] && Q.Instruction(env, out.table, b) == Raised
    ensures var out := Pass1(env.statics, s.table, hs);
      var n := OnEncoderData(env, s, out.instructions + b);
      n.table == out.table && PeerKnows(n, queues, s.table.Inserted())
  {
    hide Q.Instruction, View, Pass1;
    var out := Pass1(env.statics, s.table, hs);
    BatchReplayed(env, s.table, hs, b);
    assert Q.Replay(env, out.table, b) == Q.Replayed(out.table, false);
    EncoderDataHeard(env, s, queues, out.instructions + b);
  }

  /** One insertion and the first byte of a capacity change: one entry arrived, none is announced. */
  lemma OneUnannounced(env: Q.Env, queues: map<nat, seq<nat>>)
    ensures var n := OnEncoderData(env, START, [0x41, 97, 0x01, 98, 0x3F]);
      n.table.Inserted() == 1 && PeerKnows(n, queues, 0)
  {
    hide Q.Instruction, View;
    var data: seq<Byte>, rest: seq<Byte> := [0x41, 97, 0x01, 98, 0x3F], [0x3F];
    var mid := EMPTY.Add(Field([97], [98]));
    AddExtends(EMPTY, Field([97], [98]));
    OneInsertion(env, rest);
    assert data == [0x41, 97, 0x01, 98] + rest;
    CapacityCut(env, mid, 31, 1);
    assert Encode(31, 5, 0x20)[..1] == rest;
    assert Q.Replay(env, EMPTY, data) == Q.Replay(env, mid, rest);
    NothingHeard(queues);
    EncoderDataHeard(env, START, queues, data);
  }

  lemma OneInsertion(env: Q.Env, rest: seq<Byte>)
    ensures Q.Instruction(env, EMPTY, [0x41, 97, 0x01, 98] + rest) == Got(EMPTY.Add(Field([97], [98])), rest)
  {
    hide Q.Instruction;
    var f := Field([97], [98]);
    assert EncodeString(f.name, 5, 0x40) == [0x41, 97] && EncodeString(f.value, 7, 0) == [0x01, 98];
    LiteralReplayed(env, EMPTY, f, rest);
    assert EncodeString(f.name, 5, 0x40) + (EncodeString(f.value, 7, 0) + rest) == [0x41, 97, 0x01, 98] + rest;
  }

  class H3Connection {
    const decoder: Q.Decoder
    var sent: seq<Byte>

    ghost predicate Valid()
      reads this, decoder, decoder.table
    {
      decoder.Valid()
    }

    ghost function Value(): State
      reads this, decoder, decoder.table
    {
      State(decoder.table.Value(), decoder.lastRequired, sent)
    }

    constructor (env: Q.Env)
      ensures Valid() && fresh(decoder) && fresh(decoder.table)
      ensures decoder.env == env && Value() == START
    {
      decoder := new Q.Decoder(env);
      sent := [];
    }

    method ProcessEncoderStream(data: seq<Byte>) returns (ok: bool)
      requires Valid()
      modifies this, decoder.table
      ensures Valid() && Value() == OnEncoderData(decoder.env, old(Value()), data)
      ensures ok == Q.Replay(decoder.env, old(decoder.table.Value()), data).ok
    {
      var prev := decoder.table.insertCount;
      ok := decoder.ProcessEncoderStream(data);
      ReplayExtends(decoder.env, old(decoder.table.Value()), data);
      var added := decoder.table.insertCount - prev;
      if ok && added > 0 {
        var bs := Write(added, 6, 0x00);
        sent := sent + bs;
      }
    }

    /** One attempt at a HEADERS frame; a stream without an id is never acknowledged. */
    method ReadSection(sid: Option<nat>, block: seq<Byte>) returns (r: Q.Outcome)
      requires Valid()
      modifies this, decoder
      ensures Valid() && Value() == OnSection(decoder.env, old(Value()), sid, block)
      ensures r == Q.DecodeBlock(decoder.env, old(decoder.table.Value()), block)
    {
      hide Q.DecodeBlock, Q.Remembered, Encode;
      r := decoder.DecodeHeaders(block);
      if r.Headers? && sid.Some? && decoder.lastRequired > 0 {
        var bs := Write(sid.value, 7, 0x80);
        sent := sent + bs;
      }
    }
  }
}
