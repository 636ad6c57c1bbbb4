/**
 Several QUIC packets in one UDP datagram (section 12.2 of RFC 9000): how they are framed
 when sent, and where the receiver cuts the datagram apart.
 */
module Coalescing {
  import opened Bytes

  // ---------- variable-length integers (section 16 of RFC 9000) ----------

  function Pow256(n: nat): (p: nat)
    ensures p >= 1
  {
    if n == 0 then 1 else 256 * Pow256(n - 1)
  }

  function BigEndian(v: nat, n: nat): (bs: seq<Byte>)
    requires v < Pow256(n)
    ensures |bs| == n
  {
    if n == 0 then [] else BigEndian(v / 256, n - 1) + [v % 256]
  }

  function ValueOf(bs: seq<Byte>): nat {
    if bs == [] then 0 else ValueOf(bs[..|bs| - 1]) * 256 + bs[|bs| - 1]
  }

  lemma {:induction false} BigEndianRoundTrip(v: nat, n: nat)
    requires v < Pow256(n)
    ensures ValueOf(BigEndian(v, n)) == v
  {
    if n > 0 {
      BigEndianRoundTrip(v / 256, n - 1);
      assert BigEndian(v, n)[..n - 1] == BigEndian(v / 256, n - 1);
    }
  }

  const VARINT_LIMIT := 0x4000_0000_0000_0000

  /** The two-bit tag that says how many bytes a value takes. */
  function Tag(width: nat): nat {
    if width == 1 then 0 else if width == 2 then 1 else if width == 4 then 2 else 3
  }

  function WidthOfTag(tag: nat): nat {
    if tag == 0 then 1 else if tag == 1 then 2 else if tag == 2 then 4 else 8
  }

  lemma Powers()
    ensures Pow256(0) == 1 && Pow256(1) == 0x100 && Pow256(3) == 0x100_0000 && Pow256(7) == 0x100_0000_0000_0000
  {
    assert Pow256(1) == 256 && Pow256(2) == 0x1_0000 && Pow256(3) == 0x100_0000;
    assert Pow256(4) == 0x1_0000_0000 && Pow256(5) == 0x100_0000_0000;
    assert Pow256(6) == 0x1_0000_0000_0000 && Pow256(7) == 0x100_0000_0000_0000;
  }

  /** The six high bits share the first byte with the tag; the rest follows big-endian. */
  function VarInt(v: nat): (bs: seq<Byte>)
    requires v < VARINT_LIMIT
    ensures |bs| >= 1
  {
    Powers();
    if v <= 0x3f then Join(v, 0, 1)
    else if v <= 0x3fff then Join(v / 0x100, v % 0x100, 2)
    else if v <= 0x3fff_ffff then Join(v / 0x100_0000, v % 0x100_0000, 4)
    else Join(v / 0x100_0000_0000_0000, v % 0x100_0000_0000_0000, 8)
  }

  function Join(high: nat, low: nat, width: nat): (bs: seq<Byte>)
    requires 1 <= width && high < 64 && low < Pow256(width - 1)
    ensures |bs| == width
  {
    [64 * Tag(width) + high] + BigEndian(low, width - 1)
  }

  /** The high bits moved in front of the `width - 1` bytes that follow. */
  function Shifted(high: nat, width: nat): nat {
    if width == 1 then high
    else if width == 2 then high * 0x100
    else if width == 4 then high * 0x100_0000
    else high * 0x100_0000_0000_0000
  }

  function ReadVarInt(bs: seq<Byte>): (r: Read<nat>)
    ensures r.Got? ==> |r.rest| < |bs|
  {
    if bs == [] then Raised
    else
      var n := WidthOfTag(bs[0] / 64);
      if |bs| < n then Raised
      else Got(Shifted(bs[0] % 64, n) + ValueOf(bs[1..n]), bs[n..])
  }

  lemma JoinRoundTrip(high: nat, low: nat, width: nat, rest: seq<Byte>)
    requires width in {1, 2, 4, 8} && high < 64 && low < Pow256(width - 1)
    ensures ReadVarInt(Join(high, low, width) + rest) == Got(Shifted(high, width) + low, rest)
  {
    var first := 64 * Tag(width) + high;
    assert first % 64 == high && first / 64 == Tag(width);
    BigEndianRoundTrip(low, width - 1);
    ReadBack(first, width - 1, BigEndian(low, width - 1), rest);
  }

  lemma VarIntRoundTrip(v: nat, rest: seq<Byte>)
    requires v < VARINT_LIMIT
    ensures ReadVarInt(VarInt(v) + rest) == Got(v, rest)
  {
    Powers();
    if v <= 0x3f { JoinRoundTrip(v, 0, 1, rest); }
    else if v <= 0x3fff { JoinRoundTrip(v / 0x100, v % 0x100, 2, rest); }
    else if v <= 0x3fff_ffff { JoinRoundTrip(v / 0x100_0000, v % 0x100_0000, 4, rest); }
    else { JoinRoundTrip(v / 0x100_0000_0000_0000, v % 0x100_0000_0000_0000, 8, rest); }
  }

  lemma ReadBack(first: Byte, n: nat, low: seq<Byte>, rest: seq<Byte>)
    requires WidthOfTag(first / 64) == n + 1 && |low| == n
    ensures ReadVarInt([first] + low + rest) == Got(Shifted(first % 64, n + 1) + ValueOf(low), rest)
  {
    var bs := [first] + low + rest;
    assert bs[1..n + 1] == low && bs[n + 1..] == rest;
  }

  // ---------- packets as sent ----------

  datatype Kind = Initial | ZeroRtt | Handshake

  /** The long-header type bits; QUIC version 2 rotates them (section 3.2 of RFC 9369). */
  function TypeBits(kind: Kind, v2: bool): nat {
    var v1 := if kind == Initial then 0 else if kind == ZeroRtt then 1 else 2;
    if v2 then v1 + 1 else v1
  }

  function VersionBytes(v2: bool): seq<Byte> {
    if v2 then [0x6b, 0x33, 0x43, 0xcf] else [0, 0, 0, 1]
  }

  /**
   A long-header packet after protection.  Header protection rewrites only the low four bits
   of the first byte and the four packet number bytes, so these are arbitrary here.
   */
  datatype LongPacket = LongPacket(
    kind: Kind, v2: bool, low: nat, dcid: seq<Byte>, scid: seq<Byte>, token: seq<Byte>,
    number: seq<Byte>, sealed: seq<Byte>)

  /** Connection ids have one-byte lengths; a sealed payload is at least one frame byte and a tag. */
  predicate Sendable(p: LongPacket) {
    && p.low < 16 && |p.dcid| < 256 && |p.scid| < 256 && |p.number| == 4
    && 17 <= |p.sealed| && |p.sealed| + 4 < VARINT_LIMIT && |p.token| < VARINT_LIMIT
  }

  function TokenField(p: LongPacket): seq<Byte>
    requires Sendable(p)
  {
    if p.kind == Initial then VarInt(|p.token|) + p.token else []
  }

  /** Length counts the packet number and everything after it. */
  function Payload(p: LongPacket): seq<Byte>
    requires Sendable(p)
  {
    VarInt(4 + |p.sealed|) + (p.number + p.sealed)
  }

  function FirstBytes(p: LongPacket): seq<Byte>
    requires Sendable(p)
  {
    [0xc0 + 16 * TypeBits(p.kind, p.v2) + p.low] + VersionBytes(p.v2)
  }

  function Cids(p: LongPacket, rest: seq<Byte>): seq<Byte>
    requires Sendable(p)
  {
    [|p.dcid|] + (p.dcid + ([|p.scid|] + (p.scid + rest)))
  }

  function Serialize(p: LongPacket): (bs: seq<Byte>)
    requires Sendable(p)
    ensures bs != [] && bs[0] >= 128
  {
    FirstBytes(p) + Cids(p, TokenField(p) + Payload(p))
  }

  // ---------- packets as received ----------

  datatype Space = InitialSpace | ZeroRttSpace | HandshakeSpace | AppSpace

  /** Processing a packet may install keys for later spaces, or discard some. */
  type Install = (set<Space>, seq<Byte>) -> set<Space>

  /** What decides how a packet is cut off: role, version so far, keys, and whether it authenticates. */
  datatype Receiver =
    Receiver(server: bool, v2: bool, keys: set<Space>, opens: seq<Byte> -> bool, install: Install)

  /** Consumed so many bytes (zero stops the loop), or an exception that closes the connection. */
  datatype Consumed = Take(n: nat) | Raise

  function SpaceOf(bits: nat, v2: bool): Space {
    var b := if v2 then bits - 1 else bits;
    if b == 1 then ZeroRttSpace else if b == 2 then HandshakeSpace else InitialSpace
  }

  /** After the connection ids: token for Initial packets, length, then the protected part. */
  function ConsumeProtected(r: Receiver, v2: bool, data: seq<Byte>, bits: nat, rest: seq<Byte>): Consumed
    requires |rest| <= |data|
  {
    var token := if bits == (if v2 then 1 else 0) then ReadVarInt(rest) else Got(0, rest);
    if token.Raised? || |token.rest| < token.value then Raise
    else
      var length := ReadVarInt(token.rest[token.value..]);
      if length.Raised? then Raise
      else
        var pnOffset := |data| - |length.rest|;
        var end := pnOffset + length.value;
        if SpaceOf(bits, v2) !in r.keys then Take(|data|)
        else if pnOffset + 20 > |data| || end > |data| then Raise
        else if !r.opens(data[..end]) then Raise
        else Take(end)
  }

  /** Skips a length byte and that many bytes. */
  function SkipCid(bs: seq<Byte>): (r: Read<()>)
    requires bs != []
    ensures r.Got? ==> |r.rest| < |bs|
  {
    var n: int := bs[0];
    if |bs| < 1 + n then Raised else Got((), bs[1 + n..])
  }

  function ConsumeLong(r: Receiver, data: seq<Byte>): Consumed
    requires data != []
  {
    if |data| < 5 then Raise
    else if |data| == 5 then Take(0)
    else
      var dcid := SkipCid(data[5..]);
      if dcid.Raised? then Raise
      else if dcid.rest == [] then Take(0)
      else
        var scid := SkipCid(dcid.rest);
        if scid.Raised? then Raise
        else
          var bits, v2 := data[0] / 16 % 4, VersionSeen(r, data);
          if !r.server && data[1..5] == [0, 0, 0, 0] then Take(|data|)
          else if !r.server && bits == (if v2 then 0 else 3) then Take(|data|)
          else ConsumeProtected(r, v2, data, bits, scid.rest)
  }

  function VersionSeen(r: Receiver, data: seq<Byte>): bool
    requires |data| >= 5
  {
    if data[1..5] == VersionBytes(true) then true
    else if data[1..5] == VersionBytes(false) then false
    else r.v2
  }

  /** A short header has no length: it takes the rest of the datagram. */
  function ConsumeShort(r: Receiver, data: seq<Byte>): Consumed {
    if |data| < 9 then Raise
    else if AppSpace !in r.keys then Take(0)
    else if |data| < 29 || !r.opens(data) then Raise
    else Take(|data|)
  }

  function Consume(r: Receiver, data: seq<Byte>): (c: Consumed)
    requires data != []
    ensures c.Take? ==> c.n <= |data|
  {
    if data[0] >= 128 then ConsumeLong(r, data) else ConsumeShort(r, data)
  }

  /** The receiver after it has processed the first `n` bytes as a packet. */
  function After(r: Receiver, data: seq<Byte>, n: nat): Receiver
    requires n <= |data|
  {
    var keyed := r.(keys := r.install(r.keys, data[..n]));
    if |data| >= 5 && data[0] >= 128 then keyed.(v2 := VersionSeen(r, data)) else keyed
  }

  /** The packets a datagram is cut into, and whether it was processed without an exception. */
  datatype Cut = Cut(packets: seq<seq<Byte>>, ok: bool)

  function CutDatagram(r: Receiver, data: seq<Byte>): Cut
    decreases |data|
  {
    if data == [] then Cut([], true)
    else match Consume(r, data)
      case Raise => Cut([], false)
      case Take(n) =>
        if n == 0 then Cut([], true)
        else
          var later := CutDatagram(After(r, data, n), data[n..]);
          Cut([data[..n]] + later.packets, later.ok)
  }

  /** The cut from a cursor on, put behind the packets already cut off. */
  function CutOn(packets: seq<seq<Byte>>, r: Receiver, data: seq<Byte>): Cut {
    var later := CutDatagram(r, data);
    Cut(packets + later.packets, later.ok)
  }

  lemma CutStep(packets: seq<seq<Byte>>, r: Receiver, data: seq<Byte>)
    requires data != [] && Consume(r, data).Take? && Consume(r, data).n > 0
    ensures var n := Consume(r, data).n;
            CutOn(packets, r, data) == CutOn(packets + [data[..n]], After(r, data, n), data[n..])
  {
    hide Consume, After;
    var n := Consume(r, data).n;
    var later := CutDatagram(After(r, data, n), data[n..]);
    assert packets + ([data[..n]] + later.packets) == packets + [data[..n]] + later.packets;
  }

  lemma SliceSplit(data: seq<Byte>, offset: nat, n: nat)
    requires offset + n <= |data|
    ensures data[offset..][n..] == data[offset + n..]
    ensures data[..offset] + data[offset..][..n] == data[..offset + n]
  {
  }

  /** The loop has cut `packets` off the first `offset` bytes and is on its way to `whole`. */
  ghost predicate Progress(whole: Cut, data: seq<Byte>, packets: seq<seq<Byte>>, r: Receiver, offset: nat) {
    && offset <= |data| && Flatten(packets) == data[..offset]
    && CutOn(packets, r, data[offset..]) == whole
  }

  lemma ProgressStarts(r: Receiver, data: seq<Byte>)
    ensures Progress(CutDatagram(r, data), data, [], r, 0)
  {
    assert data[0..] == data;
    assert [] + CutDatagram(r, data).packets == CutDatagram(r, data).packets;
  }

  lemma ProgressMade(whole: Cut, data: seq<Byte>, packets: seq<seq<Byte>>, r: Receiver, offset: nat)
    requires Progress(whole, data, packets, r, offset) && offset < |data|
    requires var c := Consume(r, data[offset..]); c.Take? && c.n > 0
    ensures var pkt := data[offset..]; var n := Consume(r, pkt).n;
      Progress(whole, data, packets + [pkt[..n]], After(r, pkt, n), offset + n)
  {
    hide Consume, After;
    var pkt := data[offset..];
    var n := Consume(r, pkt).n;
    CutStep(packets, r, pkt);
    FlattenSnoc(packets, pkt[..n]);
    SliceSplit(data, offset, n);
  }

  /** Nothing more is cut off when the data is used up, a packet raises, or one consumes nothing. */
  lemma ProgressEnds(whole: Cut, data: seq<Byte>, packets: seq<seq<Byte>>, r: Receiver, offset: nat, raised: bool)
    requires Progress(whole, data, packets, r, offset)
    requires if raised then offset < |data| && Consume(r, data[offset..]) == Raise
             else offset == |data| || Consume(r, data[offset..]) == Take(0)
    ensures whole == Cut(packets, !raised) && Flatten(packets) <= data
  {
    hide Consume, After;
    assert packets + [] == packets;
  }

  /** The receive loop; it makes progress on every datagram whatever its bytes. */
  method Recv(r: Receiver, data: seq<Byte>) returns (packets: seq<seq<Byte>>, ok: bool)
    ensures Cut(packets, ok) == CutDatagram(r, data)
    ensures Flatten(packets) <= data
  {
    hide Consume, After, Progress, CutDatagram;
    var offset, now, raised := 0, r, false;
    ghost var whole := CutDatagram(r, data);
    packets := [];
    ProgressStarts(r, data);
    while offset < |data|
      invariant !raised && offset <= |data| && Progress(whole, data, packets, now, offset)
    {
      var pkt := data[offset..];
      var consumed := Consume(now, pkt);
      raised := consumed.Raise?;
      if raised || consumed.n == 0 {
        break;
      }
      ProgressMade(whole, data, packets, now, offset);
      packets, now, offset := packets + [pkt[..consumed.n]], After(now, pkt, consumed.n), offset + consumed.n;
    }
    ProgressEnds(whole, data, packets, now, offset, raised);
    ok := !raised;
  }

  // ---------- round trip ----------

  function SpaceOfKind(kind: Kind): Space {
    match kind
    case Initial => InitialSpace
    case ZeroRtt => ZeroRttSpace
    case Handshake => HandshakeSpace
  }

  lemma SkipCidExact(cid: seq<Byte>, rest: seq<Byte>)
    requires |cid| < 256
    ensures SkipCid([|cid|] + (cid + rest)) == Got((), rest)
  {
    var bs: seq<Byte> := [|cid|] + (cid + rest);
    assert bs[1 + |cid|..] == rest;
  }

  lemma HeaderBytes(p: LongPacket, rest: seq<Byte>)
    requires Sendable(p)
    ensures var data, tail := Serialize(p) + rest, TokenField(p) + (Payload(p) + rest);
            && |data| > 5 && data[0] == FirstBytes(p)[0] && data[1..5] == VersionBytes(p.v2)
            && data[5..] == Cids(p, tail)
  {
    hide TokenField, Payload;
    var data, tail := Serialize(p) + rest, TokenField(p) + (Payload(p) + rest);
    assert Cids(p, TokenField(p) + Payload(p)) + rest == Cids(p, tail);
    assert data == FirstBytes(p) + Cids(p, tail);
  }

  lemma CidsSkipped(p: LongPacket, tail: seq<Byte>)
    requires Sendable(p)
    ensures var d := SkipCid(Cids(p, tail));
            d.Got? && d.rest != [] && SkipCid(d.rest) == Got((), tail)
  {
    SkipCidExact(p.dcid, [|p.scid|] + (p.scid + tail));
    SkipCidExact(p.scid, tail);
  }

  /** Followed by anything at all, a sent long-header packet is cut off at its own end. */
  lemma LongCutExactly(r: Receiver, p: LongPacket, rest: seq<Byte>)
    requires SpaceOfKind(p.kind) in r.keys && Sendable(p) && r.opens(Serialize(p))
    ensures Consume(r, Serialize(p) + rest) == Take(|Serialize(p)|)
  {
    hide Serialize, TokenField, Payload, ConsumeProtected, SkipCid, Cids;
    var data, tail := Serialize(p) + rest, TokenField(p) + (Payload(p) + rest);
    HeaderBytes(p, rest);
    CidsSkipped(p, tail);
    TypeSurvives(p);
    assert VersionBytes(p.v2)[3] != 0;
    assert VersionSeen(r, data) == p.v2;
    ProtectedCutExactly(r, p, rest);
  }

  lemma TypeSurvives(p: LongPacket)
    requires Sendable(p)
    ensures var bits := FirstBytes(p)[0] / 16 % 4;
            && bits == TypeBits(p.kind, p.v2) && bits != (if p.v2 then 0 else 3)
            && (bits == (if p.v2 then 1 else 0) <==> p.kind == Initial)
  {
  }

  lemma TokenSkipped(p: LongPacket, rest: seq<Byte>)
    requires Sendable(p) && p.kind == Initial
    ensures ReadVarInt(TokenField(p) + rest) == Got(|p.token|, p.token + rest)
    ensures (p.token + rest)[|p.token|..] == rest
  {
    assert TokenField(p) + rest == VarInt(|p.token|) + (p.token + rest);
    VarIntRoundTrip(|p.token|, p.token + rest);
  }

  lemma LengthRead(p: LongPacket, rest: seq<Byte>)
    requires Sendable(p)
    ensures ReadVarInt(Payload(p) + rest) == Got(4 + |p.sealed|, p.number + p.sealed + rest)
  {
    assert Payload(p) + rest == VarInt(4 + |p.sealed|) + (p.number + p.sealed + rest);
    VarIntRoundTrip(4 + |p.sealed|, p.number + p.sealed + rest);
  }

  /** Where the packet number starts and where the packet ends. */
  lemma EndOfPacket(p: LongPacket)
    requires Sendable(p)
    ensures |p.number + p.sealed| == 4 + |p.sealed|
    ensures |Serialize(p)| > |TokenField(p)| + |Payload(p)| && |Payload(p)| > 4 + |p.sealed|
  {
  }

  lemma ProtectedCutExactly(r: Receiver, p: LongPacket, rest: seq<Byte>)
    requires SpaceOfKind(p.kind) in r.keys && Sendable(p) && r.opens(Serialize(p))
    ensures var data, tail := Serialize(p) + rest, TokenField(p) + (Payload(p) + rest);
            && |tail| <= |data|
            && ConsumeProtected(r, p.v2, data, TypeBits(p.kind, p.v2), tail) == Take(|Serialize(p)|)
  {
    hide VarInt, ReadVarInt, Serialize;
    var data, tail := Serialize(p) + rest, TokenField(p) + (Payload(p) + rest);
    var bits := TypeBits(p.kind, p.v2);
    TypeSurvives(p);
    LengthRead(p, rest);
    EndOfPacket(p);
    var token := if bits == (if p.v2 then 1 else 0) then ReadVarInt(tail) else Got(0, tail);
    assert token.Got? && |token.rest| >= token.value && token.rest[token.value..] == Payload(p) + rest by {
      if p.kind == Initial {
        TokenSkipped(p, Payload(p) + rest);
      } else {
        assert tail == Payload(p) + rest;
      }
    }
    assert data[..|Serialize(p)|] == Serialize(p);
    assert SpaceOf(bits, p.v2) in r.keys;
  }

  /** A packet as it goes into a datagram. */
  datatype Sent = LongSent(packet: LongPacket) | ShortSent(bytes: seq<Byte>)

  predicate WellFormedSent(s: Sent) {
    match s
    case LongSent(p) => Sendable(p)
    case ShortSent(bs) => |bs| >= 29 && bs[0] < 128
  }

  predicate AllWellFormed(ps: seq<Sent>) { forall s :: s in ps ==> WellFormedSent(s) }

  function WireOf(s: Sent): seq<Byte>
    requires WellFormedSent(s)
  {
    match s
    case LongSent(p) => Serialize(p)
    case ShortSent(bs) => bs
  }

  /** A short header may only come last. */
  predicate ShortOnlyLast(ps: seq<Sent>) {
    forall i :: 0 <= i < |ps| - 1 ==> ps[i].LongSent?
  }

  function Wires(ps: seq<Sent>): (w: seq<seq<Byte>>)
    requires AllWellFormed(ps)
    ensures |w| == |ps|
  {
    if ps == [] then [] else [WireOf(ps[0])] + Wires(ps[1..])
  }

  function SpaceOfSent(s: Sent): Space { if s.LongSent? then SpaceOfKind(s.packet.kind) else AppSpace }

  /** Each packet authenticates, and its keys are there by the time the ones before it are processed. */
  ghost predicate Readable(keys: set<Space>, opens: seq<Byte> -> bool, install: Install, ps: seq<Sent>)
    requires AllWellFormed(ps)
    decreases |ps|
  {
    ps == [] ||
    var w := WireOf(ps[0]);
    SpaceOfSent(ps[0]) in keys && opens(w) && Readable(install(keys, w), opens, install, ps[1..])
  }

  ghost predicate ReadableBy(r: Receiver, ps: seq<Sent>)
    requires AllWellFormed(ps)
  {
    Readable(r.keys, r.opens, r.install, ps)
  }

  lemma FirstCutExactly(r: Receiver, s: Sent, rest: seq<Byte>)
    requires SpaceOfSent(s) in r.keys && WellFormedSent(s) && r.opens(WireOf(s)) && (s.ShortSent? ==> rest == [])
    ensures Consume(r, WireOf(s) + rest) == Take(|WireOf(s)|)
  {
    match s
    case LongSent(p) => LongCutExactly(r, p, rest);
    case ShortSent(bs) => assert bs + rest == bs;
  }

  /**
   Section 12.2 of RFC 9000: the receiver cuts a datagram exactly where the sender joined it,
   also when an early packet brings the keys for a later one.
   */
  lemma {:induction false} CoalescingRoundTrip(r: Receiver, ps: seq<Sent>)
    requires AllWellFormed(ps) && ShortOnlyLast(ps) && ReadableBy(r, ps)
    ensures CutDatagram(r, Flatten(Wires(ps))) == Cut(Wires(ps), true)
    decreases |ps|
  {
    hide Consume, Serialize, VersionSeen;
    if ps != [] {
      var w, later := WireOf(ps[0]), Flatten(Wires(ps[1..]));
      var data := w + later;
      assert Wires(ps)[1..] == Wires(ps[1..]);
      assert Flatten(Wires(ps)) == data;
      if ps[0].ShortSent? {
        assert |ps| == 1;
      }
      FirstCutExactly(r, ps[0], later);
      assert data[..|w|] == w && data[|w|..] == later;
      CoalescingRoundTrip(After(r, data, |w|), ps[1..]);
    }
  }

  // ---------- the sending side ----------

  /**
   Up to three calls of `send` into one buffer.  `sends` lists what the successive calls
   write (nothing for a call that has nothing to send); the first `used` of them go out.
   */
  method SendCoalesced(size: nat, sends: seq<seq<Byte>>) returns (datagram: seq<Byte>, used: nat)
    requires |sends| == 3
    ensures used <= 3 && datagram == Flatten(sends[..used])
    ensures forall i :: 0 <= i < used ==> sends[i] != []
    ensures forall i :: 0 <= i < used - 1 ==> sends[i][0] >= 128
    ensures used == 3 || sends[used] == [] || (used > 0 && (sends[used - 1][0] < 128 || |datagram| + 64 >= size))
  {
    datagram, used := [], 0;
    for k := 0 to 3
      invariant used == k && datagram == Flatten(sends[..k])
      invariant forall i :: 0 <= i < k ==> sends[i] != [] && sends[i][0] >= 128
    {
      var n := sends[k];
      if n == [] {
        return;
      }
      FlattenSnoc(sends[..k], n);
      assert sends[..k + 1] == sends[..k] + [n];
      datagram, used := datagram + n, k + 1;
      if n[0] < 128 {
        return;
      }
      if |datagram| + 64 >= size {
        return;
      }
    }
  }

  /** What the sending loop produces is cut back into exactly the packets it wrote. */
  lemma DatagramCutBack(r: Receiver, sends: seq<seq<Byte>>, ps: seq<Sent>)
    requires AllWellFormed(ps) && Wires(ps) == sends && ReadableBy(r, ps)
    requires forall i :: 0 <= i < |sends| ==> sends[i] != []
    requires forall i :: 0 <= i < |sends| - 1 ==> sends[i][0] >= 128
    ensures CutDatagram(r, Flatten(sends)) == Cut(sends, true)
  {
    hide Serialize, CutDatagram, Flatten, Wires;
    forall i | 0 <= i < |ps| - 1 ensures ps[i].LongSent? {
      WireAt(ps, i);
      assert ps[i] in ps && WellFormedSent(ps[i]);
      assert sends[i] == WireOf(ps[i]) && sends[i][0] >= 128;
    }
    CoalescingRoundTrip(r, ps);
  }

  lemma {:induction false} WireAt(ps: seq<Sent>, i: nat)
    requires AllWellFormed(ps) && i < |ps|
    ensures Wires(ps)[i] == WireOf(ps[i])
    decreases |ps|
  {
    if i > 0 {
      WireAt(ps[1..], i - 1);
    }
  }

  // ---------- packets that are not processed ----------

  /** The long header on the wire: form, type and version (section 17.2 of RFC 9000, section 3 of RFC 9369). */
  lemma LongHeaderLayout(p: LongPacket)
    requires Sendable(p)
    ensures var bs := Serialize(p);
      && |bs| > 5
      && bs[1..5] == (if p.v2 then [0x6b, 0x33, 0x43, 0xcf] else [0x00, 0x00, 0x00, 0x01])
      && bs[0] / 64 == 3
      && bs[0] / 16 % 4 == (match p.kind
                            case Initial => if p.v2 then 1 else 0
                            case ZeroRtt => if p.v2 then 2 else 1
                            case Handshake => if p.v2 then 3 else 2)
  {
    hide Serialize, TokenField, Payload, Cids;
    assert Serialize(p) + [] == Serialize(p);
    HeaderBytes(p, []);
  }

  /** What is between the connection ids and the packet number of a sent packet. */
  lemma ReachesProtected(r: Receiver, p: LongPacket, rest: seq<Byte>)
    requires Sendable(p)
    ensures var data, tail := Serialize(p) + rest, TokenField(p) + (Payload(p) + rest);
      && |tail| <= |data|
      && Consume(r, data) == ConsumeProtected(r, p.v2, data, TypeBits(p.kind, p.v2), tail)
  {
    hide Serialize, TokenField, Payload, ConsumeProtected, SkipCid, Cids;
    var data, tail := Serialize(p) + rest, TokenField(p) + (Payload(p) + rest);
    HeaderBytes(p, rest);
    CidsSkipped(p, tail);
    TypeSurvives(p);
    assert VersionBytes(p.v2)[3] != 0;
    assert VersionSeen(r, data) == p.v2;
    assert |data[5..]| >= |tail| by {
      TailIsLast(p, tail);
    }
  }

  lemma TailIsLast(p: LongPacket, tail: seq<Byte>)
    requires Sendable(p)
    ensures |Cids(p, tail)| >= |tail|
  {
  }

  lemma ProtectedParts(p: LongPacket, rest: seq<Byte>)
    requires Sendable(p)
    ensures var bits, tail := TypeBits(p.kind, p.v2), TokenField(p) + (Payload(p) + rest);
      var token := if bits == (if p.v2 then 1 else 0) then ReadVarInt(tail) else Got(0, tail);
      && token.Got? && |token.rest| >= token.value && token.rest[token.value..] == Payload(p) + rest
      && ReadVarInt(Payload(p) + rest) == Got(4 + |p.sealed|, p.number + p.sealed + rest)
      && SpaceOf(bits, p.v2) == SpaceOfKind(p.kind)
  {
    hide VarInt, ReadVarInt;
    TypeSurvives(p);
    LengthRead(p, rest);
    if p.kind == Initial {
      TokenSkipped(p, Payload(p) + rest);
    } else {
      assert TokenField(p) + (Payload(p) + rest) == Payload(p) + rest;
    }
  }

  /** A packet whose keys are not there is skipped without an exception, and with it the rest of the datagram. */
  lemma KeylessSkipsRest(r: Receiver, p: LongPacket, rest: seq<Byte>)
    requires Sendable(p) && SpaceOfKind(p.kind) !in r.keys
    ensures Consume(r, Serialize(p) + rest) == Take(|Serialize(p) + rest|)
    ensures CutDatagram(r, Serialize(p) + rest) == Cut([Serialize(p) + rest], true)
  {
    hide VarInt, ReadVarInt, Serialize, TokenField, Payload;
    ReachesProtected(r, p, rest);
    ProtectedParts(p, rest);
    var data := Serialize(p) + rest;
    assert data[..|data|] == data && data[|data|..] == [];
    assert [data] + [] == [data];
  }

  /** A packet that does not authenticate ends the datagram with an exception. */
  lemma ForgedRaises(r: Receiver, p: LongPacket, rest: seq<Byte>)
    requires Sendable(p) && SpaceOfKind(p.kind) in r.keys && !r.opens(Serialize(p))
    ensures Consume(r, Serialize(p) + rest) == Raise
    ensures CutDatagram(r, Serialize(p) + rest) == Cut([], false)
  {
    hide VarInt, ReadVarInt, Serialize, TokenField, Payload;
    ReachesProtected(r, p, rest);
    ProtectedParts(p, rest);
    EndOfPacket(p);
    var data := Serialize(p) + rest;
    assert data[..|Serialize(p)|] == Serialize(p);
  }

  /** Every outcome of a short-header packet, by its length and by the keys. */
  lemma ShortPacketOutcome(r: Receiver, data: seq<Byte>)
    requires data != [] && data[0] < 128
    ensures |data| < 9 ==> Consume(r, data) == Raise
    ensures |data| >= 9 && AppSpace !in r.keys ==> CutDatagram(r, data) == Cut([], true)
    ensures 9 <= |data| < 29 && AppSpace in r.keys ==> CutDatagram(r, data) == Cut([], false)
    ensures |data| >= 29 && AppSpace in r.keys && r.opens(data) ==> CutDatagram(r, data) == Cut([data], true)
    ensures |data| >= 29 && AppSpace in r.keys && !r.opens(data) ==> CutDatagram(r, data) == Cut([], false)
  {
    assert data[..|data|] == data && data[|data|..] == [];
    assert [data] + [] == [data];
  }

  /**
   So a datagram of sent packets is cut at its own boundaries if and only if only its last packet
   may lack keys: one without keys before the last swallows all that follow.
   */
  lemma KeylessCutIff(r: Receiver, p: LongPacket, ps: seq<Sent>)
    requires Sendable(p) && SpaceOfKind(p.kind) !in r.keys
    requires AllWellFormed(ps) && AllWellFormed([LongSent(p)] + ps)
    ensures CutDatagram(r, Flatten(Wires([LongSent(p)] + ps))) == Cut(Wires([LongSent(p)] + ps), true) <==> ps == []
  {
    hide Serialize, CutDatagram;
    var all := [LongSent(p)] + ps;
    assert all[1..] == ps;
    var w := Wires(all);
    assert w == [Serialize(p)] + Wires(ps) && w[1..] == Wires(ps);
    assert Flatten(w) == Serialize(p) + Flatten(Wires(ps));
    KeylessSkipsRest(r, p, Flatten(Wires(ps)));
    if ps == [] {
      assert Serialize(p) + [] == Serialize(p);
    }
  }

  /** A packet in a version that is neither known one is read in the version of the last packet before it. */
  lemma VersionRemembered(r: Receiver, data: seq<Byte>, n: nat, other: seq<Byte>)
    requires 5 <= |data| && n <= |data| && data[0] >= 128 && |other| >= 5
    requires other[1..5] != [0x6b, 0x33, 0x43, 0xcf] && other[1..5] != [0x00, 0x00, 0x00, 0x01]
    ensures data[1..5] == [0x6b, 0x33, 0x43, 0xcf] ==> VersionSeen(After(r, data, n), other)
    ensures data[1..5] == [0x00, 0x00, 0x00, 0x01] ==> !VersionSeen(After(r, data, n), other)
  {
  }

  /** At a client, version negotiation and Retry packets take the whole datagram and raise nothing here. */
  lemma ClientSkips(r: Receiver, first: Byte, version: seq<Byte>, dcid: seq<Byte>, scid: seq<Byte>, rest: seq<Byte>)
    requires !r.server && first >= 128 && |version| == 4 && |dcid| < 256 && |scid| < 256
    ensures var data := [first] + version + ([|dcid|] + (dcid + ([|scid|] + (scid + rest))));
      version == [0, 0, 0, 0] || first / 16 % 4 == (if VersionSeen(r, data) then 0 else 3) ==>
        Consume(r, data) == Take(|data|)
  {
    hide ConsumeProtected, VersionSeen;
    var ids := [|dcid|] + (dcid + ([|scid|] + (scid + rest)));
    var data := [first] + version + ids;
    assert data[5..] == ids && data[1..5] == version && data[0] == first;
    SkipCidExact(dcid, [|scid|] + (scid + rest));
    SkipCidExact(scid, rest);
  }

  /** Section 16 of RFC 9000: the shortest of the four lengths that holds the value. */
  lemma VarIntLengths(v: nat)
    requires v < 0x4000_0000_0000_0000
    ensures |VarInt(v)| == if v < 64 then 1 else if v < 16_384 then 2 else if v < 1_073_741_824 then 4 else 8
    ensures VarInt(v)[0] / 64 == if v < 64 then 0 else if v < 16_384 then 1 else if v < 1_073_741_824 then 2 else 3
  {
    hide BigEndian;
    Powers();
  }

  /**
   A long header that ends too early: before the first connection id is announced, or between the
   two, it ends the datagram quietly; inside the version or an id it raises.
   */
  lemma HeaderCutShort(r: Receiver, data: seq<Byte>, dcid: seq<Byte>, k: nat)
    requires data != [] && data[0] >= 128 && |dcid| < 256 && k < |dcid|
    ensures |data| < 5 ==> CutDatagram(r, data) == Cut([], false)
    ensures |data| == 5 ==> CutDatagram(r, data) == Cut([], true)
    ensures |data| == 5 ==> CutDatagram(r, data + ([|dcid|] + dcid)) == Cut([], true)
    ensures |data| == 5 ==> CutDatagram(r, data + ([|dcid|] + dcid[..k])) == Cut([], false)
  {
    hide ConsumeProtected;
    if |data| == 5 {
      var whole, part := [|dcid|] + dcid, [|dcid|] + dcid[..k];
      assert (data + whole)[5..] == whole && (data + part)[5..] == part;
      assert (data + whole)[0] == data[0] && (data + part)[0] == data[0];
      assert whole[1 + |dcid|..] == [];
    }
  }

  /** Sixteen bytes behind a four-byte packet number are sampled, so a shorter packet raises, as does one cut off. */
  lemma ProtectedBounds(r: Receiver, v2: bool, data: seq<Byte>, bits: nat, len: nat, body: seq<Byte>)
    requires len < VARINT_LIMIT && |VarInt(len) + body| <= |data|
    requires bits != (if v2 then 1 else 0) && SpaceOf(bits, v2) in r.keys
    ensures var end := |data| - |body| + len;
      ConsumeProtected(r, v2, data, bits, VarInt(len) + body)
      == if |body| < 20 || |body| < len || !r.opens(data[..end]) then Raise else Take(end)
  {
    hide VarInt, ReadVarInt;
    VarIntRoundTrip(len, body);
  }
}
