/**
 The TLS byte stream of one packet number space, cut into CRYPTO frames on one side and
 reassembled on the other.
 */
module CryptoStreams {
  import opened Bytes

  datatype Frame = Frame(offset: nat, data: seq<Byte>)

  const CHUNK := 1000

  // ---------- sender ----------

  datatype Sender = Sender(pending: Option<seq<Byte>>, txOffset: nat)

  function Queued(s: Sender): seq<Byte> { if s.pending.None? then [] else s.pending.value }

  class CryptoSender {
    var pending: Option<seq<Byte>>
    var txOffset: nat

    ghost function Value(): Sender
      reads this
    {
      Sender(pending, txOffset)
    }

    constructor ()
      ensures Value() == Sender(None, 0)
    {
      pending, txOffset := None, 0;
    }

    /** Takes over what TLS has produced since the last poll; TLS never hands over nothing. */
    method Poll(raw: Option<seq<Byte>>)
      modifies this
      ensures Value() == Polled(old(Value()), raw)
    {
      if raw.Some? {
        assert [] + raw.value == raw.value;
        pending := if pending.Some? then Some(pending.value + raw.value) else Some(raw.value);
      }
    }

    method Cut() returns (frame: Option<Frame>)
      modifies this
      ensures (Value(), frame) == CutOne(old(Value()))
    {
      if pending.None? {
        return None;
      }
      var data := pending.value;
      if |data| > CHUNK {
        pending := Some(data[CHUNK..]);
        data := data[..CHUNK];
      } else {
        pending := None;
      }
      frame := Some(Frame(txOffset, data));
      txOffset := txOffset + |data|;
    }
  }

  function Polled(s: Sender, raw: Option<seq<Byte>>): Sender {
    if raw.None? then s else s.(pending := Some(Queued(s) + raw.value))
  }

  function CutOne(s: Sender): (Sender, Option<Frame>) {
    if s.pending.None? then (s, None)
    else
      var data := s.pending.value;
      if |data| > CHUNK
      then (Sender(Some(data[CHUNK..]), s.txOffset + CHUNK), Some(Frame(s.txOffset, data[..CHUNK])))
      else (Sender(None, s.txOffset + |data|), Some(Frame(s.txOffset, data)))
  }

  /** Each cut takes the next 1000 bytes, or all there is, at the running offset, and leaves the rest. */
  lemma CutExact(s: Sender)
    requires s.pending.Some? && s.pending.value != []
    ensures var (n, f) := CutOne(s);
      var take := Min(1000, |Queued(s)|);
      && f == Some(Frame(s.txOffset, Queued(s)[..take])) && 0 < take <= 1000
      && Queued(n) == Queued(s)[take..] && n.txOffset == s.txOffset + take
      && (n.pending.Some? <==> Queued(n) != [])
  {
    var q := Queued(s);
    assert q[..|q|] == q && q[|q|..] == [];
  }

  function CutAll(s: Sender): seq<Frame>
    requires s.pending.Some? ==> s.pending.value != []
    decreases |Queued(s)|
  {
    if s.pending.None? then []
    else
      CutExact(s);
      var (n, f) := CutOne(s);
      [f.value] + CutAll(n)
  }

  function DataOf(f: Frame): seq<Byte> { f.data }

  /** So everything TLS handed over goes out, in frames that lie end to end. */
  lemma {:induction false} AllIsCut(s: Sender, i: nat)
    requires s.pending.Some? ==> s.pending.value != []
    ensures FlatMap(DataOf, CutAll(s)) == Queued(s)
    ensures i < |CutAll(s)| ==>
      && |CutAll(s)[i].data| <= 1000 && CutAll(s)[i].offset == s.txOffset + 1000 * i
    decreases |Queued(s)|
  {
    if s.pending.Some? {
      CutExact(s);
      var (n, f) := CutOne(s);
      AllIsCut(n, if i > 0 then i - 1 else 0);
      assert CutAll(s)[1..] == CutAll(n);
      var take := Min(1000, |Queued(s)|);
      assert Queued(s)[..take] + Queued(s)[take..] == Queued(s);
    }
  }

  // ---------- receiver ----------

  /** Buffered fragments, the next offset TLS needs, and everything TLS has been given. */
  datatype Receiver = Receiver(buf: map<nat, seq<Byte>>, offset: nat, tls: seq<Byte>)

  predicate Covers(buf: map<nat, seq<Byte>>, k: nat, at: nat) {
    k in buf && k <= at < k + |buf[k]|
  }

  ghost predicate Stuck(buf: map<nat, seq<Byte>>, at: nat) {
    forall k :: !Covers(buf, k, at)
  }

  /** The byte at stream position `at` can be read off some fragment. */
  ghost predicate Supplied(buf: map<nat, seq<Byte>>, at: nat, b: Byte) {
    exists k :: Covers(buf, k, at) && buf[k][at - k] == b
  }

  /**
   What handling one frame does, whichever covering fragment is picked each time: TLS gets
   more bytes, each read off a fragment at its own position; fragments disappear only once
   TLS has all of them; and it stops only when nothing covers the next offset.
   */
  ghost predicate Handles(r: Receiver, f: Frame, n: Receiver) {
    var all := r.buf[f.offset := f.data];
    && r.offset <= n.offset
    && |n.tls| - |r.tls| == n.offset - r.offset
    && n.tls[..|r.tls|] == r.tls
    && GatheredFrom(all, r.offset, n.tls[|r.tls|..])
    && Consumed(all, n.buf, n.offset)
    && Stuck(n.buf, n.offset)
  }

  class CryptoReceiver {
    var buf: map<nat, seq<Byte>>
    var rxOffset: nat
    var tls: seq<Byte>

    ghost function Value(): Receiver
      reads this
    {
      Receiver(buf, rxOffset, tls)
    }

    constructor ()
      ensures Value() == Receiver(map[], 0, [])
    {
      buf, rxOffset, tls := map[], 0, [];
    }

    /** Takes covering fragments out of the buffer until none covers the next offset. */
    method Gather(start: nat) returns (gathered: seq<Byte>)
      modifies `buf
      ensures GatheredFrom(old(buf), start, gathered)
      ensures Consumed(old(buf), buf, start + |gathered|)
      ensures Stuck(buf, start + |gathered|)
    {
      ghost var all := buf;
      var next := start;
      gathered := [];
      while exists k :: k in buf && Covers(buf, k, next)
        invariant next == start + |gathered|
        invariant Consumed(all, buf, next) && GatheredFrom(all, start, gathered)
        decreases |buf|
      {
        var key :| key in buf && Covers(buf, key, next);
        var chunk := buf[key][next - key..];
        GatherStep(all, key, start, gathered);
        assert buf.Keys == (buf - {key}).Keys + {key};
        buf := buf - {key};
        gathered := gathered + chunk;
        next := next + |chunk|;
      }
    }

    method HandleCryptoFrame(f: Frame)
      modifies this
      ensures Handles(old(Value()), f, Value())
    {
      buf := buf[f.offset := f.data];
      ghost var all := buf;
      var gathered := Gather(rxOffset);
      tls := tls + gathered;
      rxOffset := rxOffset + |gathered|;
    }
  }

  /** Each gathered byte is read off some fragment at its own stream position. */
  ghost predicate GatheredFrom(all: map<nat, seq<Byte>>, start: nat, gathered: seq<Byte>) {
    forall i {:trigger gathered[i]} :: 0 <= i < |gathered| ==> Supplied(all, start + i, gathered[i])
  }

  /** What has left the buffer lies wholly below `upTo`; what is left is unchanged. */
  ghost predicate Consumed(all: map<nat, seq<Byte>>, left: map<nat, seq<Byte>>, upTo: nat) {
    && (forall k :: k in left ==> k in all && left[k] == all[k])
    && (forall k :: k in all && k !in left ==> k + |all[k]| <= upTo)
  }

  lemma GatherStep(all: map<nat, seq<Byte>>, key: nat, start: nat, gathered: seq<Byte>)
    requires Covers(all, key, start + |gathered|) && GatheredFrom(all, start, gathered)
    ensures GatheredFrom(all, start, gathered + all[key][start + |gathered| - key..])
  {
    var more := gathered + all[key][start + |gathered| - key..];
    forall i | 0 <= i < |more| ensures Supplied(all, start + i, more[i]) {
      if i < |gathered| {
        assert more[i] == gathered[i];
      } else {
        assert Covers(all, key, start + i) && all[key][start + i - key] == more[i];
      }
    }
  }

  // ---------- end to end ----------

  /** Everything TLS produced, the sender, the frames it cut, the receiver, the frames that arrived. */
  datatype Link = Link(produced: seq<Byte>, tx: Sender, frames: set<Frame>, rx: Receiver, arrived: set<Frame>)

  ghost predicate Initial(l: Link) {
    l == Link([], Sender(None, 0), {}, Receiver(map[], 0, []), {})
  }

  /** Frames are delivered in any order, any number of times, or never. */
  ghost predicate Next(l: Link, n: Link) {
    || (exists raw :: Produces(l, n, raw))
    || Cuts(l, n)
    || (exists f :: Delivers(l, n, f))
  }

  ghost predicate Produces(l: Link, n: Link, raw: seq<Byte>) {
    raw != [] && n == l.(produced := l.produced + raw, tx := Polled(l.tx, Some(raw)))
  }

  ghost predicate Cuts(l: Link, n: Link) {
    var (tx, f) := CutOne(l.tx);
    f.Some? && n == l.(tx := tx, frames := l.frames + {f.value})
  }

  ghost predicate Delivers(l: Link, n: Link, f: Frame) {
    && f in l.frames && Handles(l.rx, f, n.rx)
    && n == l.(rx := n.rx, arrived := l.arrived + {f})
  }

  ghost predicate IsRun(t: seq<Link>) {
    t != [] && Initial(t[0]) && forall i :: 0 <= i < |t| - 1 ==> Next(t[i], t[i + 1])
  }

  /** A frame is a non-empty slice of the produced bytes at its offset. */
  predicate IsSlice(s: seq<Byte>, limit: nat, f: Frame) {
    f.data != [] && f.offset + |f.data| <= limit <= |s| && f.data == s[f.offset..f.offset + |f.data|]
  }

  ghost predicate Tiled(frames: set<Frame>, at: nat) {
    exists f :: f in frames && f.offset <= at < f.offset + |f.data|
  }

  ghost predicate Tiles(frames: set<Frame>, limit: nat) {
    forall at: nat :: at < limit ==> Tiled(frames, at)
  }

  ghost predicate SenderInv(l: Link) {
    && l.tx.txOffset <= |l.produced| && Queued(l.tx) == l.produced[l.tx.txOffset..]
    && (l.tx.pending.Some? ==> l.tx.pending.value != [])
    && (forall f :: f in l.frames ==> IsSlice(l.produced, l.tx.txOffset, f))
    && (forall f, g :: f in l.frames && g in l.frames && f.offset == g.offset ==> f == g)
    && Tiles(l.frames, l.tx.txOffset)
  }

  ghost predicate ReceiverInv(l: Link) {
    && l.rx.offset <= l.tx.txOffset <= |l.produced| && l.rx.tls == l.produced[..l.rx.offset]
    && (forall k :: k in l.rx.buf ==> Frame(k, l.rx.buf[k]) in l.frames)
    && l.arrived <= l.frames
    && (forall f :: f in l.arrived ==>
          f.offset + |f.data| <= l.rx.offset || (f.offset in l.rx.buf && l.rx.buf[f.offset] == f.data))
    && Stuck(l.rx.buf, l.rx.offset)
  }

  ghost predicate Inv(l: Link) { SenderInv(l) && ReceiverInv(l) }

  lemma ProducesKeepsInv(l: Link, n: Link, raw: seq<Byte>)
    requires Inv(l) && Produces(l, n, raw)
    ensures Inv(n)
  {
    assert Queued(n.tx) == n.produced[n.tx.txOffset..];
    forall f | f in n.frames ensures IsSlice(n.produced, n.tx.txOffset, f) {
      assert IsSlice(l.produced, l.tx.txOffset, f);
      assert n.produced[f.offset..f.offset + |f.data|] == l.produced[f.offset..f.offset + |f.data|];
    }
    assert n.produced[..n.rx.offset] == l.produced[..l.rx.offset];
  }

  lemma CutsKeepsInv(l: Link, n: Link)
    requires Inv(l) && Cuts(l, n)
    ensures Inv(n)
  {
    var f := CutOne(l.tx).1.value;
    var tail := l.produced[l.tx.txOffset..];
    assert n.tx.txOffset == l.tx.txOffset + |f.data|;
    assert f.data == tail[..|f.data|] == l.produced[f.offset..f.offset + |f.data|];
    assert Queued(n.tx) == tail[|f.data|..] == n.produced[n.tx.txOffset..];
    forall g | g in n.frames ensures IsSlice(n.produced, n.tx.txOffset, g) {
      assert g == f || IsSlice(l.produced, l.tx.txOffset, g);
    }
    forall at: nat | at < n.tx.txOffset ensures Tiled(n.frames, at) {
      if at < l.tx.txOffset {
        assert Tiled(l.frames, at);
        var g :| g in l.frames && g.offset <= at < g.offset + |g.data|;
        assert g in n.frames;
      } else {
        assert f in n.frames;
      }
    }
  }

  lemma SuppliedIsRight(l: Link, all: map<nat, seq<Byte>>, at: nat, b: Byte)
    requires SenderInv(l) && (forall k :: k in all ==> Frame(k, all[k]) in l.frames) && Supplied(all, at, b)
    ensures at < l.tx.txOffset && b == l.produced[at]
  {
    var k :| Covers(all, k, at) && all[k][at - k] == b;
    var g := Frame(k, all[k]);
    assert IsSlice(l.produced, l.tx.txOffset, g);
    assert g.data[at - k] == l.produced[g.offset..g.offset + |g.data|][at - k];
  }

  lemma NewByteIsRight(l: Link, n: Link, f: Frame, at: nat)
    requires Inv(l) && Delivers(l, n, f) && l.rx.offset <= at < n.rx.offset
    ensures |n.rx.tls| == n.rx.offset && at < l.tx.txOffset && n.rx.tls[at] == l.produced[at]
  {
    hide Stuck, Consumed, Tiles, IsSlice, Supplied;
    var all := l.rx.buf[f.offset := f.data];
    var fresh' := n.rx.tls[|l.rx.tls|..];
    assert Supplied(all, l.rx.offset + (at - l.rx.offset), fresh'[at - l.rx.offset]);
    SuppliedIsRight(l, all, at, n.rx.tls[at]);
  }

  /** Every new byte TLS receives is the produced byte at its position. */
  lemma DeliversRightBytes(l: Link, n: Link, f: Frame)
    requires Inv(l) && Delivers(l, n, f)
    ensures n.rx.offset <= l.tx.txOffset && n.rx.tls == l.produced[..n.rx.offset]
  {
    forall at: nat | l.rx.offset <= at < n.rx.offset ensures at < |l.produced| && n.rx.tls[at] == l.produced[at] {
      NewByteIsRight(l, n, f, at);
    }
    if n.rx.offset > l.rx.offset {
      NewByteIsRight(l, n, f, n.rx.offset - 1);
    }
    assert forall i :: 0 <= i < l.rx.offset ==> n.rx.tls[i] == n.rx.tls[..l.rx.offset][i];
  }

  lemma DeliversKeepsInv(l: Link, n: Link, f: Frame)
    requires Inv(l) && Delivers(l, n, f)
    ensures Inv(n)
  {
    DeliversRightBytes(l, n, f);
    var all := l.rx.buf[f.offset := f.data];
    assert SenderInv(n);
    forall g | g in n.arrived
      ensures g.offset + |g.data| <= n.rx.offset || (g.offset in n.rx.buf && n.rx.buf[g.offset] == g.data)
    {
      if g != f && g.offset + |g.data| > l.rx.offset {
        assert g in l.arrived && all[g.offset] == g.data;
      }
    }
  }

  lemma {:induction false} RunKeepsInv(t: seq<Link>, i: nat)
    requires IsRun(t) && i < |t|
    ensures Inv(t[i])
  {
    if i > 0 {
      RunKeepsInv(t, i - 1);
      var l, n := t[i - 1], t[i];
      assert Next(t[i - 1], t[i - 1 + 1]);
      if Cuts(l, n) {
        CutsKeepsInv(l, n);
      } else if raw :| Produces(l, n, raw) {
        ProducesKeepsInv(l, n, raw);
      } else {
        var f :| Delivers(l, n, f);
        DeliversKeepsInv(l, n, f);
      }
    }
  }

  /**
   At every point of every run TLS has been given exactly a prefix of what the sender's TLS
   produced, in order and without repetition; and once every frame cut so far has arrived
   at least once, in whatever order and with whatever repeats, that prefix is all of them.
   */
  lemma CryptoDelivery(t: seq<Link>, i: nat)
    requires IsRun(t) && i < |t|
    ensures t[i].tx.txOffset <= |t[i].produced|
    ensures t[i].rx.tls <= t[i].produced && |t[i].rx.tls| == t[i].rx.offset
    ensures t[i].arrived == t[i].frames ==> t[i].rx.tls == t[i].produced[..t[i].tx.txOffset]
  {
    RunKeepsInv(t, i);
    var l := t[i];
    if l.arrived == l.frames {
      AllArrivedMeansAll(l);
    }
  }

  lemma ArrivedDoesNotCover(l: Link, f: Frame)
    requires Inv(l) && f in l.arrived
    ensures !(f.offset <= l.rx.offset < f.offset + |f.data|)
  {
    assert !Covers(l.rx.buf, f.offset, l.rx.offset);
  }

  lemma AllArrivedMeansAll(l: Link)
    requires Inv(l) && l.arrived == l.frames
    ensures l.rx.offset == l.tx.txOffset
  {
    forall f | f in l.frames ensures !(f.offset <= l.rx.offset < f.offset + |f.data|) {
      ArrivedDoesNotCover(l, f);
    }
    assert !Tiled(l.frames, l.rx.offset);
  }
}
