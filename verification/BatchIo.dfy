/**
 Batched datagram output over GSO, sendmmsg and sendto, and the receiver's GRO split.
 */
module BatchIo {
  import opened Bytes

  const BATCH_SIZE := 64
  const MAX_PKT := 1500
  const GSO_MAX := BATCH_SIZE * MAX_PKT

  datatype Address = Address(ip: string, port: nat)

  datatype Datagram = Datagram(data: seq<Byte>, addr: Address)

  // ---------- cutting a buffer into segments ----------

  /** Packing full segments with a shorter last one and cutting again is the identity. */
  lemma {:induction false} PackThenSplit(segs: seq<seq<Byte>>, size: nat)
    requires size > 0 && EvenCut(segs, size)
    ensures Split(Flatten(segs), size) == segs
  {
    if segs != [] {
      PackThenSplit(segs[1..], size);
      var buf := Flatten(segs);
      if |segs| == 1 {
        assert Flatten(segs[1..]) == [];
        assert buf == segs[0];
      }
      var n := Min(size, |buf|);
      assert buf[..n] == segs[0] && buf[n..] == Flatten(segs[1..]);
    }
  }

  /** The packets of one receive slot; `gro` is the reported segment size when GRO is on. */
  function Packets(slot: seq<Byte>, groEnabled: bool, gro: int): seq<seq<Byte>> {
    if groEnabled && gro > 0 then Split(slot, gro)
    else if slot != [] then [slot]
    else []
  }

  /** With GRO a slot comes apart into what was joined, whatever its segment size; without it a slot is one packet. */
  lemma SlotPackets(segs: seq<seq<Byte>>, size: nat, slot: seq<Byte>)
    requires size > 0 && EvenCut(segs, size)
    ensures Packets(Flatten(segs), true, size) == segs
    ensures slot != [] ==> Packets(slot, false, size) == [slot] && Packets(slot, true, 0) == [slot]
    ensures Packets([], false, size) == [] && Packets([], true, 0) == []
  {
    PackThenSplit(segs, size);
  }

  /** The segments from an offset on. */
  function SplitFrom(slot: seq<Byte>, size: nat, offset: nat): seq<seq<Byte>>
    requires size > 0
    decreases |slot| - offset
  {
    if offset >= |slot| then []
    else [slot[offset..offset + Min(size, |slot| - offset)]] + SplitFrom(slot, size, offset + size)
  }

  lemma {:induction false} SplitFromIsSplit(slot: seq<Byte>, size: nat, offset: nat)
    requires size > 0 && offset <= |slot|
    ensures SplitFrom(slot, size, offset) == Split(slot[offset..], size)
    decreases |slot| - offset
  {
    if offset < |slot| {
      var rest, n := slot[offset..], Min(size, |slot| - offset);
      assert rest[..n] == slot[offset..offset + n];
      assert rest[n..] == slot[offset + n..];
      if n == size {
        SplitFromIsSplit(slot, size, offset + size);
      }
    }
  }

  method EachSegment(buf: array<Byte>, total: nat, groEnabled: bool, gro: int) returns (packets: seq<seq<Byte>>)
    requires total <= buf.Length
    ensures packets == Packets(buf[..total], groEnabled, gro)
  {
    var slot := buf[..total];
    packets := [];
    if groEnabled && gro > 0 {
      SplitFromIsSplit(slot, gro, 0);
      assert slot[0..] == slot;
      packets := CutSlot(slot, gro);
    } else if total > 0 {
      packets := [slot];
    }
  }

  method CutSlot(slot: seq<Byte>, gro: nat) returns (packets: seq<seq<Byte>>)
    requires gro > 0
    ensures packets == SplitFrom(slot, gro, 0)
  {
    packets := [];
    var offset := 0;
    while offset < |slot|
      invariant packets + SplitFrom(slot, gro, offset) == SplitFrom(slot, gro, 0)
      decreases |slot| - offset
    {
      var seg := Min(gro, |slot| - offset);
      Assoc(packets, [slot[offset..offset + seg]], SplitFrom(slot, gro, offset + gro));
      packets := packets + [slot[offset..offset + seg]];
      offset := offset + gro;
    }
  }

  // ---------- what the kernel does with a batch ----------

  /**
   The kernel's answers during one flush: whether the GSO send is accepted, what the two
   sendmmsg attempts return (negative on failure, else how many messages were taken), and
   whether each individual sendto is accepted.
   */
  datatype Kernel = Kernel(gso: bool, mmsg: int, retry: int, sendto: seq<bool>)

  /** A UDP_SEGMENT size of zero means no segmentation. */
  function GsoWire(buf: seq<Byte>, size: nat, addr: Address): seq<Datagram> {
    if size == 0 then [Datagram(buf, addr)] else Addressed(Split(buf, size), addr)
  }

  function Addressed(segs: seq<seq<Byte>>, addr: Address): seq<Datagram> {
    seq(|segs|, i requires 0 <= i < |segs| => Datagram(segs[i], addr))
  }

  function Payloads(batch: seq<Datagram>): seq<seq<Byte>> {
    seq(|batch|, i requires 0 <= i < |batch| => batch[i].data)
  }

  /** The messages a successful sendmmsg takes. */
  function Taken(batch: seq<Datagram>, ret: int): seq<Datagram> {
    batch[..Max(0, Min(ret, |batch|))]
  }

  predicate SendtoOk(k: Kernel, i: nat) { i < |k.sendto| && k.sendto[i] }

  /** The first `n` datagrams sent one by one. */
  function OneByOne(batch: seq<Datagram>, k: Kernel, n: nat): seq<Datagram>
    requires n <= |batch|
  {
    if n == 0 then []
    else OneByOne(batch, k, n - 1) + if SendtoOk(k, n - 1) then [batch[n - 1]] else []
  }

  predicate Uniform(batch: seq<Datagram>) {
    && |batch| >= 2
    && forall i :: 0 <= i < |batch| ==> |batch[i].data| == |batch[0].data| && batch[i].addr == batch[0].addr
  }

  datatype Path = Gso | Mmsg | Retry | Sendto

  /** Which kernel call finally takes the batch. */
  function Chosen(batch: seq<Datagram>, gso: bool, txtime: bool, k: Kernel): Path {
    if gso && Uniform(batch) && k.gso then Gso
    else if k.mmsg >= 0 then Mmsg
    else if txtime && k.retry >= 0 then Retry
    else Sendto
  }

  function OnWire(batch: seq<Datagram>, path: Path, k: Kernel): seq<Datagram> {
    match path
    case Gso => if batch == [] then [] else GsoWire(Flatten(Payloads(batch)), |batch[0].data|, batch[0].addr)
    case Mmsg => Taken(batch, k.mmsg)
    case Retry => Taken(batch, k.retry)
    case Sendto => OneByOne(batch, k, |batch|)
  }

  /** The kernel takes all of the batch; an empty datagram cannot travel as a GSO segment. */
  predicate Whole(batch: seq<Datagram>, path: Path, k: Kernel) {
    match path
    case Gso => batch == [] || batch[0].data != []
    case Mmsg => k.mmsg >= |batch|
    case Retry => k.retry >= |batch|
    case Sendto => forall i :: 0 <= i < |batch| ==> SendtoOk(k, i)
  }

  predicate Subsequence<T(==)>(a: seq<T>, b: seq<T>) {
    if a == [] then true
    else if b == [] then false
    else (a[|a| - 1] == b[|b| - 1] && Subsequence(a[..|a| - 1], b[..|b| - 1])) || Subsequence(a, b[..|b| - 1])
  }

  lemma {:induction false} SubsequenceShorter<T>(a: seq<T>, b: seq<T>)
    requires Subsequence(a, b)
    ensures |a| <= |b|
    ensures |a| == |b| ==> a == b
    decreases |b|
  {
    if a != [] {
      if a[|a| - 1] == b[|b| - 1] && Subsequence(a[..|a| - 1], b[..|b| - 1]) {
        SubsequenceShorter(a[..|a| - 1], b[..|b| - 1]);
        assert a == a[..|a| - 1] + [a[|a| - 1]];
        assert b == b[..|b| - 1] + [b[|b| - 1]];
      } else {
        SubsequenceShorter(a, b[..|b| - 1]);
      }
    }
  }

  /** Matching continues: `c` after `a`, `d` after `b`. */
  lemma {:induction false} SubsequenceConcat<T>(a: seq<T>, b: seq<T>, c: seq<T>, d: seq<T>)
    requires Subsequence(a, b) && Subsequence(c, d)
    ensures Subsequence(a + c, b + d)
    decreases |d|
  {
    if d == [] {
      assert a + c == a && b + d == b;
    } else {
      var d' := d[..|d| - 1];
      assert (b + d)[..|b + d| - 1] == b + d';
      if c != [] && c[|c| - 1] == d[|d| - 1] && Subsequence(c[..|c| - 1], d') {
        SubsequenceConcat(a, b, c[..|c| - 1], d');
        assert (a + c)[..|a + c| - 1] == a + c[..|c| - 1];
      } else {
        SubsequenceConcat(a, b, c, d');
      }
    }
  }

  lemma {:induction false} SubsequencePrefix<T>(s: seq<T>, n: nat)
    requires n <= |s|
    ensures Subsequence(s[..n], s)
    decreases |s|
  {
    if n == |s| && n > 0 {
      SubsequencePrefix(s[..n - 1], n - 1);
      assert s[..n - 1][..n - 1] == s[..n][..n - 1];
    } else if n > 0 {
      SubsequencePrefix(s[..|s| - 1], n);
      assert s[..|s| - 1][..n] == s[..n];
    }
  }

  lemma SubsequenceSelf<T>(s: seq<T>)
    ensures Subsequence(s, s)
  {
    SubsequencePrefix(s, |s|);
    assert s[..|s|] == s;
  }

  lemma {:induction false} OneByOneKeepsOrder(batch: seq<Datagram>, k: Kernel, n: nat)
    requires n <= |batch|
    ensures Subsequence(OneByOne(batch, k, n), batch[..n])
  {
    if n > 0 {
      var last := batch[n - 1];
      OneByOneKeepsOrder(batch, k, n - 1);
      assert batch[..n] == batch[..n - 1] + [last];
      var more := if SendtoOk(k, n - 1) then [last] else [];
      SubsequenceSelf([last]);
      SubsequenceConcat(OneByOne(batch, k, n - 1), batch[..n - 1], more, [last]);
    }
  }

  lemma {:induction false} OneByOneCounts(batch: seq<Datagram>, k: Kernel, n: nat)
    requires n <= |batch|
    ensures |OneByOne(batch, k, n)| <= n
    ensures |OneByOne(batch, k, n)| == n <==> forall i :: 0 <= i < n ==> SendtoOk(k, i)
  {
    if n > 0 {
      OneByOneCounts(batch, k, n - 1);
    }
  }

  lemma UniformPacked(batch: seq<Datagram>)
    requires Uniform(batch) && batch[0].data != []
    ensures OnWire(batch, Gso, Kernel(true, 0, 0, [])) == batch
  {
    PackThenSplit(Payloads(batch), |batch[0].data|);
  }

  lemma {:induction false} EmptyPayloads(segs: seq<seq<Byte>>)
    requires forall i :: 0 <= i < |segs| ==> segs[i] == []
    ensures Flatten(segs) == []
  {
    if segs != [] {
      EmptyPayloads(segs[1..]);
    }
  }

  /** Whichever path runs, the wire gets datagrams of the batch in order, all of them exactly if it takes the whole. */
  lemma OnWireExact(batch: seq<Datagram>, path: Path, k: Kernel)
    requires path.Gso? ==> Uniform(batch)
    requires (path.Mmsg? ==> k.mmsg >= 0) && (path.Retry? ==> k.retry >= 0)
    ensures Subsequence(OnWire(batch, path, k), batch)
    ensures OnWire(batch, path, k) == batch <==> Whole(batch, path, k)
  {
    assert batch[..|batch|] == batch;
    match path {
      case Gso =>
        if batch[0].data != [] {
          UniformPacked(batch);
          SubsequencePrefix(batch, |batch|);
        } else {
          EmptyPayloads(Payloads(batch));
          assert OnWire(batch, path, k) == batch[..1];
          SubsequencePrefix(batch, 1);
        }
      case Mmsg => SubsequencePrefix(batch, Max(0, Min(k.mmsg, |batch|)));
      case Retry => SubsequencePrefix(batch, Max(0, Min(k.retry, |batch|)));
      case Sendto =>
        OneByOneKeepsOrder(batch, k, |batch|);
        OneByOneCounts(batch, k, |batch|);
        SubsequenceShorter(OneByOne(batch, k, |batch|), batch);
    }
  }

  // ---------- runs of add and flush ----------

  datatype Sender = Sender(pending: seq<Datagram>, gso: bool, txtime: bool, wire: seq<Datagram>)

  datatype Call = Add(dg: Datagram, k: Kernel, direct: bool) | Flush(k: Kernel)

  function FlushIn(s: Sender, k: Kernel): Sender {
    if s.pending == [] then s
    else
      var path := Chosen(s.pending, s.gso, s.txtime, k);
      Sender([], s.gso && (Uniform(s.pending) ==> k.gso),
             s.txtime && (path == Gso || path == Mmsg), s.wire + OnWire(s.pending, path, k))
  }

  function Step(s: Sender, c: Call): Sender {
    match c
    case Flush(k) => FlushIn(s, k)
    case Add(dg, k, direct) =>
      if |dg.data| > MAX_PKT then
        var t := FlushIn(s, k);
        if direct then t.(wire := t.wire + [dg]) else t
      else
        var t := s.(pending := s.pending + [dg]);
        if |t.pending| >= BATCH_SIZE then FlushIn(t, k) else t
  }

  function Run(start: Sender, calls: seq<Call>): Sender {
    if calls == [] then start else Step(Run(start, calls[..|calls| - 1]), calls[|calls| - 1])
  }

  /** What the call adds. */
  function Adds(c: Call): seq<Datagram> { if c.Add? then [c.dg] else [] }

  function Added(calls: seq<Call>): seq<Datagram> {
    if calls == [] then []
    else Added(calls[..|calls| - 1]) + Adds(calls[|calls| - 1])
  }

  /** The batch the call hands to the kernel, if any. */
  function Batch(s: Sender, c: Call): seq<Datagram> {
    match c
    case Flush(_) => s.pending
    case Add(dg, _, _) =>
      if |dg.data| > MAX_PKT then s.pending
      else if |s.pending| + 1 >= BATCH_SIZE then s.pending + [dg]
      else []
  }

  /** Nothing handed to the kernel in this call is refused. */
  predicate Accepted(s: Sender, c: Call) {
    var batch := Batch(s, c);
    && Whole(batch, Chosen(batch, s.gso, s.txtime, c.k), c.k)
    && (c.Add? && |c.dg.data| > MAX_PKT ==> c.direct)
  }

  predicate AllAccepted(start: Sender, calls: seq<Call>) {
    calls == [] ||
    var before := calls[..|calls| - 1];
    AllAccepted(start, before) && Accepted(Run(start, before), calls[|calls| - 1])
  }

  function Out(s: Sender): seq<Datagram> { s.wire + s.pending }

  lemma FlushConserves(s: Sender, k: Kernel)
    ensures FlushIn(s, k).pending == [] && Subsequence(Out(FlushIn(s, k)), Out(s))
    ensures Out(FlushIn(s, k)) == Out(s) <==> Whole(s.pending, Chosen(s.pending, s.gso, s.txtime, k), k)
  {
    var path := Chosen(s.pending, s.gso, s.txtime, k);
    var sent := OnWire(s.pending, path, k);
    OnWireExact(s.pending, path, k);
    SubsequenceSelf(s.wire);
    Glue(s.wire, s.wire, sent, s.pending);
    assert Out(FlushIn(s, k)) == s.wire + sent;
  }

  lemma Glue(a: seq<Datagram>, b: seq<Datagram>, c: seq<Datagram>, d: seq<Datagram>)
    requires Subsequence(a, b) && Subsequence(c, d)
    ensures Subsequence(a + c, b + d)
    ensures a + c == b + d <==> a == b && c == d
  {
    SubsequenceShorter(a, b);
    SubsequenceShorter(c, d);
    SubsequenceConcat(a, b, c, d);
    assert |a| == |b| ==> a == b;
    assert |a| + |c| == |b| + |d| ==> |a| == |b| && |c| == |d|;
  }

  /** One call adds its datagram to what goes out, in order, and drops none exactly if the kernel accepts all. */
  lemma StepConserves(s: Sender, c: Call)
    ensures Subsequence(Out(Step(s, c)), Out(s) + Adds(c))
    ensures Out(Step(s, c)) == Out(s) + Adds(c) <==> Accepted(s, c)
  {
    if c.Flush? {
      FlushConserves(s, c.k);
      assert Out(s) + Adds(c) == Out(s);
    } else if |c.dg.data| > MAX_PKT {
      OversizeConserves(s, c);
    } else {
      OrdinaryConserves(s, c);
    }
  }

  lemma OrdinaryConserves(s: Sender, c: Call)
    requires c.Add? && |c.dg.data| <= MAX_PKT
    ensures Subsequence(Out(Step(s, c)), Out(s) + [c.dg])
    ensures Out(Step(s, c)) == Out(s) + [c.dg] <==> Accepted(s, c)
  {
    var t := s.(pending := s.pending + [c.dg]);
    assert Out(t) == Out(s) + [c.dg];
    if |t.pending| >= BATCH_SIZE {
      FlushConserves(t, c.k);
    } else {
      SubsequenceSelf(Out(t));
      assert Accepted(s, c);
    }
  }

  lemma OversizeConserves(s: Sender, c: Call)
    requires c.Add? && |c.dg.data| > MAX_PKT
    ensures Subsequence(Out(Step(s, c)), Out(s) + [c.dg])
    ensures Out(Step(s, c)) == Out(s) + [c.dg] <==> Accepted(s, c)
  {
    var t, direct := FlushIn(s, c.k), if c.direct then [c.dg] else [];
    FlushConserves(s, c.k);
    SubsequenceSelf([c.dg]);
    Glue(Out(t), Out(s), direct, [c.dg]);
    assert Out(Step(s, c)) == Out(t) + direct;
  }

  lemma {:induction false} SubsequenceTrans<T>(a: seq<T>, b: seq<T>, c: seq<T>)
    requires Subsequence(a, b) && Subsequence(b, c)
    ensures Subsequence(a, c)
    decreases |b| + |c|
  {
    if a != [] {
      var c' := c[..|c| - 1];
      if Subsequence(b, c') {
        SubsequenceTrans(a, b, c');
      } else if Subsequence(a, b[..|b| - 1]) {
        SubsequenceTrans(a, b[..|b| - 1], c');
      } else {
        SubsequenceTrans(a[..|a| - 1], b[..|b| - 1], c');
      }
    }
  }

  /**
   After any run of adds and flushes the wire followed by the pending datagrams holds added
   datagrams in order, each at most once, and exactly the added ones if and only if the kernel
   refused nothing.
   */
  lemma {:induction false} RunConserves(start: Sender, calls: seq<Call>)
    ensures Subsequence(Out(Run(start, calls)), Out(start) + Added(calls))
    ensures Out(Run(start, calls)) == Out(start) + Added(calls) <==> AllAccepted(start, calls)
    decreases |calls|
  {
    if calls == [] {
      assert Out(start) + [] == Out(start);
      SubsequenceSelf(Out(start));
    } else {
      var before, c := calls[..|calls| - 1], calls[|calls| - 1];
      RunConserves(start, before);
      var s := Run(start, before);
      StepConserves(s, c);
      RunGrows(Out(s), Out(start) + Added(before), Adds(c), Out(Step(s, c)));
      assert Out(start) + Added(calls) == Out(start) + Added(before) + Adds(c);
    }
  }

  lemma RunGrows(out: seq<Datagram>, added: seq<Datagram>, more: seq<Datagram>, next: seq<Datagram>)
    requires Subsequence(out, added) && Subsequence(next, out + more)
    ensures Subsequence(next, added + more)
    ensures next == added + more <==> out == added && next == out + more
  {
    SubsequenceSelf(more);
    SubsequenceConcat(out, added, more, more);
    SubsequenceTrans(next, out + more, added + more);
    SubsequenceShorter(out, added);
    SubsequenceShorter(next, out + more);
  }

  // ---------- what waits and what goes ----------

  /** Fewer than 64 datagrams wait, none larger than 1500 bytes. */
  predicate Bounded(s: Sender) { |s.pending| < 64 && forall i :: 0 <= i < |s.pending| ==> |s.pending[i].data| <= 1500 }

  /**
   A datagram of up to 1500 bytes waits unless it is the 64th; a larger one goes out at once, and
   the whole batch before it; a flush leaves nothing waiting.
   */
  lemma StepWaits(s: Sender, c: Call)
    requires Bounded(s)
    ensures var n := Step(s, c);
      && Bounded(n)
      && (c.Add? && |c.dg.data| <= 1500 && |s.pending| < 63 ==>
            n == s.(pending := s.pending + [c.dg]))
      && (c.Add? && |c.dg.data| <= 1500 && |s.pending| == 63 ==> n.pending == [])
      && (c.Add? && |c.dg.data| > 1500 ==>
            n.pending == [] && (c.direct ==> n.wire != [] && n.wire[|n.wire| - 1] == c.dg))
      && (c.Flush? ==> n.pending == [])
  {
    hide OnWire, Chosen;
  }

  lemma {:induction false} RunBounded(start: Sender, calls: seq<Call>)
    requires Bounded(start)
    ensures Bounded(Run(start, calls))
    decreases |calls|
  {
    hide Step;
    if calls != [] {
      RunBounded(start, calls[..|calls| - 1]);
      StepWaits(Run(start, calls[..|calls| - 1]), calls[|calls| - 1]);
    }
  }

  /** At least two datagrams of one size to one destination. */
  predicate OneFlow(batch: seq<Datagram>) {
    |batch| >= 2 && forall i, j :: 0 <= i < j < |batch| ==>
      |batch[i].data| == |batch[j].data| && batch[i].addr == batch[j].addr
  }

  /**
   The order of the paths: a segmented send if GSO is on and the batch is one flow; if that is
   refused GSO is off for good and one batched send is tried, then with timestamps off another,
   and only then each datagram alone.
   */
  lemma FallbackOrder(s: Sender, k: Kernel)
    requires s.pending != []
    ensures var n := FlushIn(s, k);
      var segmented := s.gso && OneFlow(s.pending);
      && n.gso == (s.gso && !(segmented && !k.gso))
      && n.txtime == (s.txtime && ((segmented && k.gso) || k.mmsg >= 0))
      && n.wire == s.wire
         + (if segmented && k.gso
            then GsoWire(Flatten(Payloads(s.pending)), |s.pending[0].data|, s.pending[0].addr)
            else if k.mmsg >= 0 then Taken(s.pending, k.mmsg)
            else if s.txtime && k.retry >= 0 then Taken(s.pending, k.retry)
            else OneByOne(s.pending, k, |s.pending|))
  {
    hide GsoWire, Taken, OneByOne, Flatten, Payloads;
    assert Uniform(s.pending) <==> OneFlow(s.pending);
  }

  // ---------- the sender object ----------

  method CopyTo(data: seq<Byte>, dst: array<Byte>, at: nat)
    requires at + |data| <= dst.Length
    modifies dst
    ensures dst[..at + |data|] == old(dst[..at]) + data
    ensures dst[at + |data|..] == old(dst[at + |data|..])
  {
    forall j | 0 <= j < |data| {
      dst[at + j] := data[j];
    }
  }

  lemma Fits(seg: nat, i: nat)
    requires seg <= MAX_PKT && i < BATCH_SIZE
    ensures 0 <= seg * i && seg * (i + 1) == seg * i + seg <= GSO_MAX
  {
    assert seg * (i + 1) <= MAX_PKT * (i + 1);
  }

  class BatchSender {
    const pktBufs: array<seq<Byte>>
    const pktSizes: array<nat>
    const addrs: array<Option<Address>>
    const gsoBuf: array<Byte>
    var count: nat
    var gsoEnabled: bool
    var txtimeEnabled: bool
    ghost var wire: seq<Datagram>

    ghost predicate Valid()
      reads this, pktBufs, pktSizes, addrs
    {
      && count < BATCH_SIZE && Slots()
    }

    /** Every buffer has its full length; the first `count` slots are in use. */
    ghost predicate Slots()
      reads this, pktBufs, pktSizes, addrs
    {
      && pktBufs.Length == pktSizes.Length == addrs.Length == BATCH_SIZE && gsoBuf.Length == GSO_MAX
      && count <= BATCH_SIZE
      && (forall i :: 0 <= i < BATCH_SIZE ==> |pktBufs[i]| == MAX_PKT)
      && (forall i :: 0 <= i < count ==> pktSizes[i] <= MAX_PKT && addrs[i].Some?)
    }

    ghost function Slot(i: nat): Datagram
      requires Slots() && i < count
      reads this, pktBufs, pktSizes, addrs
    {
      Datagram(pktBufs[i][..pktSizes[i]], addrs[i].value)
    }

    ghost function Pending(): (batch: seq<Datagram>)
      requires Slots()
      reads this, pktBufs, pktSizes, addrs
      ensures |batch| == count
    {
      seq(count, i requires 0 <= i < count && Slots() reads this, pktBufs, pktSizes, addrs => Slot(i))
    }

    ghost function Value(): Sender
      requires Slots()
      reads this, pktBufs, pktSizes, addrs
    {
      Sender(Pending(), gsoEnabled, txtimeEnabled, wire)
    }

    constructor (gso: bool, txtime: bool)
      ensures Valid() && Value() == Sender([], gso, txtime, [])
      ensures fresh(pktBufs) && fresh(pktSizes) && fresh(addrs) && fresh(gsoBuf)
    {
      pktBufs := new seq<Byte>[BATCH_SIZE](_ => seq(MAX_PKT, _ => 0));
      pktSizes := new nat[BATCH_SIZE](_ => 0);
      addrs := new Option<Address>[BATCH_SIZE](_ => None);
      gsoBuf := new Byte[GSO_MAX](_ => 0);
      count, gsoEnabled, txtimeEnabled, wire := 0, gso, txtime, [];
    }

    /** Whether the batch may travel as one segmented send. */
    method GsoEligible() returns (yes: bool)
      requires Slots()
      ensures yes <==> Uniform(Pending())
    {
      if count < 2 {
        return false;
      }
      var size0, addr0 := pktSizes[0], addrs[0].value;
      var i := 1;
      while i < count
        invariant 1 <= i <= count
        invariant forall j :: 0 <= j < i ==> pktSizes[j] == size0 && addrs[j].value == addr0
      {
        var a := addrs[i].value;
        if !(pktSizes[i] == size0 && a.ip == addr0.ip && a.port == addr0.port) {
          assert |Pending()[i].data| != |Pending()[0].data| || Pending()[i].addr != Pending()[0].addr;
          return false;
        }
        i := i + 1;
      }
      return true;
    }

    /** The coalescing buffer starts with the payloads, back to back. */
    method PackSegments()
      requires Slots() && Uniform(Pending())
      modifies gsoBuf
      ensures Slots() && Pending() == old(Pending())
      ensures pktSizes[0] * count <= GSO_MAX
      ensures gsoBuf[..pktSizes[0] * count] == Flatten(Payloads(Pending()))
    {
      var seg := pktSizes[0];
      ghost var batch := Pending();
      ghost var payloads := Payloads(batch);
      assert |batch[0].data| == seg;
      var i := 0;
      Fits(seg, 0);
      while i < count
        invariant 0 <= i <= count && Slots() && Pending() == batch
        invariant seg * i <= GSO_MAX
        invariant gsoBuf[..seg * i] == Flatten(payloads[..i])
      {
        assert batch[i] == Slot(i);
        assert payloads[i] == batch[i].data;
        Fits(seg, i);
        assert payloads[..i + 1] == payloads[..i] + [payloads[i]];
        FlattenSnoc(payloads[..i], payloads[i]);
        CopyTo(pktBufs[i][..pktSizes[i]], gsoBuf, seg * i);
        i := i + 1;
      }
      assert payloads[..count] == payloads;
    }

    /** One segmented send; if the kernel refuses it, GSO is switched off and the batch goes out unsegmented. */
    method FlushGso(k: Kernel)
      requires Slots() && Uniform(Pending())
      modifies this`gsoEnabled, this`txtimeEnabled, this`wire, gsoBuf
      ensures Slots() && Pending() == old(Pending())
      ensures gsoEnabled == (old(gsoEnabled) && k.gso)
      ensures txtimeEnabled == (old(txtimeEnabled) && (k.gso || k.mmsg >= 0))
      ensures wire == old(wire) + OnWire(Pending(), Chosen(Pending(), true, old(txtimeEnabled), k), k)
    {
      var seg, addr := pktSizes[0], addrs[0].value;
      assert Pending()[0] == Slot(0);
      PackSegments();
      assert Pending()[0] == Slot(0);
      if k.gso {
        wire := wire + GsoWire(gsoBuf[..seg * count], seg, addr);
      } else {
        gsoEnabled := false;
        FlushSendmmsg(k);
      }
    }

    /** The message vector of a batched send. */
    method Messages() returns (msgs: seq<Datagram>)
      requires Slots()
      ensures msgs == Pending()
    {
      msgs := [];
      for i := 0 to count
        invariant msgs == Pending()[..i]
      {
        assert Pending()[i] == Slot(i);
        msgs := msgs + [Datagram(pktBufs[i][..pktSizes[i]], addrs[i].value)];
      }
    }

    method FlushSendmmsg(k: Kernel)
      requires Slots()
      modifies this`txtimeEnabled, this`wire
      ensures Slots() && Pending() == old(Pending())
      ensures txtimeEnabled == (old(txtimeEnabled) && k.mmsg >= 0)
      ensures wire == old(wire) + OnWire(Pending(), Chosen(Pending(), false, old(txtimeEnabled), k), k)
    {
      hide Uniform, GsoWire;
      var msgs := Messages();
      var ret := k.mmsg;
      if ret >= 0 {
        wire := wire + Taken(msgs, ret);
        return;
      }
      if txtimeEnabled {
        txtimeEnabled := false;
        ret := k.retry;
        if ret >= 0 {
          wire := wire + Taken(msgs, ret);
        }
      }
      if ret < 0 {
        ghost var before := wire;
        for i := 0 to count
          invariant Slots() && Pending() == msgs
          invariant wire == before + OneByOne(msgs, k, i)
        {
          assert msgs[i] == Slot(i);
          if SendtoOk(k, i) {
            wire := wire + [Datagram(pktBufs[i][..pktSizes[i]], addrs[i].value)];
          }
        }
      }
    }

    method FlushBatch(k: Kernel)
      requires Slots()
      modifies this`count, this`gsoEnabled, this`txtimeEnabled, this`wire, gsoBuf
      ensures Valid() && Value() == FlushIn(old(Value()), k)
    {
      if count == 0 {
        return;
      }
      var eligible := GsoEligible();
      if gsoEnabled && eligible {
        FlushGso(k);
      } else {
        FlushSendmmsg(k);
      }
      count := 0;
    }

    method Enqueue(data: seq<Byte>, addr: Address)
      requires Valid() && |data| <= MAX_PKT
      modifies this`count, pktBufs, pktSizes, addrs
      ensures Slots() && count == old(count) + 1
      ensures Pending() == old(Pending()) + [Datagram(data, addr)]
    {
      var i := count;
      pktBufs[i] := data + pktBufs[i][|data|..];
      pktSizes[i] := |data|;
      addrs[i] := Some(addr);
      count := count + 1;
      assert pktBufs[i][..pktSizes[i]] == data;
    }

    /** A large datagram is sent at once, after what is pending; others wait in a slot until the batch is full. */
    method AddDatagram(data: seq<Byte>, addr: Address, k: Kernel, direct: bool)
      requires Valid()
      modifies this, pktBufs, pktSizes, addrs, gsoBuf
      ensures Valid() && Value() == Step(old(Value()), Add(Datagram(data, addr), k, direct))
    {
      if |data| > MAX_PKT {
        FlushBatch(k);
        if direct {
          wire := wire + [Datagram(data, addr)];
        }
        return;
      }
      Enqueue(data, addr);
      if count >= BATCH_SIZE {
        FlushBatch(k);
      }
    }
  }
}
