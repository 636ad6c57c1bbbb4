/**
 Building ACK frames from the list of received packet numbers, and what such a frame
 means (section 19.3.1 of RFC 9000).
 */
module AckRanges {
  import opened Bytes

  datatype Range = Range(gap: nat, len: nat)

  datatype AckFrame = AckFrame(largest: nat, first: nat, ranges: seq<Range>)

  // ---------- meaning of a frame ----------

  /** Packet number `x` lies in the run of `len + 1` numbers ending at `top`, or in a later range. */
  predicate Acks(top: int, len: nat, ranges: seq<Range>, x: int)
    decreases |ranges|
  {
    || top - len <= x <= top
    || (ranges != [] && Acks(top - len - ranges[0].gap - 2, ranges[0].len, ranges[1..], x))
  }

  /** The lowest number of the last range. */
  function Lowest(top: int, len: nat, ranges: seq<Range>): int
    decreases |ranges|
  {
    if ranges == [] then top - len
    else Lowest(top - len - ranges[0].gap - 2, ranges[0].len, ranges[1..])
  }

  predicate Acknowledges(f: AckFrame, x: int) { Acks(f.largest, f.first, f.ranges, x) }

  /** Section 19.3.1 of RFC 9000: a frame is malformed if a computed packet number is negative. */
  predicate WellFormed(f: AckFrame) { Lowest(f.largest, f.first, f.ranges) >= 0 }

  lemma {:induction false} AppendRange(top: int, len: nat, ranges: seq<Range>, r: Range, x: int)
    ensures Acks(top, len, ranges + [r], x)
       <==> Acks(top, len, ranges, x) || (var t := Lowest(top, len, ranges) - r.gap - 2; t - r.len <= x <= t)
    ensures Lowest(top, len, ranges + [r]) == Lowest(top, len, ranges) - r.gap - 2 - r.len
    decreases |ranges|
  {
    var all := ranges + [r];
    if ranges == [] {
      assert all == [r] && all[1..] == [];
    } else {
      assert all[0] == ranges[0] && all[1..] == ranges[1..] + [r];
      AppendRange(top - len - ranges[0].gap - 2, ranges[0].len, ranges[1..], r, x);
    }
  }

  /** How the peer's loss recovery walks a received frame, clamping at zero. */
  predicate PeerAcks(smallest: nat, ranges: seq<Range>, x: nat) {
    ranges != [] &&
    var top := if smallest > ranges[0].gap + 2 then smallest - ranges[0].gap - 2 else 0;
    var low := if top > ranges[0].len then top - ranges[0].len else 0;
    low <= x <= top || PeerAcks(low, ranges[1..], x)
  }

  predicate PeerAcknowledges(f: AckFrame, x: nat) {
    var smallest := if f.largest > f.first then f.largest - f.first else 0;
    smallest <= x <= f.largest || PeerAcks(smallest, f.ranges, x)
  }

  lemma {:induction false} LowestIsLowest(top: int, len: nat, ranges: seq<Range>)
    ensures Lowest(top, len, ranges) <= top - len
    decreases |ranges|
  {
    if ranges != [] {
      LowestIsLowest(top - len - ranges[0].gap - 2, ranges[0].len, ranges[1..]);
    }
  }

  lemma {:induction false} PeerWalk(top: nat, len: nat, ranges: seq<Range>, x: nat)
    requires Lowest(top, len, ranges) >= 0 && len <= top
    ensures PeerAcks(top - len, ranges, x)
       <==> ranges != [] && Acks(top - len - ranges[0].gap - 2, ranges[0].len, ranges[1..], x)
    decreases |ranges|
  {
    if ranges != [] {
      var t := top - len - ranges[0].gap - 2;
      LowestIsLowest(t, ranges[0].len, ranges[1..]);
      PeerWalk(t, ranges[0].len, ranges[1..], x);
    }
  }

  /** On well-formed frames the clamps never fire: the peer reads the frame as the RFC does. */
  lemma PeerReadsTheSame(f: AckFrame, x: nat)
    requires WellFormed(f)
    ensures PeerAcknowledges(f, x) <==> Acknowledges(f, x)
  {
    LowestIsLowest(f.largest, f.first, f.ranges);
    PeerWalk(f.largest, f.first, f.ranges, x);
  }

  // ---------- building a frame ----------

  predicate Sorted(s: seq<nat>) { forall i, j :: 0 <= i < j < |s| ==> s[i] <= s[j] }

  ghost predicate Distinct(s: seq<nat>) { forall i, j :: 0 <= i < j < |s| ==> s[i] != s[j] }

  predicate Increasing(s: seq<nat>) { forall i, j :: 0 <= i < j < |s| ==> s[i] < s[j] }

  function Insert(x: nat, s: seq<nat>): (r: seq<nat>)
    requires Sorted(s)
    ensures Sorted(r) && |r| > 0 && r[0] == (if s == [] then x else Min(x, s[0]))
  {
    if s == [] || x <= s[0] then [x] + s
    else
      var r := Insert(x, s[1..]);
      SortedCons(s[0], r);
      [s[0]] + r
  }

  lemma SortedCons(x: nat, s: seq<nat>)
    requires Sorted(s) && (s == [] || x <= s[0])
    ensures Sorted([x] + s)
  {
  }

  lemma {:induction false} InsertMembers(x: nat, s: seq<nat>)
    requires Sorted(s)
    ensures multiset(Insert(x, s)) == multiset(s) + multiset{x}
    decreases |s|
  {
    if s != [] && x > s[0] {
      InsertMembers(x, s[1..]);
      assert s == [s[0]] + s[1..];
    }
  }

  /** The library sort. */
  function Sort(s: seq<nat>): (r: seq<nat>)
    ensures Sorted(r)
  {
    if s == [] then [] else Insert(s[0], Sort(s[1..]))
  }

  lemma {:induction false} SortPermutes(s: seq<nat>)
    ensures multiset(Sort(s)) == multiset(s)
    decreases |s|
  {
    if s != [] {
      SortPermutes(s[1..]);
      InsertMembers(s[0], Sort(s[1..]));
      assert s == [s[0]] + s[1..];
    }
  }

  lemma SortMembers(s: seq<nat>, x: nat)
    ensures x in Sort(s) <==> x in s
  {
    SortPermutes(s);
    assert x in multiset(Sort(s)) <==> x in multiset(s);
  }

  lemma {:induction false} DistinctMultiplicity(s: seq<nat>)
    ensures Distinct(s) <==> forall x :: multiset(s)[x] <= 1
    decreases |s|
  {
    if s != [] {
      var rest := s[1..];
      assert s == [s[0]] + rest;
      DistinctMultiplicity(rest);
      if Distinct(s) {
        assert forall i :: 0 <= i < |rest| ==> rest[i] == s[i + 1];
        assert s[0] !in rest;
        assert multiset(rest)[s[0]] == 0;
      }
      if forall x :: multiset(s)[x] <= 1 {
        assert forall x :: multiset(rest)[x] <= multiset(s)[x];
        assert multiset(rest)[s[0]] == 0;
        assert s[0] !in rest;
        assert forall i :: 1 <= i < |s| ==> s[i] == rest[i - 1];
      }
    }
  }

  lemma SortDistinct(s: seq<nat>)
    ensures Increasing(Sort(s)) <==> Distinct(s)
  {
    DistinctMultiplicity(s);
    DistinctMultiplicity(Sort(s));
    SortPermutes(s);
    assert Distinct(Sort(s)) <==> Increasing(Sort(s));
  }

  /** `f` acknowledges exactly the numbers of `s`. */
  ghost predicate Exactly(f: AckFrame, s: seq<nat>) {
    forall x: int :: Acknowledges(f, x) <==> x in s
  }

  /** Positions `lo..hi` hold consecutive numbers. */
  ghost predicate IsRun(pns: seq<nat>, lo: int, hi: int) {
    0 <= lo <= hi < |pns| && forall j :: lo <= j <= hi ==> pns[j] == pns[hi] - (hi - j)
  }

  /** The run cannot be prolonged downward. */
  predicate Maximal(pns: seq<nat>, lo: int)
    requires 0 <= lo < |pns|
  {
    lo == 0 || pns[lo - 1] + 1 != pns[lo]
  }

  /**
   Counts downward from position `hi` while numbers are consecutive.  The subtraction that
   computes the number looked for raises below zero; that happens only on a repeated zero.
   */
  method RunDown(pns: seq<nat>, hi: nat) returns (raised: bool, lo: int)
    requires Sorted(pns) && hi < |pns|
    ensures IsRun(pns, lo, hi)
    ensures raised ==> lo > 0 && pns[lo - 1] == pns[lo]
    ensures !raised ==> Maximal(pns, lo)
  {
    var top, len, i := pns[hi], 1, hi - 1;
    lo := hi;
    while i >= 0
      invariant -1 <= i < hi && lo == i + 1 && len == hi - i && IsRun(pns, lo, hi)
    {
      if top < len {
        return true, lo;
      }
      if pns[i] != top - len {
        return false, lo;
      }
      len, i, lo := len + 1, i - 1, i;
    }
    raised := false;
  }

  /**
   The downward walk over a sorted list.  `None` is the exception raised when a checked
   64-bit subtraction would go below zero.
   */
  method Walk(pns: seq<nat>) returns (r: Option<AckFrame>)
    requires Sorted(pns) && pns != []
    ensures r.Some? <==> Increasing(pns)
    ensures r.Some? ==> WellFormed(r.value) && Exactly(r.value, pns)
  {
    var raised, lo := RunDown(pns, |pns| - 1);
    if raised {
      return None;
    }
    var frame := AckFrame(pns[|pns| - 1], |pns| - 1 - lo, []);
    RunIsExact(pns, lo, |pns| - 1);
    assert pns[lo..|pns| - 1 + 1] == pns[lo..];
    while lo > 0
      invariant 0 <= lo < |pns| && Maximal(pns, lo)
      invariant Increasing(pns[lo..])
      invariant Lowest(frame.largest, frame.first, frame.ranges) == pns[lo]
      invariant Exactly(frame, pns[lo..])
    {
      var smallest, hi := pns[lo], lo - 1;
      if smallest - pns[hi] < 2 {
        return None;
      }
      raised, lo := RunDown(pns, hi);
      if raised {
        return None;
      }
      RangeIsExact(frame, pns, lo, hi, smallest);
      frame := frame.(ranges := frame.ranges + [Range(smallest - pns[hi] - 2, hi - lo)]);
    }
    assert pns[0..] == pns;
    r := Some(frame);
  }

  /** A run of consecutive numbers. */
  lemma RunIsExact(pns: seq<nat>, lo: nat, hi: nat)
    requires IsRun(pns, lo, hi)
    ensures forall x: int {:trigger x in pns[lo..hi + 1]} :: pns[lo] <= x <= pns[hi] <==> x in pns[lo..hi + 1]
    ensures Increasing(pns[lo..hi + 1])
  {
    var s := pns[lo..hi + 1];
    forall x: int | pns[lo] <= x <= pns[hi] ensures x in s {
      assert s[x - pns[lo]] == x;
    }
  }

  /** Appending the range of a lower run adds exactly that run. */
  lemma RangeIsExact(f: AckFrame, pns: seq<nat>, lo: nat, hi: nat, smallest: nat)
    requires IsRun(pns, lo, hi) && hi + 1 < |pns|
    requires Lowest(f.largest, f.first, f.ranges) == smallest == pns[hi + 1]
    requires smallest - pns[hi] >= 2
    requires Exactly(f, pns[hi + 1..]) && Increasing(pns[hi + 1..])
    ensures var r := Range(smallest - pns[hi] - 2, hi - lo);
            var g := f.(ranges := f.ranges + [r]);
            && Exactly(g, pns[lo..]) && Lowest(g.largest, g.first, g.ranges) == pns[lo]
    ensures Increasing(pns[lo..])
  {
    var r := Range(smallest - pns[hi] - 2, hi - lo);
    var g := f.(ranges := f.ranges + [r]);
    RunIsExact(pns, lo, hi);
    assert pns[lo..] == pns[lo..hi + 1] + pns[hi + 1..];
    AppendRange(f.largest, f.first, f.ranges, r, 0);
    forall x: int ensures Acknowledges(g, x) <==> x in pns[lo..] {
      AppendRange(f.largest, f.first, f.ranges, r, x);
      assert Acknowledges(f, x) <==> x in pns[hi + 1..];
    }
    var a, b := pns[lo..hi + 1], pns[hi + 1..];
    assert b[0] == smallest && a[|a| - 1] == pns[hi];
  }

  /**
   A frame is built exactly when no packet number is repeated; it then acknowledges exactly
   the numbers of the list.  Nothing removes duplicates before this point.
   */
  method BuildAck(received: seq<nat>) returns (r: Option<AckFrame>)
    requires received != []
    ensures r.Some? <==> Distinct(received)
    ensures r.Some? ==> WellFormed(r.value) && Exactly(r.value, received)
  {
    SortDistinct(received);
    forall x: nat ensures x in Sort(received) <==> x in received { SortMembers(received, x); }
    SortPermutes(received);
    assert |Sort(received)| == |received| by {
      assert |multiset(Sort(received))| == |multiset(received)|;
    }
    r := Walk(Sort(received));
    if r.Some? {
      forall x: int ensures Acknowledges(r.value, x) <==> x in received {
        assert Acknowledges(r.value, x) <==> x in Sort(received);
        if x < 0 {
          assert x !in received && x !in Sort(received);
        }
      }
    }
  }

  // ---------- one packet number space over time ----------

  /** Numbers received since the last ACK, whether an ACK is due, and all numbers and frames so far. */
  datatype Space = Space(pending: seq<nat>, due: bool, received: seq<nat>, emitted: seq<AckFrame>)

  const FRESH := Space([], false, [], [])

  ghost predicate Receives(s: Space, n: Space, pn: nat, eliciting: bool) {
    n == s.(pending := s.pending + [pn], due := s.due || eliciting, received := s.received + [pn])
  }

  /** An ACK is written if one is due and something was received; the list is then cleared. */
  ghost predicate Sends(s: Space, n: Space) {
    if s.due && s.pending != [] then
      exists f :: WellFormed(f) && Exactly(f, s.pending) && n == Space([], false, s.received, s.emitted + [f])
    else n == s
  }

  ghost predicate Next(s: Space, n: Space) {
    Sends(s, n) || exists pn, eliciting :: Receives(s, n, pn, eliciting)
  }

  ghost predicate IsHistory(t: seq<Space>) {
    t != [] && t[0] == FRESH && forall i :: 0 <= i < |t| - 1 ==> Next(t[i], t[i + 1])
  }

  /** Where a packet number currently is: still pending, or in the `j`-th frame. */
  ghost predicate InFrame(s: Space, j: int, x: int) {
    0 <= j < |s.emitted| && Acknowledges(s.emitted[j], x)
  }

  /** Every received number is in exactly one place, and nothing else is anywhere. */
  ghost predicate Accounted(s: Space) {
    && Distinct(s.pending)
    && (forall x: int :: x in s.received <==> x in s.pending || exists j :: InFrame(s, j, x))
    && (forall x: int, j :: InFrame(s, j, x) ==> x !in s.pending)
    && (forall x: int, j, k :: InFrame(s, j, x) && InFrame(s, k, x) ==> j == k)
  }

  lemma ReceivesAccounted(s: Space, n: Space, pn: nat, eliciting: bool)
    requires Accounted(s) && Receives(s, n, pn, eliciting) && Distinct(n.received)
    ensures Accounted(n)
  {
    assert forall i :: 0 <= i < |s.received| ==> s.received[i] == n.received[i] != n.received[|s.received|];
    assert pn !in s.received;
    assert forall x: int, j :: InFrame(n, j, x) <==> InFrame(s, j, x);
    assert pn !in s.pending;
  }

  lemma SendsAccounted(s: Space, n: Space)
    requires Accounted(s) && Sends(s, n)
    ensures Accounted(n)
  {
    if s.due && s.pending != [] {
      var last := |s.emitted|;
      assert forall x: int :: InFrame(n, last, x) <==> x in s.pending;
      assert forall x: int, j :: j != last ==> (InFrame(n, j, x) <==> InFrame(s, j, x));
      forall x: int ensures x in n.received <==> x in n.pending || exists j :: InFrame(n, j, x) {
        if exists j :: InFrame(s, j, x) {
          var j :| InFrame(s, j, x);
          assert InFrame(n, j, x);
        }
        if x in s.pending {
          assert InFrame(n, last, x);
        }
      }
    }
  }

  lemma DistinctPrefix(a: seq<nat>, b: seq<nat>)
    requires a <= b && Distinct(b)
    ensures Distinct(a)
  {
    assert forall i :: 0 <= i < |a| ==> a[i] == b[i];
  }

  /**
   Over any history in which no packet number is received twice: the frames are pairwise
   disjoint, and together with the pending list they hold exactly what was received.
   */
  lemma {:induction false} EveryNumberAckedOnce(t: seq<Space>, i: nat)
    requires IsHistory(t) && i < |t| && Distinct(t[i].received)
    ensures Accounted(t[i])
    decreases i
  {
    if i > 0 {
      var s, n := t[i - 1], t[i];
      assert Next(t[i - 1], t[i - 1 + 1]);
      if Sends(s, n) {
        EveryNumberAckedOnce(t, i - 1);
        SendsAccounted(s, n);
      } else {
        var pn, eliciting :| Receives(s, n, pn, eliciting);
        DistinctPrefix(s.received, n.received);
        EveryNumberAckedOnce(t, i - 1);
        ReceivesAccounted(s, n, pn, eliciting);
      }
    }
  }

  /** A send raises exactly when an ACK is due and a number is repeated; the list is then only sorted. */
  ghost predicate Stuck(s: Space) { s.due && !Distinct(s.pending) }

  ghost predicate SendsOrRaises(s: Space, n: Space) {
    if Stuck(s) then n == s.(pending := Sort(s.pending)) else Sends(s, n)
  }

  /** Any step of the space, raising sends included. */
  ghost predicate Steps(s: Space, n: Space) {
    SendsOrRaises(s, n) || exists pn, eliciting :: Receives(s, n, pn, eliciting)
  }

  ghost predicate IsRunOf(t: seq<Space>) { forall i :: 0 <= i < |t| - 1 ==> Steps(t[i], t[i + 1]) }

  lemma StuckStep(s: Space, n: Space)
    requires Stuck(s) && Steps(s, n)
    ensures Stuck(n) && n.emitted == s.emitted
  {
    if n == s.(pending := Sort(s.pending)) {
      DistinctMultiplicity(s.pending);
      DistinctMultiplicity(n.pending);
      SortPermutes(s.pending);
    } else {
      var pn, eliciting :| Receives(s, n, pn, eliciting);
      var i, j :| 0 <= i < j < |s.pending| && s.pending[i] == s.pending[j];
      assert n.pending[i] == n.pending[j];
    }
  }

  /**
   One repeated packet number stops the space for ever: once an ACK is due with a number pending
   twice, every later send raises and no further ACK is emitted, whatever is received.
   */
  lemma {:induction false} RepeatStopsTheSpace(t: seq<Space>, i: nat, j: nat)
    requires IsRunOf(t) && i <= j < |t| && Stuck(t[i])
    ensures Stuck(t[j]) && t[j].emitted == t[i].emitted
    decreases j
  {
    if i < j {
      RepeatStopsTheSpace(t, i, j - 1);
      assert Steps(t[j - 1], t[j - 1 + 1]);
      StuckStep(t[j - 1], t[j]);
    }
  }

  /** A number received twice before the ACK that is due for it brings this about. */
  lemma ReplayStopsTheSpace(s: Space, a: Space, b: Space, pn: nat)
    requires Receives(s, a, pn, true) && Receives(a, b, pn, true)
    ensures Stuck(b)
  {
    var k := |s.pending|;
    assert b.pending[k] == b.pending[k + 1] == pn;
  }

  class PacketNumberSpace {
    var receivedPns: seq<nat>
    var pendingAck: bool
    ghost var received: seq<nat>
    ghost var emitted: seq<AckFrame>

    ghost function Value(): Space
      reads this
    {
      Space(receivedPns, pendingAck, received, emitted)
    }

    constructor ()
      ensures Value() == FRESH
    {
      receivedPns, pendingAck, received, emitted := [], false, [], [];
    }

    method Receive(pn: nat, eliciting: bool)
      modifies this
      ensures Receives(old(Value()), Value(), pn, eliciting)
    {
      receivedPns := receivedPns + [pn];
      received := received + [pn];
      if eliciting {
        pendingAck := true;
      }
    }

    /** The ACK part of sending a packet; on a repeated number it raises and nothing is cleared. */
    method Send() returns (frame: Option<AckFrame>, raised: bool)
      modifies this
      ensures raised <==> old(pendingAck && !Distinct(receivedPns))
      ensures !raised ==> Sends(old(Value()), Value())
      ensures raised ==> Value() == old(Value()).(pending := Sort(old(receivedPns)))
      ensures frame.Some? <==> old(pendingAck && receivedPns != [] && Distinct(receivedPns))
      ensures frame.Some? ==>
        && WellFormed(frame.value) && Exactly(frame.value, old(receivedPns))
        && emitted == old(emitted) + [frame.value] && receivedPns == [] && !pendingAck
      ensures frame.None? ==> emitted == old(emitted)
    {
      if !pendingAck || receivedPns == [] {
        return None, false;
      }
      frame := BuildAck(receivedPns);
      if frame.None? {
        receivedPns := Sort(receivedPns);
        return None, true;
      }
      emitted := emitted + [frame.value];
      pendingAck := false;
      receivedPns := [];
      raised := false;
    }
  }
}
