/**
 The connection actor's pacing token bucket, over exact reals.
 */
module Pacing {

  const RATE_FLOOR := 312_500_000.0
  const BURST_SECONDS := 0.05

  function Floored(rate: real): real { if rate < RATE_FLOOR then RATE_FLOOR else rate }

  function Cap(rate: real): real { Floored(rate) * BURST_SECONDS }

  function Clamp(x: real, low: real, high: real): real
    requires low <= high
  {
    if x < low then low else if x > high then high else x
  }

  function Refill(tokens: real, rate: real, elapsed: real): real {
    Clamp(tokens + Floored(rate) * elapsed, 0.0, Cap(rate))
  }

  /** Total size of a list of datagrams. */
  function Total(sizes: seq<nat>): nat {
    if sizes == [] then 0 else Total(sizes[..|sizes| - 1]) + sizes[|sizes| - 1]
  }

  /** One flush: the connection's rate, the time since the previous flush, the datagrams it would produce. */
  datatype Flush = Flush(rate: real, elapsed: real, ready: seq<nat>)

  /** What `n` datagrams leave of the tokens. */
  function Left(tokens: real, ready: seq<nat>, n: nat): real
    requires n <= |ready|
  {
    tokens - Total(ready[..n]) as real
  }

  ghost predicate Affords(tokens: real, ready: seq<nat>, n: nat) {
    n <= |ready| && forall j :: 0 <= j < n ==> ready[j] > 0 && Left(tokens, ready, j) > 0.0
  }

  /** `n` datagrams are sent: each with tokens left before it, and no more only because nothing allows more. */
  ghost predicate SendsExactly(tokens: real, ready: seq<nat>, n: nat) {
    && Affords(tokens, ready, n)
    && (n == |ready| || ready[n] == 0 || Left(tokens, ready, n) <= 0.0)
  }

  function Sends(tokens: real, ready: seq<nat>): (n: nat)
    ensures n <= |ready|
  {
    SendsFrom(tokens, ready, 0)
  }

  function SendsFrom(tokens: real, ready: seq<nat>, i: nat): (n: nat)
    requires i <= |ready|
    ensures i <= n <= |ready|
    decreases |ready| - i
  {
    if tokens <= 0.0 || i == |ready| || ready[i] == 0 then i
    else SendsFrom(tokens - ready[i] as real, ready, i + 1)
  }

  lemma TotalStep(sizes: seq<nat>, i: nat)
    requires i < |sizes|
    ensures Total(sizes[..i + 1]) == Total(sizes[..i]) + sizes[i]
  {
    assert sizes[..i + 1][..i] == sizes[..i];
  }

  lemma LeftStep(tokens: real, ready: seq<nat>, i: nat)
    requires i < |ready|
    ensures Left(tokens, ready, i + 1) == Left(tokens, ready, i) - ready[i] as real
  {
    TotalStep(ready, i);
  }

  /** The greedy loop sends as much as the tokens allow, and that number is unique. */
  lemma SendsIff(tokens: real, ready: seq<nat>, n: nat)
    ensures SendsExactly(tokens, ready, n) <==> n == Sends(tokens, ready)
  {
    assert Left(tokens, ready, 0) == tokens;
    SendsFromExact(tokens, ready, 0);
    var m := Sends(tokens, ready);
    assert SendsExactly(tokens, ready, m);
  }

  lemma {:induction false} SendsFromExact(tokens: real, ready: seq<nat>, i: nat)
    requires Affords(tokens, ready, i)
    ensures SendsExactly(tokens, ready, SendsFrom(Left(tokens, ready, i), ready, i))
    decreases |ready| - i
  {
    if i < |ready| && Left(tokens, ready, i) > 0.0 && ready[i] > 0 {
      LeftStep(tokens, ready, i);
      SendsFromExact(tokens, ready, i + 1);
    }
  }

  function SentBytes(tokens: real, f: Flush): nat {
    Total(f.ready[..Sends(Refill(tokens, f.rate, f.elapsed), f.ready)])
  }

  function After(tokens: real, f: Flush): real {
    Refill(tokens, f.rate, f.elapsed) - SentBytes(tokens, f) as real
  }

  class Pacer {
    var tokens: real

    /** The initial burst is unlimited: `start` may be any balance. */
    constructor (start: real)
      ensures tokens == start
    {
      tokens := start;
    }

    method FlushOutgoing(f: Flush) returns (bytes: nat)
      modifies this
      ensures bytes == SentBytes(old(tokens), f) && tokens == After(old(tokens), f)
    {
      tokens := Refill(tokens, f.rate, f.elapsed);
      bytes := Drain(f.ready);
    }

    method Drain(ready: seq<nat>) returns (bytes: nat)
      modifies this
      ensures bytes == Total(ready[..Sends(old(tokens), ready)]) && tokens == old(tokens) - bytes as real
    {
      var i := 0;
      bytes := 0;
      assert ready[..0] == [];
      while tokens > 0.0 && i < |ready| && ready[i] != 0
        invariant 0 <= i <= |ready|
        invariant bytes == Total(ready[..i]) && tokens == old(tokens) - bytes as real
        invariant SendsFrom(tokens, ready, i) == Sends(old(tokens), ready)
      {
        TotalStep(ready, i);
        bytes := bytes + ready[i];
        tokens := tokens - ready[i] as real;
        i := i + 1;
      }
    }
  }

  // ---------- the bound over a run ----------

  predicate Sound(flushes: seq<Flush>, d: nat) {
    forall i :: 0 <= i < |flushes| ==> flushes[i].elapsed >= 0.0 && AtMost(flushes[i].ready, d)
  }

  predicate AtMost(sizes: seq<nat>, d: nat) { forall j :: 0 <= j < |sizes| ==> sizes[j] <= d }

  /** The balance after a run. */
  function Balance(start: real, flushes: seq<Flush>): real {
    if flushes == [] then start else After(Balance(start, flushes[..|flushes| - 1]), flushes[|flushes| - 1])
  }

  function TotalSent(start: real, flushes: seq<Flush>): nat {
    if flushes == [] then 0
    else
      var before, last := flushes[..|flushes| - 1], flushes[|flushes| - 1];
      TotalSent(start, before) + SentBytes(Balance(start, before), last)
  }

  /** One datagram of `d` bytes for each flush that ended in debt. */
  function Debts(start: real, flushes: seq<Flush>, d: nat): nat {
    if flushes == [] then 0
    else Debts(start, flushes[..|flushes| - 1], d) + if Balance(start, flushes) < 0.0 then d else 0
  }

  function Earned(f: Flush): real { Floored(f.rate) * f.elapsed }

  /** The first burst cap plus what every later flush earned. */
  function Allowance(flushes: seq<Flush>): real
    requires flushes != []
  {
    if |flushes| == 1 then Cap(flushes[0].rate)
    else
      var last := flushes[|flushes| - 1];
      Allowance(flushes[..|flushes| - 1]) + Earned(last)
  }

  function Positive(x: real): real { if x < 0.0 then 0.0 else x }

  /** A flush spends its refilled balance, and its last datagram may overdraw it by less than its size. */
  lemma FlushSpends(tokens: real, f: Flush, d: nat)
    requires AtMost(f.ready, d)
    ensures After(tokens, f) > -(d as real) || SentBytes(tokens, f) == 0
    ensures SentBytes(tokens, f) as real + Positive(After(tokens, f))
      <= Refill(tokens, f.rate, f.elapsed) + if After(tokens, f) < 0.0 then d as real else 0.0
  {
    var full := Refill(tokens, f.rate, f.elapsed);
    var n := Sends(full, f.ready);
    SendsIff(full, f.ready, n);
    if n > 0 {
      LeftStep(full, f.ready, n - 1);
    }
  }

  lemma RefillEarns(tokens: real, f: Flush)
    requires f.elapsed >= 0.0
    ensures 0.0 <= Refill(tokens, f.rate, f.elapsed) <= Cap(f.rate)
    ensures Refill(tokens, f.rate, f.elapsed) <= Positive(tokens) + Earned(f)
  {
    assert Floored(f.rate) * f.elapsed >= 0.0;
  }

  /**
   Whatever the initial balance, a run sends at most its allowance plus one datagram for each
   flush that ended in debt; what is left in the bucket counts against the allowance too.
   */
  lemma {:induction false} PacingBound(start: real, flushes: seq<Flush>, d: nat)
    requires flushes != [] && Sound(flushes, d)
    ensures TotalSent(start, flushes) as real + Positive(Balance(start, flushes))
      <= Allowance(flushes) + Debts(start, flushes, d) as real
    decreases |flushes|
  {
    var before, last := flushes[..|flushes| - 1], flushes[|flushes| - 1];
    if before != [] {
      PacingBound(start, before, d);
    }
    BoundStep(start, before, last, d);
    assert before + [last] == flushes;
  }

  lemma BoundStep(start: real, before: seq<Flush>, last: Flush, d: nat)
    requires last.elapsed >= 0.0 && AtMost(last.ready, d)
    requires before != [] ==>
      (TotalSent(start, before) as real + Positive(Balance(start, before))
       <= Allowance(before) + Debts(start, before, d) as real)
    ensures TotalSent(start, before + [last]) as real + Positive(Balance(start, before + [last]))
      <= Allowance(before + [last]) + Debts(start, before + [last], d) as real
  {
    var all, tokens := before + [last], Balance(start, before);
    assert all[..|all| - 1] == before;
    var full, after, sent := Refill(tokens, last.rate, last.elapsed), After(tokens, last), SentBytes(tokens, last);
    FlushSpends(tokens, last, d);
    RefillEarns(tokens, last);
    assert Balance(start, all) == after && TotalSent(start, all) == TotalSent(start, before) + sent;
    assert Debts(start, all, d) == Debts(start, before, d) + if after < 0.0 then d else 0;
    assert Allowance(all) == if before == [] then Cap(last.rate) else Allowance(before) + Earned(last);
  }

  /** At most one datagram per flush above the allowance. */
  lemma PacingBoundPerFlush(start: real, flushes: seq<Flush>, d: nat)
    requires flushes != [] && Sound(flushes, d)
    ensures TotalSent(start, flushes) as real <= Allowance(flushes) + (|flushes| * d) as real
  {
    PacingBound(start, flushes, d);
    DebtsAtMost(start, flushes, d);
  }

  lemma {:induction false} DebtsAtMost(start: real, flushes: seq<Flush>, d: nat)
    ensures Debts(start, flushes, d) <= |flushes| * d
    decreases |flushes|
  {
    if flushes != [] {
      DebtsAtMost(start, flushes[..|flushes| - 1], d);
      assert |flushes| * d == (|flushes| - 1) * d + d;
    }
  }

  // ---------- what is owed is sent ----------

  /** The rate in force: what the connection says, but at least 2.5 Gbps. */
  function Rate(rate: real): real { if rate > 312_500_000.0 then rate else 312_500_000.0 }

  /** A flush earns its rate for the time since the last one, up to 50 ms worth; a debt is forgiven at zero. */
  lemma RefillExact(tokens: real, rate: real, elapsed: real)
    ensures var refilled, cap := Refill(tokens, rate, elapsed), 0.05 * Rate(rate);
      var earned := tokens + Rate(rate) * elapsed;
      && 0.0 <= refilled <= cap
      && (refilled >= earned || refilled == cap)
      && (refilled <= earned || refilled == 0.0)
  {
    assert Floored(rate) == Rate(rate);
    assert Cap(rate) == 0.05 * Rate(rate) >= 0.0;
  }

  lemma Earns(rate: real, elapsed: real)
    requires elapsed > 0.0
    ensures Rate(rate) * elapsed > 0.0
  {
  }

  /** A flush after some time, from a balance that is not negative, sends at least the first datagram. */
  lemma FirstDatagramGoes(tokens: real, f: Flush)
    requires tokens >= 0.0 && f.elapsed > 0.0 && f.ready != [] && f.ready[0] > 0
    ensures SentBytes(tokens, f) >= f.ready[0]
  {
    hide Refill;
    RefillExact(tokens, f.rate, f.elapsed);
    Earns(f.rate, f.elapsed);
    var full := Refill(tokens, f.rate, f.elapsed);
    var n := Sends(full, f.ready);
    SendsIff(full, f.ready, n);
    assert f.ready[..0] == [] && Left(full, f.ready, 0) == full;
    TotalMonotone(f.ready, 1, n);
    TotalStep(f.ready, 0);
  }

  lemma {:induction false} TotalMonotone(sizes: seq<nat>, i: nat, n: nat)
    requires i <= |sizes| && n <= |sizes|
    ensures i <= n ==> Total(sizes[..i]) <= Total(sizes[..n])
    decreases n
  {
    if i < n {
      TotalMonotone(sizes, i, n - 1);
      TotalStep(sizes, n - 1);
    }
  }

  /** What a flush adds to the balance: what it earns, as far as the cap leaves room. */
  function Gain(tokens: real, f: Flush): real {
    var earned, room := Rate(f.rate) * f.elapsed, 0.05 * Rate(f.rate) - tokens;
    if earned <= room then earned else room
  }

  lemma GainIsKept(tokens: real, f: Flush)
    ensures SentBytes(tokens, f) as real + After(tokens, f) >= tokens + Gain(tokens, f)
  {
    hide Refill, SentBytes;
    RefillExact(tokens, f.rate, f.elapsed);
  }

  function Gains(start: real, flushes: seq<Flush>): real {
    if flushes == [] then 0.0
    else
      var before, last := flushes[..|flushes| - 1], flushes[|flushes| - 1];
      Gains(start, before) + Gain(Balance(start, before), last)
  }

  /** Nothing that was earned below the cap is lost: it is sent, or still in the bucket. */
  lemma {:induction false} NothingWithheld(start: real, flushes: seq<Flush>)
    ensures TotalSent(start, flushes) as real + Balance(start, flushes) >= start + Gains(start, flushes)
    decreases |flushes|
  {
    hide After, SentBytes, Gain;
    if flushes != [] {
      var before, last := flushes[..|flushes| - 1], flushes[|flushes| - 1];
      NothingWithheld(start, before);
      GainIsKept(Balance(start, before), last);
    }
  }

  /** The last flush left a datagram behind. */
  predicate LeftSome(start: real, flushes: seq<Flush>)
    requires flushes != []
  {
    var tokens, f := Balance(start, flushes[..|flushes| - 1]), flushes[|flushes| - 1];
    var n := Sends(Refill(tokens, f.rate, f.elapsed), f.ready);
    n < |f.ready| && f.ready[n] > 0
  }

  /** So over any run, unless its last flush left nothing behind, at least what was earned below the cap is sent. */
  lemma PacingLowerBound(start: real, flushes: seq<Flush>)
    requires flushes != [] && LeftSome(start, flushes)
    ensures TotalSent(start, flushes) as real >= start + Gains(start, flushes)
  {
    NothingWithheld(start, flushes);
    var tokens, f := Balance(start, flushes[..|flushes| - 1]), flushes[|flushes| - 1];
    var full := Refill(tokens, f.rate, f.elapsed);
    SendsIff(full, f.ready, Sends(full, f.ready));
  }
}
