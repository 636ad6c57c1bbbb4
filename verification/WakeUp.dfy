/**
 Handing responses from many handler fibers to one connection actor: a queue, and a wake
 channel of capacity one that is signalled without blocking after every push.
 */
module WakeUps {
  import opened Bytes

  datatype Response = Response(stream: nat, data: seq<Byte>)

  /** The mutex-guarded deque; each operation is atomic. */
  class ResponseRing {
    var deque: seq<Response>

    constructor ()
      ensures deque == []
    {
      deque := [];
    }

    method Push(r: Response) returns (ok: bool)
      modifies this
      ensures ok && deque == old(deque) + [r]
    {
      deque := deque + [r];
      ok := true;
    }

    method Pop() returns (r: Option<Response>)
      modifies this
      ensures old(deque) == [] ==> r == None && deque == []
      ensures old(deque) != [] ==> r == Some(old(deque)[0]) && deque == old(deque)[1..]
    {
      if deque == [] {
        return None;
      }
      r := Some(deque[0]);
      deque := deque[1..];
    }
  }

  /** The drain loop with nobody pushing meanwhile: everything, in order. */
  method DrainResponses(ring: ResponseRing) returns (written: seq<Response>)
    modifies ring
    ensures written == old(ring.deque) && ring.deque == []
  {
    written := [];
    var entry := ring.Pop();
    while entry.Some?
      invariant entry.Some? ==> written + [entry.value] + ring.deque == old(ring.deque)
      invariant entry.None? ==> written == old(ring.deque) && ring.deque == []
      decreases |ring.deque|, entry.Some?
    {
      written := written + [entry.value];
      ghost var left := ring.deque;
      entry := ring.Pop();
      if entry.Some? {
        assert left == [left[0]] + left[1..];
      }
    }
  }

  // ---------- the actor and its producers, interleaved ----------

  /**
   Where the actor is.  `Handling` is the packet branch from its receive up to its drain;
   `Checking` is the end of a loop iteration, where a closed connection leaves the loop.
   */
  datatype Pc = Selecting | Handling | Draining | Ticking | Checking | Stopped

  /** `midPush` holds the producers that have pushed and not yet signalled. */
  datatype State = State(
    pc: Pc, ring: seq<Response>, wake: bool, midPush: set<nat>,
    pushed: seq<Response>, popped: seq<Response>)

  const START := State(Selecting, [], false, {}, [], [])

  datatype Action =
    | Push(producer: nat, response: Response)
    | Signal(who: nat)
    | TakePacket
    | PacketDone
    | TakeWake
    | TakeTimer
    | TimerDone
    | PopOne
    | Loop(closed: bool)
    | Crash

  /** One atomic step of a producer or of the actor; an impossible step changes nothing. */
  function Next(s: State, a: Action): State {
    match a
    case Push(p, r) =>
      if p in s.midPush then s
      else s.(ring := s.ring + [r], pushed := s.pushed + [r], midPush := s.midPush + {p})
    case Signal(p) =>
      if p in s.midPush then s.(wake := true, midPush := s.midPush - {p}) else s
    case TakePacket => if s.pc == Selecting then s.(pc := Handling) else s
    case PacketDone => if s.pc == Handling then s.(pc := Draining) else s
    case TakeWake => if s.pc == Selecting && s.wake then s.(pc := Draining, wake := false) else s
    case TakeTimer => if s.pc == Selecting then s.(pc := Ticking) else s
    case TimerDone => if s.pc == Ticking then s.(pc := Checking) else s
    case PopOne =>
      if s.pc != Draining then s
      else if s.ring == [] then s.(pc := Checking)
      else s.(ring := s.ring[1..], popped := s.popped + [s.ring[0]])
    case Loop(closed) => if s.pc == Checking then s.(pc := if closed then Stopped else Selecting) else s
    case Crash => s.(pc := Stopped)
  }

  function Run(s: State, actions: seq<Action>): State
    decreases |actions|
  {
    if actions == [] then s else Run(Next(s, actions[0]), actions[1..])
  }

  predicate CommittedToDrain(s: State) { s.pc == Handling || s.pc == Draining }

  predicate NoLostWakeUp(s: State) {
    s.pc != Stopped && s.ring != [] ==> s.wake || s.midPush != {} || CommittedToDrain(s)
  }

  predicate Inv(s: State) { NoLostWakeUp(s) && s.pushed == s.popped + s.ring }

  lemma NextKeepsInv(s: State, a: Action)
    requires Inv(s)
    ensures Inv(Next(s, a))
  {
    match a
    case Push(p, r) => assert p in s.midPush || p in s.midPush + {p};
    case PopOne =>
      if s.ring != [] {
        assert s.popped + s.ring == s.popped + [s.ring[0]] + s.ring[1..];
      }
    case _ =>
  }

  /**
   In every reachable state, with any number of producers: a waiting response is never
   forgotten, and responses are taken exactly once, in the order they were pushed.
   */
  lemma {:induction false} NeverForgotten(s: State, actions: seq<Action>)
    requires Inv(s)
    ensures Inv(Run(s, actions))
    decreases |actions|
  {
    if actions != [] {
      NextKeepsInv(s, actions[0]);
      NeverForgotten(Next(s, actions[0]), actions[1..]);
    }
  }

  /** From the start, in every interleaving. */
  lemma NoResponseLost(actions: seq<Action>)
    ensures var s := Run(START, actions);
            && NoLostWakeUp(s) && s.popped <= s.pushed && s.ring == s.pushed[|s.popped|..]
  {
    NeverForgotten(START, actions);
  }

  /** `n` pops in a row. */
  function Pops(n: nat): seq<Action> { seq(n, _ => PopOne) }

  lemma {:induction false} DrainTakesAll(s: State)
    requires s.pc == Draining && s.pushed == s.popped + s.ring
    ensures Run(s, Pops(|s.ring| + 1)) == s.(pc := Checking, ring := [], popped := s.pushed)
    decreases |s.ring|
  {
    var n := Next(s, PopOne);
    assert Pops(|s.ring| + 1)[1..] == Pops(|s.ring|);
    if s.ring == [] {
      assert Pops(0) == [];
    } else {
      assert s.popped + s.ring == s.popped + [s.ring[0]] + s.ring[1..];
      DrainTakesAll(n);
    }
  }

  /**
   Progress: whenever the actor is about to select, something is waiting and no producer is
   half-way, the wake branch is ready, and taking it delivers everything.
   */
  lemma WaitingMeansReady(actions: seq<Action>)
    requires var s := Run(START, actions); s.pc == Selecting && s.ring != [] && s.midPush == {}
    ensures var s := Run(START, actions);
            && s.wake
            && Run(s, [TakeWake] + Pops(|s.ring| + 1)).popped == s.pushed
            && Run(s, [TakeWake] + Pops(|s.ring| + 1)).ring == []
  {
    NeverForgotten(START, actions);
    var s := Run(START, actions);
    var path := [TakeWake] + Pops(|s.ring| + 1);
    assert path[1..] == Pops(|s.ring| + 1);
    DrainTakesAll(Next(s, TakeWake));
  }
}
