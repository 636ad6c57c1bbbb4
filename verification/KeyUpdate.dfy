/**
 1-RTT key update (section 6 of RFC 9001).  Keys are generation numbers: an AEAD of
 generation g opens exactly the packets sealed under generation g with the packet number
 it is tried with.
 */
module KeyUpdates {
  import opened Bytes

  /** A protected short-header packet: the generation that sealed it, its KEY_PHASE bit and number. */
  datatype Packet = Packet(gen: nat, phase: nat, pn: nat)

  /** An endpoint's keys: receive and send AEAD, secrets, phases, and the retained receive AEAD. */
  datatype Keys = Keys(rx: nat, tx: nat, secrets: Option<nat>, phase: nat, peerPhase: nat, retained: Option<nat>)

  const FIRST := Keys(0, 0, Some(0), 0, 0, None)

  predicate Opens(gen: nat, p: Packet, pn: nat) { p.gen == gen && p.pn == pn }

  predicate OldOpens(k: Keys, p: Packet, pn: nat) { k.retained.Some? && Opens(k.retained.value, p, pn) }

  /** The keys afterwards, and whether some AEAD opened the packet. */
  datatype Opened = Opened(keys: Keys, ok: bool)

  function Trigger(k: Keys): Keys {
    if k.secrets.None? then k
    else
      var g := k.secrets.value + 1;
      Keys(g, g, Some(g), if k.phase == 0 then 1 else 0, k.peerPhase, Some(k.rx))
  }

  /** The peer's KEY_PHASE differs: try the next generation, then the retained one, then the current. */
  function PeerUpdate(k: Keys, p: Packet, pn: nat): Opened {
    if k.secrets.None? then Opened(k, Opens(k.rx, p, pn))
    else
      var g := k.secrets.value + 1;
      if Opens(g, p, pn) then Opened(Keys(g, g, Some(g), p.phase, p.phase, Some(k.rx)), true)
      else Opened(k, OldOpens(k, p, pn) || Opens(k.rx, p, pn))
  }

  function TryOpen(k: Keys, p: Packet, pn: nat): Opened {
    if p.phase != k.peerPhase then PeerUpdate(k, p, pn)
    else Opened(k, Opens(k.rx, p, pn) || OldOpens(k, p, pn))
  }

  /** First with the reconstructed packet number, then with the truncated one. */
  function Open(k: Keys, p: Packet, full: nat, truncated: nat): Opened {
    var first := TryOpen(k, p, full);
    if first.ok || full == truncated then first else TryOpen(first.keys, p, truncated)
  }

  class KeySchedule {
    var rx: nat
    var tx: nat
    var secrets: Option<nat>
    var phase: nat
    var peerPhase: nat
    var oldRx: Option<nat>

    ghost function Value(): Keys
      reads this
    {
      Keys(rx, tx, secrets, phase, peerPhase, oldRx)
    }

    constructor ()
      ensures Value() == FIRST
    {
      rx, tx, secrets, phase, peerPhase, oldRx := 0, 0, Some(0), 0, 0, None;
    }

    method TriggerKeyUpdate()
      modifies this
      ensures Value() == Trigger(old(Value()))
    {
      if secrets.None? {
        return;
      }
      oldRx := Some(rx);
      secrets := Some(secrets.value + 1);
      rx, tx := secrets.value, secrets.value;
      phase := if phase == 0 then 1 else 0;
    }

    method HandlePeerKeyUpdate(p: Packet, pn: nat) returns (ok: bool)
      modifies this
      ensures Opened(Value(), ok) == PeerUpdate(old(Value()), p, pn)
    {
      if secrets.None? {
        return Opens(rx, p, pn);
      }
      var next := secrets.value + 1;
      if Opens(next, p, pn) {
        oldRx := Some(rx);
        rx, tx, secrets := next, next, Some(next);
        peerPhase, phase := p.phase, p.phase;
        return true;
      }
      if oldRx.Some? && Opens(oldRx.value, p, pn) {
        return true;
      }
      ok := Opens(rx, p, pn);
    }

    method OpenWith(p: Packet, pn: nat) returns (ok: bool)
      modifies this
      ensures Opened(Value(), ok) == TryOpen(old(Value()), p, pn)
    {
      if p.phase != peerPhase {
        ok := HandlePeerKeyUpdate(p, pn);
      } else {
        ok := Opens(rx, p, pn) || (oldRx.Some? && Opens(oldRx.value, p, pn));
      }
    }

    method ReceiveShortHeader(p: Packet, full: nat, truncated: nat) returns (ok: bool)
      modifies this
      ensures Opened(Value(), ok) == Open(old(Value()), p, full, truncated)
    {
      ok := OpenWith(p, full);
      if !ok && full != truncated {
        ok := OpenWith(p, truncated);
      }
    }
  }

  /** The receive key, the send key and the secrets always move together. */
  predicate Coherent(k: Keys) {
    k.secrets == Some(k.rx) && k.tx == k.rx && (k.retained.Some? ==> k.retained.value < k.rx)
  }

  /**
   Exactly which packets an endpoint opens, and exactly when its keys move: to the next
   generation, on the first packet of that generation whose KEY_PHASE looks new.
   */
  lemma OpenExact(k: Keys, p: Packet, full: nat, truncated: nat)
    requires Coherent(k)
    ensures var r := Open(k, p, full, truncated);
            var numbered := p.pn == full || p.pn == truncated;
            var isNext := p.gen == k.rx + 1 && p.phase != k.peerPhase;
            && (r.ok <==> numbered && (p.gen == k.rx || k.retained == Some(p.gen) || isNext))
            && r.keys == (if numbered && isNext
                          then Keys(p.gen, p.gen, Some(p.gen), p.phase, p.phase, Some(k.rx)) else k)
  {
  }

  // ---------- two endpoints and a network that loses, repeats and reorders ----------

  /** Every packet ever sent stays available for delivery, any number of times. */
  datatype System = System(
    initiator: Keys, responder: Keys, confirmed: bool,
    toInitiator: set<Packet>, toResponder: set<Packet>)

  datatype Action =
    | InitiatorSends(pn: nat)
    | ResponderSends(pn: nat)
    | InitiatorReceives(p: Packet, full: nat, truncated: nat)
    | ResponderReceives(p: Packet, full: nat, truncated: nat)
    | InitiatorUpdates

  predicate Initial(s: System) {
    s.initiator == FIRST && s.responder == FIRST && s.toInitiator == {} && s.toResponder == {}
  }

  function Seal(k: Keys, pn: nat): Packet { Packet(k.tx, k.phase, pn) }

  /** One step; an action that is not possible leaves the system as it is. */
  function Next(s: System, a: Action): System {
    match a
    case InitiatorSends(pn) => s.(toResponder := s.toResponder + {Seal(s.initiator, pn)})
    case ResponderSends(pn) => s.(toInitiator := s.toInitiator + {Seal(s.responder, pn)})
    case InitiatorReceives(p, full, truncated) =>
      if p !in s.toInitiator then s
      else
        var r := Open(s.initiator, p, full, truncated);
        s.(initiator := r.keys, confirmed := s.confirmed || (r.ok && p.gen == s.initiator.rx))
    case ResponderReceives(p, full, truncated) =>
      if p !in s.toResponder then s
      else s.(responder := Open(s.responder, p, full, truncated).keys)
    case InitiatorUpdates =>
      if s.confirmed then s.(initiator := Trigger(s.initiator), confirmed := false) else s
  }

  function Run(s: System, actions: seq<Action>): System
    decreases |actions|
  {
    if actions == [] then s else Run(Next(s, actions[0]), actions[1..])
  }

  predicate Retained(k: Keys) {
    k.retained == if k.rx == 0 then None else Some(k.rx - 1)
  }

  predicate InFlight(ps: set<Packet>, newest: nat) {
    forall p :: p in ps ==> p.gen <= newest && p.phase == p.gen % 2
  }

  predicate Inv(s: System) {
    var i, r := s.initiator, s.responder;
    && Coherent(i) && Coherent(r) && Retained(i) && Retained(r)
    && i.phase == i.rx % 2 && r.phase == r.rx % 2
    && i.peerPhase == 0 && r.peerPhase == r.rx % 2
    && r.rx <= i.rx <= r.rx + 1
    && (s.confirmed ==> i.rx == r.rx)
    && InFlight(s.toInitiator, r.rx) && InFlight(s.toResponder, i.rx)
  }

  /** At the initiator: current or previous generation opens, and no receipt moves its keys. */
  lemma InitiatorOpens(s: System, p: Packet, full: nat, truncated: nat)
    requires Inv(s) && p in s.toInitiator
    ensures var r := Open(s.initiator, p, full, truncated);
            && r.keys == s.initiator
            && (r.ok <==> (p.pn == full || p.pn == truncated) && p.gen + 1 >= s.initiator.rx)
  {
    OpenExact(s.initiator, p, full, truncated);
  }

  /** At the responder: previous, current and next generation open, and only the next moves its keys. */
  lemma ResponderOpens(s: System, p: Packet, full: nat, truncated: nat)
    requires Inv(s) && p in s.toResponder
    ensures var r := Open(s.responder, p, full, truncated);
            && (r.ok <==> (p.pn == full || p.pn == truncated) && p.gen + 1 >= s.responder.rx)
            && (r.keys != s.responder <==> r.ok && p.gen == s.responder.rx + 1)
            && (r.keys != s.responder ==> r.keys.rx == p.gen == s.initiator.rx)
  {
    OpenExact(s.responder, p, full, truncated);
  }

  lemma NextKeepsInv(s: System, a: Action)
    requires Inv(s)
    ensures Inv(Next(s, a))
  {
    match a
    case InitiatorReceives(p, full, truncated) =>
      if p in s.toInitiator {
        InitiatorOpens(s, p, full, truncated);
      }
    case ResponderReceives(p, full, truncated) =>
      if p in s.toResponder {
        ResponderOpens(s, p, full, truncated);
        OpenExact(s.responder, p, full, truncated);
      }
    case _ =>
  }

  lemma {:induction false} RunKeepsInv(s: System, actions: seq<Action>)
    requires Inv(s)
    ensures Inv(Run(s, actions))
    decreases |actions|
  {
    if actions != [] {
      NextKeepsInv(s, actions[0]);
      RunKeepsInv(Next(s, actions[0]), actions[1..]);
    }
  }

  /**
   In every interleaving with one initiator that waits for confirmation: the generations
   never differ by more than one, and at either end a packet in flight is opened exactly
   when it is at most one generation older than the receiver's keys (given that one of the
   two candidate packet numbers is right); a packet that is not opened changes no keys.
   */
  lemma KeyUpdateSafety(s: System, actions: seq<Action>, p: Packet, full: nat, truncated: nat)
    requires Initial(s)
    ensures var e := Run(s, actions);
            && e.responder.rx <= e.initiator.rx <= e.responder.rx + 1
            && (p in e.toInitiator && (p.pn == full || p.pn == truncated) ==>
                  (Open(e.initiator, p, full, truncated).ok <==> e.initiator.rx <= p.gen + 1))
            && (p in e.toResponder && (p.pn == full || p.pn == truncated) ==>
                  (Open(e.responder, p, full, truncated).ok <==> e.responder.rx <= p.gen + 1))
            && (!Open(e.initiator, p, full, truncated).ok ==> Open(e.initiator, p, full, truncated).keys == e.initiator)
            && (!Open(e.responder, p, full, truncated).ok ==> Open(e.responder, p, full, truncated).keys == e.responder)
  {
    RunKeepsInv(s, actions);
    var e := Run(s, actions);
    OpenExact(e.initiator, p, full, truncated);
    OpenExact(e.responder, p, full, truncated);
    if p in e.toInitiator {
      InitiatorOpens(e, p, full, truncated);
    }
    if p in e.toResponder {
      ResponderOpens(e, p, full, truncated);
    }
  }

  /**
   Why one initiator only.  An update by an endpoint itself leaves `peerPhase` alone, so a
   later update by its peer is followed exactly when `peerPhase` still has the parity of the
   current generation.
   */
  lemma PeerUpdateFollowedIff(k: Keys, pn: nat)
    requires Coherent(k) && k.peerPhase < 2
    ensures Open(k, Packet(k.rx + 1, (k.rx + 1) % 2, pn), pn, pn).ok <==> k.peerPhase == k.rx % 2
  {
    OpenExact(k, Packet(k.rx + 1, (k.rx + 1) % 2, pn), pn, pn);
  }

  /** Two endpoints that both update once, after which the second update of one locks out the other. */
  lemma TwoInitiatorsDiverge()
    ensures var a, b := Trigger(FIRST), Trigger(FIRST);
            && Open(a, Seal(b, 7), 7, 7) == Opened(a, true)
            && !Open(b, Seal(Trigger(a), 8), 8, 8).ok
  {
    var a := Trigger(FIRST);
    OpenExact(a, Seal(a, 7), 7, 7);
    OpenExact(a, Seal(Trigger(a), 8), 8, 8);
  }

  /** Without application secrets there are no updates: no step moves the keys, and no next generation opens. */
  lemma NoSecretsNoUpdates(k: Keys, p: Packet, full: nat, truncated: nat)
    requires k.secrets.None?
    ensures Trigger(k) == k
    ensures var r := Open(k, p, full, truncated);
      && r.keys == k
      && (r.ok <==> (p.pn == full || p.pn == truncated)
                    && (p.gen == k.rx || (p.phase == k.peerPhase && k.retained == Some(p.gen))))
  {
  }
}
