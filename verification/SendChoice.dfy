/**
 Which space a call of send serves, and that what waits does go out.
 */
module SendChoice {
  import opened Bytes
  import opened SendPath
  import opened SendStreams

  /** TLS data first, in the order of the spaces; then the ACKs of the two handshake spaces. */
  lemma UrgentFirst(env: Env, q: seq<Lost>)
    ensures 0 in env.tls ==> SpaceId(Choose(env, q)) == 0
    ensures 0 !in env.tls && 1 in env.tls ==> SpaceId(Choose(env, q)) == 1
    ensures 0 !in env.tls && 1 !in env.tls && 2 in env.tls ==> SpaceId(Choose(env, q)) == 2
    ensures !TlsPending(env) && 0 in env.acks ==> SpaceId(Choose(env, q)) == 0
    ensures !TlsPending(env) && 0 !in env.acks && 1 in env.acks ==> SpaceId(Choose(env, q)) == 1
  {
  }

  /** Nothing of the handshake is pending. */
  predicate NoHandshake(env: Env) {
    0 !in env.tls && 1 !in env.tls && 2 !in env.tls && 0 !in env.acks && 1 !in env.acks
  }

  /** A close goes out under the latest keys there are. */
  lemma CloseUnderLatestKeys(env: Env, q: seq<Lost>)
    requires NoHandshake(env) && env.closed && !env.closeSent
    ensures SpaceId(Choose(env, q)) == if 2 in env.keys then 2 else if 1 in env.keys then 1 else 0
    ensures Choose(env, q) != ZeroRttSpace
  {
  }

  /** Before the handshake is complete, data goes out as 0-RTT if there are keys for it, under the id of 1-RTT. */
  lemma EarlyDataFirst(env: Env, q: seq<Lost>)
    requires NoHandshake(env) && !(env.closed && !env.closeSent)
    ensures env.zeroRttKeys && !env.handshakeComplete <==> Choose(env, q) == ZeroRttSpace
    ensures Choose(env, q) == ZeroRttSpace ==> SpaceId(Choose(env, q)) == 2
  {
  }

  /** A plain call: nothing of the handshake, no close, no 0-RTT. */
  predicate Plain(env: Env) {
    NoHandshake(env) && !env.closed && (env.zeroRttKeys ==> env.handshakeComplete)
  }

  /** Frames without keys are dropped, and the first that is left decides the space. */
  lemma LostDecides(env: Env, q: seq<Lost>)
    requires Plain(env) && forall l :: l in q ==> l.space <= 2
    ensures var kept := Kept(q, env.keys);
      SpaceId(Choose(env, q)) == if kept != [] then kept[0].space else if 2 in env.keys then 2 else 0
  {
    KeptIsSub(q, env.keys);
    if Kept(q, env.keys) != [] {
      assert Kept(q, env.keys)[0] in Kept(q, env.keys);
    }
  }

  lemma {:induction false} KeptIsFilter(q: seq<Lost>, keys: set<nat>, l: Lost)
    ensures multiset(Kept(q, keys))[l] == if l.space in keys then multiset(q)[l] else 0
    decreases |q|
  {
    if q != [] {
      KeptIsFilter(q[1..], keys, l);
      assert q == [q[0]] + q[1..];
      assert multiset(Kept(q, keys))
        == multiset(if q[0].space in keys then [q[0]] else []) + multiset(Kept(q[1..], keys));
    }
  }

  /** A plain call that is not held back. */
  predicate Ready(env: Env) { Plain(env) && !env.withheld && !env.idle }

  /** Such a call re-sends the first lost frame that has keys, in a packet of its space, and drops those without. */
  lemma LostHeadGoesOut(s: State, env: Env)
    requires Ready(env) && (forall l :: l in s.lost ==> l.space <= 2) && Kept(s.lost, env.keys) != []
    ensures var kept, r := Kept(s.lost, env.keys), SendOne(s, env);
      && r.state.lost == kept[1..]
      && r.packet.Some? && r.packet.value.resent == Some(kept[0].frame) && r.packet.value.space == kept[0].space
  {
    hide Choose, Fill, Kept;
    LostDecides(env, s.lost);
    GoneHasNoKeys(s.lost, env.keys);
    var kept := Kept(s.lost, env.keys);
    assert kept[0] in kept;
    assert s.lost != [] by {
      NoneKept(env.keys);
    }
    NotZeroRtt(env, s.lost);
  }

  lemma NoneKept(keys: set<nat>)
    ensures Kept([], keys) == []
  {
  }

  lemma NotZeroRtt(env: Env, q: seq<Lost>)
    requires Plain(env)
    ensures Choose(env, q) != ZeroRttSpace
  {
  }

  lemma {:induction false} KeptAll(q: seq<Lost>, keys: set<nat>)
    requires forall l :: l in q ==> l.space in keys
    ensures Kept(q, keys) == q
    decreases |q|
  {
    if q != [] {
      assert q[0] in q;
      KeptAll(q[1..], keys);
    }
  }

  function SendAll(s: State, envs: seq<Env>): seq<Sent>
    decreases |envs|
  {
    if envs == [] then [] else [SendOne(s, envs[0])] + SendAll(SendOne(s, envs[0]).state, envs[1..])
  }

  /**
   As many such calls as there are lost frames re-send all of them, in order, one in each packet,
   while their keys are there.
   */
  lemma {:induction false} QueueDrains(s: State, envs: seq<Env>)
    requires |envs| == |s.lost| && (forall l :: l in s.lost ==> l.space <= 2)
    requires forall i :: 0 <= i < |envs| ==> Ready(envs[i]) && forall l :: l in s.lost ==> l.space in envs[i].keys
    ensures var rs := SendAll(s, envs);
      && |rs| == |s.lost|
      && (forall i :: 0 <= i < |rs| ==>
            && rs[i].packet.Some? && rs[i].packet.value.resent == Some(s.lost[i].frame)
            && rs[i].packet.value.space == s.lost[i].space)
      && (rs != [] ==> rs[|rs| - 1].state.lost == [])
    decreases |envs|
  {
    hide SendOne, Ready, Kept;
    if envs != [] {
      KeptAll(s.lost, envs[0].keys);
      LostHeadGoesOut(s, envs[0]);
      var n := SendOne(s, envs[0]).state;
      QueueDrains(n, envs[1..]);
      var rs, later := SendAll(s, envs), SendAll(n, envs[1..]);
      forall i | 0 <= i < |rs|
        ensures rs[i].packet.Some? && rs[i].packet.value.resent == Some(s.lost[i].frame)
        ensures rs[i].packet.value.space == s.lost[i].space
      {
        if i > 0 {
          assert rs[i] == later[i - 1] && s.lost[i] == n.lost[i - 1];
        }
      }
    }
  }

  /** New stream data goes out in 1-RTT and 0-RTT packets only, never with TLS data or without congestion window. */
  lemma NewDataOnlyWhere(s: State, env: Env, c: Chosen)
    ensures c == InitialSpace || c == HandshakeSpace || !env.canSend || TlsPending(env) ==>
      Fill(s, env, c) == Packed(s.streams, [])
    ensures (c == AppSpace || c == ZeroRttSpace) && env.canSend && !TlsPending(env) ==>
      Fill(s, env, c) == Pack(s.streams, StreamBudget(env.mtu), Window(s), s.maxRemote)
  {
  }

  /** The budget is the path MTU less 30, but at least 256 and at most 1200. */
  lemma BudgetIsClamped(mtu: nat)
    ensures 256 <= StreamBudget(mtu) <= 1200
    ensures 286 <= mtu <= 1230 ==> StreamBudget(mtu) == mtu - 30
    ensures mtu <= 286 ==> StreamBudget(mtu) == 256
    ensures mtu >= 1230 ==> StreamBudget(mtu) == 1200
  {
  }

  /**
   The transport parameters, when they take effect, replace the limit: a larger one that a MAX_DATA
   frame advertised before is lost, exactly if it was larger.
   */
  lemma ParametersReplace(s: State, env: Env, initial: nat)
    requires env.initialMaxData == Some(initial)
    ensures SendOne(s, env).state.maxRemote == if s.tpApplied then s.maxRemote else initial
    ensures SendOne(s, env).state.tpApplied
    ensures SendOne(s, env).state.maxRemote < s.maxRemote <==> !s.tpApplied && initial < s.maxRemote
  {
    hide Fill, Choose, Purge;
  }

  /** Frames without keys are dropped in plain calls only; every other call leaves the queue alone up to its packet. */
  lemma PurgeExactly(s: State, env: Env)
    ensures Purge(s, env).0
      == if NoHandshake(env) && !(env.closed && !env.closeSent) && !(env.zeroRttKeys && !env.handshakeComplete)
         then Kept(s.lost, env.keys) else s.lost
  {
    NoneKept(env.keys);
  }
}
