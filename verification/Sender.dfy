/** The shared sender itself, updated in place, and the machine of Session when
    only one call is moving: they do the same. */
module Sender {
  import opened Wrappers
  import opened Bytes
  import opened Protocol
  import opened Cipher
  import opened Session
  import Network

  /** What a call leaves behind for the next one. */
  datatype Outbound = Outbound(nextID: uint32, chain: Block, wire: seq<byte>)

  /** Who is sending, and how. */
  datatype Line = Line(cipher: BlockCipher, magic: uint32, machineID: uint32, machineName: seq<byte>)

  // One id is drawn, even for a packet that lacks its payload; any other packet
  // goes out as one frame.
  function AfterSend(line: Line, o: Outbound, p: Packet): Outbound {
    var q := Network.Stamped(WithId(p, Increment(o.nextID)), line.machineID, line.machineName);
    if Missing(q).Some? then o.(nextID := Increment(o.nextID))
    else
      var secret := CbcEncrypt(line.cipher, o.chain, Frame(q, line.magic));
      Outbound(Increment(o.nextID), Chain(o.chain, secret), o.wire + secret)
  }

  // A send of which the connection takes only so many bytes.
  lemma PartlySent(line: Line, o: Outbound, p: Packet, total: nat)
    ensures var after := AfterSend(line, o, p);
      var part := |after.wire| - |o.wire|;
      var taken := Min(total, part);
      var partly := after.(wire := after.wire[..|o.wire| + taken]);
      match FrameOf(Network.Stamped(WithId(p, Increment(o.nextID)), line.machineID, line.machineName), line.magic)
      case Err(_) => part == 0 && partly == o.(nextID := Increment(o.nextID))
      case Ok(f) =>
        var secret := CbcEncrypt(line.cipher, o.chain, f);
        part == |f| && partly == Outbound(Increment(o.nextID), Chain(o.chain, secret), o.wire + secret[..taken])
  {
    var after := AfterSend(line, o, p);
    assert o.wire[..|o.wire|] == o.wire;
    if |after.wire| > |o.wire| {
      var secret := after.wire[|o.wire|..];
      TakenPart(o.wire, secret, Min(total, |secret|));
    }
  }

  lemma TakenPart(wire: seq<byte>, secret: seq<byte>, n: nat)
    requires n <= |secret|
    ensures (wire + secret)[..|wire| + n] == wire + secret[..n]
  {
  }

  class SessionSender {
    const client: Network.Client
    const srcID: uint32
    const dstID: uint32
    var nextID: uint32

    constructor (client: Network.Client, srcID: uint32, dstID: uint32)
      ensures this.client == client && this.srcID == srcID && this.dstID == dstID && nextID == 0
    {
      this.client, this.srcID, this.dstID, nextID := client, srcID, dstID, 0;
    }

    ghost function TheLine(): Line {
      Line(client.cipher.cipher, client.magic, client.machineID, client.machineName)
    }

    ghost function Out(): Outbound
      reads this, client.cipher, client.conn
    {
      Outbound(nextID, client.cipher.encChain, client.conn.outbound)
    }

    // Nothing happens while disconnected.  Otherwise the id and the chain are
    // those after a send, as much of the frame is written as the connection
    // takes, and it stays connected exactly when that is all of it.
    method Send(typ: uint32, payload: Payload, time: uint64)
      modifies this`nextID, client.conn`outbound, client.conn`accepts, client.cipher`encChain, client`connected
      ensures !old(client.connected) ==> !client.connected && Out() == old(Out()) && client.conn.accepts == old(client.conn.accepts)
      ensures old(client.connected) ==>
        var o := old(Out());
        var after := AfterSend(TheLine(), o, NewPacket(typ, payload, time, srcID, dstID));
        var taken := Min(Network.Total(old(client.conn.accepts)), |after.wire| - |o.wire|);
        && client.connected == (taken == |after.wire| - |o.wire|)
        && Out() == after.(wire := after.wire[..|o.wire| + taken])
    {
      if !client.connected {
        return;
      }
      ghost var o := Out();
      var pkt := Packet(Header(typ, 0, srcID, dstID, time), None, None, None, [], None);
      match payload {
        case MousePayload(v) => pkt := pkt.(mouse := Some(v));
        case KeyboardPayload(v) => pkt := pkt.(keyboard := Some(v));
        case BytesPayload(v) => pkt := pkt.(raw := Some(v));
        case NoPayload =>
      }
      nextID := Increment(nextID);
      pkt := pkt.(header := pkt.header.(id := nextID));
      PartlySent(TheLine(), o, NewPacket(typ, payload, time, srcID, dstID), Network.Total(client.conn.accepts));
      var _ := client.Send(pkt);
    }
  }

  // ---- One call moving alone -----------------------------------------------

  function RunFrom(cfg: Config, s: State, moves: seq<Move>): (r: Option<State>)
    requires |s.pcs| == |cfg.jobs|
    ensures r.Some? ==> |r.value.pcs| == |cfg.jobs|
  {
    if moves == [] then Some(s)
    else
      var before := RunFrom(cfg, s, moves[..|moves| - 1]);
      if before.None? then None else Apply(cfg, before.value, moves[|moves| - 1])
  }

  // Only call t moves, and no write fails; each takes as much as it likes.
  predicate Alone(moves: seq<Move>, t: nat) {
    forall i :: 0 <= i < |moves| ==> moves[i].t == t && !moves[i].fails
  }

  function LineOf(cfg: Config): Line {
    Line(cfg.cipher, cfg.magic, cfg.machineID, cfg.machineName)
  }

  function OutboundOf(s: State): Outbound {
    Outbound(s.nextID, s.chain, s.wire)
  }

  // The packet the call sends, id and all.
  function NextPacket(cfg: Config, s: State, t: nat): Packet
    requires t < |cfg.jobs| && cfg.jobs[t].SessionSend?
  {
    Filled(cfg, WithId(Built(cfg, cfg.jobs[t]), NextID(s)))
  }

  // Where the call stands, and all it has done to the state it started from.
  ghost predicate SoFar(cfg: Config, s0: State, s: State, t: nat)
    requires t < |cfg.jobs| == |s0.pcs| == |s.pcs| && cfg.jobs[t].SessionSend?
  {
    var b, q := Built(cfg, cfg.jobs[t]), NextPacket(cfg, s0, t);
    var named := s0.(pcs := s.pcs, mu := Some(t), nextID := NextID(s0), drawn := s0.drawn + [q]);
    s.pcs == s0.pcs[t := s.pcs[t]] &&
    match s.pcs[t]
    case Entering => s == s0
    case WantsSession(p) => p == b && !s0.failed && s == s0.(pcs := s.pcs)
    case HasSession(p) => p == b && !s0.failed && s == s0.(pcs := s.pcs, mu := Some(t))
    case Marshalling(p) => p == WithId(b, NextID(s0)) && !s0.failed && s == named
    case WantsWire(p) => p == q && Missing(q).None? && !s0.failed && s == named
    case HasWire(p) => p == q && Missing(q).None? && !s0.failed && s == named.(sendMu := Some(t))
    case Writing(rest) =>
      && Missing(q).None? && !s0.failed
      && s == Encrypted(cfg, named, q, t).(sendMu := Some(t), wire := s.wire)
      && s.wire + rest == s0.wire + Secret(cfg, s0, q)
    case Written => Missing(q).None? && !s0.failed && s == Encrypted(cfg, named, q, t).(sendMu := Some(t))
    case Leaving => !s0.failed && s == if Missing(q).None? then Encrypted(cfg, named, q, t) else named
    case Gone =>
      if s0.failed then s == s0.(pcs := s.pcs)
      else s == (if Missing(q).None? then Encrypted(cfg, named, q, t) else named).(mu := None)
  }

  function Encrypted(cfg: Config, s: State, q: Packet, t: nat): State
    requires Missing(q).None? && t < |cfg.jobs|
  {
    s.(wire := s.wire + Secret(cfg, s, q), chain := Chain(s.chain, Secret(cfg, s, q)),
       sent := s.sent + [Entry(t, q, cfg.jobs[t].SessionSend?)])
  }

  lemma Draws(cfg: Config, s0: State, s: State, t: nat, m: Move)
    requires t < |cfg.jobs| == |s0.pcs| == |s.pcs| && cfg.jobs[t].SessionSend?
    requires s0.mu.None? && s0.sendMu.None? && m.t == t && !m.fails
    requires SoFar(cfg, s0, s, t) && Apply(cfg, s, m).Some?
    requires s.pcs[t].Entering? || s.pcs[t].WantsSession? || s.pcs[t].HasSession?
    ensures SoFar(cfg, s0, Apply(cfg, s, m).value, t)
  {
    var s' := Apply(cfg, s, m).value;
    assert s'.pcs == s0.pcs[t := s'.pcs[t]];
  }

  lemma Marshals(cfg: Config, s0: State, s: State, t: nat, m: Move)
    requires t < |cfg.jobs| == |s0.pcs| == |s.pcs| && cfg.jobs[t].SessionSend?
    requires s0.mu.None? && s0.sendMu.None? && m.t == t && !m.fails
    requires SoFar(cfg, s0, s, t) && Apply(cfg, s, m).Some?
    requires s.pcs[t].Marshalling? || s.pcs[t].WantsWire?
    ensures SoFar(cfg, s0, Apply(cfg, s, m).value, t)
  {
    var s' := Apply(cfg, s, m).value;
    assert s'.pcs == s0.pcs[t := s'.pcs[t]];
  }

  lemma Encrypts(cfg: Config, s0: State, s: State, t: nat, m: Move)
    requires t < |cfg.jobs| == |s0.pcs| == |s.pcs| && cfg.jobs[t].SessionSend?
    requires s0.mu.None? && s0.sendMu.None? && m.t == t && !m.fails
    requires SoFar(cfg, s0, s, t) && Apply(cfg, s, m).Some?
    requires s.pcs[t].HasWire?
    ensures SoFar(cfg, s0, Apply(cfg, s, m).value, t)
  {
    var s' := Apply(cfg, s, m).value;
    var q := s.pcs[t].packet;
    assert s'.pcs == s0.pcs[t := Writing(Secret(cfg, s, q))];
    assert Secret(cfg, s, q) == Secret(cfg, s0, q) && s.wire == s0.wire;
  }

  lemma Writes(cfg: Config, s0: State, s: State, t: nat, m: Move)
    requires t < |cfg.jobs| == |s0.pcs| == |s.pcs| && cfg.jobs[t].SessionSend?
    requires s0.mu.None? && s0.sendMu.None? && m.t == t && !m.fails
    requires SoFar(cfg, s0, s, t) && Apply(cfg, s, m).Some?
    requires s.pcs[t].Writing?
    ensures SoFar(cfg, s0, Apply(cfg, s, m).value, t)
  {
    var s' := Apply(cfg, s, m).value;
    var rest := s.pcs[t].rest;
    var n := Min(m.n, |rest|);
    assert s'.pcs == s0.pcs[t := s'.pcs[t]];
    assert rest == rest[..n] + rest[n..];
    Associative(s.wire, rest[..n], rest[n..]);
    assert s.wire + [] == s.wire;
  }

  lemma Leaves(cfg: Config, s0: State, s: State, t: nat, m: Move)
    requires t < |cfg.jobs| == |s0.pcs| == |s.pcs| && cfg.jobs[t].SessionSend?
    requires s0.mu.None? && s0.sendMu.None? && m.t == t && !m.fails
    requires SoFar(cfg, s0, s, t) && Apply(cfg, s, m).Some?
    requires s.pcs[t].Written? || s.pcs[t].Leaving?
    ensures SoFar(cfg, s0, Apply(cfg, s, m).value, t)
  {
    var s' := Apply(cfg, s, m).value;
    assert s'.pcs == s0.pcs[t := s'.pcs[t]];
  }

  lemma SoFarStep(cfg: Config, s0: State, s: State, t: nat, m: Move)
    requires t < |cfg.jobs| == |s0.pcs| == |s.pcs| && cfg.jobs[t].SessionSend?
    requires s0.mu.None? && s0.sendMu.None? && m.t == t && !m.fails
    requires SoFar(cfg, s0, s, t) && Apply(cfg, s, m).Some?
    ensures SoFar(cfg, s0, Apply(cfg, s, m).value, t)
  {
    match s.pcs[t]
    case Marshalling(_) => Marshals(cfg, s0, s, t, m);
    case WantsWire(_) => Marshals(cfg, s0, s, t, m);
    case HasWire(_) => Encrypts(cfg, s0, s, t, m);
    case Writing(_) => Writes(cfg, s0, s, t, m);
    case Written => Leaves(cfg, s0, s, t, m);
    case Leaving => Leaves(cfg, s0, s, t, m);
    case Gone =>
    case _ => Draws(cfg, s0, s, t, m);
  }

  lemma {:induction false} SoFarRun(cfg: Config, s0: State, t: nat, moves: seq<Move>)
    requires t < |cfg.jobs| == |s0.pcs| && cfg.jobs[t].SessionSend? && s0.pcs[t].Entering?
    requires s0.mu.None? && s0.sendMu.None? && Alone(moves, t) && RunFrom(cfg, s0, moves).Some?
    ensures SoFar(cfg, s0, RunFrom(cfg, s0, moves).value, t)
    decreases |moves|
  {
    if moves == [] {
      assert s0.pcs == s0.pcs[t := s0.pcs[t]];
    } else {
      var front := moves[..|moves| - 1];
      SoFarRun(cfg, s0, t, front);
      SoFarStep(cfg, s0, RunFrom(cfg, s0, front).value, t, moves[|moves| - 1]);
    }
  }

  // A call that meets no other and no write failure, however its frame is taken,
  // does step by step what SessionSender.Send does in one: it ends with both
  // locks free and exactly the outbound state after a send, and in between it
  // can always go on.
  lemma UncontendedSend(cfg: Config, s0: State, t: nat, moves: seq<Move>)
    requires t < |cfg.jobs| == |s0.pcs| && cfg.jobs[t].SessionSend? && s0.pcs[t].Entering? && Turn(cfg, s0, t)
    requires s0.mu.None? && s0.sendMu.None? && Alone(moves, t) && RunFrom(cfg, s0, moves).Some?
    ensures var s := RunFrom(cfg, s0, moves).value;
      if s.pcs[t].Gone? then
        && s.mu.None? && s.sendMu.None? && s.pcs == s0.pcs[t := Gone] && s.failed == s0.failed
        && OutboundOf(s) == if s0.failed then OutboundOf(s0) else AfterSend(LineOf(cfg), OutboundOf(s0), Built(cfg, cfg.jobs[t]))
      else Apply(cfg, s, Move(t, 1, false)).Some?
  {
    SoFarRun(cfg, s0, t, moves);
    FilledKeeps(cfg, WithId(Built(cfg, cfg.jobs[t]), NextID(s0)));
  }
}
