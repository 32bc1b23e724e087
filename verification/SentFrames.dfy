/** What the frames on a session's wire hold, and what the other side makes of
    them, in terms of the calls that sent them. */
module SentFrames {
  import opened Wrappers
  import opened Bytes
  import opened Protocol
  import opened Cipher
  import opened Session
  import opened SessionOrder
  import Channel
  import Layout

  function BytesOf(payload: Payload): seq<byte> {
    if payload.BytesPayload? then payload.bytes else []
  }

  // A packet without a source goes by the sending machine's id.
  function SourceOf(cfg: Config, src: uint32): uint32 {
    if src == 0 then cfg.machineID else src
  }

  // Bytes 16 and up of what sessionSender.Send puts on the wire.
  ghost predicate PayloadFrame(f: seq<byte>, typ: uint32, payload: Payload, time: uint64, name: seq<byte>)
    requires |f| == 32 || |f| == 64
  {
    if typ == 122 then
      && payload.KeyboardPayload? && Layout.Dated(f, time)
      && Layout.WordAt(f, 24) == payload.keyboard.vk % 0x1_0000_0000
      && Layout.WordAt(f, 28) == payload.keyboard.flags % 0x1_0000_0000
    else if typ == 123 then
      && payload.MousePayload?
      && Layout.WordAt(f, 16) == payload.mouse.x % 0x1_0000_0000
      && Layout.WordAt(f, 20) == payload.mouse.y % 0x1_0000_0000
      && Layout.WordAt(f, 24) == payload.mouse.wheelDelta % 0x1_0000_0000
      && Layout.WordAt(f, 28) == payload.mouse.flags % 0x1_0000_0000
    else if typ == 124 || typ == 125 then Layout.Copied(f, 16, 48, BytesOf(payload))
    else
      && typ != 126 && typ != 127 && Layout.Dated(f, time)
      && if |f| == 64 && name != [] then Layout.Copied(f, 24, 8, BytesOf(payload)) && Layout.Named(f, name)
         else Layout.Copied(f, 24, |f| - 24, BytesOf(payload))
  }

  ghost predicate JobFrame(f: seq<byte>, cfg: Config, job: Job)
    requires |f| == 32 || |f| == 64
  {
    match job
    case SessionSend(_, typ, payload, time) =>
      && f[0] == typ % 0x100
      && Layout.WordAt(f, 8) == SourceOf(cfg, cfg.src) && Layout.WordAt(f, 12) == cfg.des
      && PayloadFrame(f, typ, payload, time, cfg.machineName)
    case ClientSend(_, p) =>
      && f[0] == p.header.typ % 0x100 && Layout.WordAt(f, 4) == p.header.id
      && Layout.WordAt(f, 8) == SourceOf(cfg, p.header.src) && Layout.WordAt(f, 12) == p.header.des
      && Layout.BodyLaidOut(f, p.(name := if p.name == [] then cfg.machineName else p.name))
  }

  lemma JobLaidOut(cfg: Config, t: nat, q: Packet, f: seq<byte>)
    requires t < |cfg.jobs| && IsFor(cfg, t, q)
    requires (|f| == 32 || |f| == 64) && Layout.HeadLaidOut(f, q, cfg.magic) && Layout.BodyLaidOut(f, q)
    ensures JobFrame(f, cfg, cfg.jobs[t])
  {
    if cfg.jobs[t].SessionSend? {
      SessionBody(cfg, t, q, f);
    }
  }

  lemma SessionBody(cfg: Config, t: nat, q: Packet, f: seq<byte>)
    requires t < |cfg.jobs| && cfg.jobs[t].SessionSend? && IsFor(cfg, t, q)
    requires (|f| == 32 || |f| == 64) && Layout.BodyLaidOut(f, q)
    ensures PayloadFrame(f, cfg.jobs[t].typ, cfg.jobs[t].payload, cfg.jobs[t].time, cfg.machineName)
  {
    assert Layout.RawOf(q) == BytesOf(cfg.jobs[t].payload);
  }

  lemma SentPacket(cfg: Config, moves: seq<Move>, i: nat)
    requires TypesFit(cfg) && Run(cfg, moves).Some? && !Run(cfg, moves).value.failed
    requires i < |Run(cfg, moves).value.sent|
    ensures var e := Run(cfg, moves).value.sent[i];
      Channel.Sendable(e.packet) && e.call < |cfg.jobs| && IsFor(cfg, e.call, e.packet)
  {
    InvRun(cfg, moves);
    ProgramOrder(cfg, moves);
    var s := Run(cfg, moves).value;
    PacketAt(s.sent, i);
    assert Channel.Sendable(PacketsOf(s.sent)[i]);
  }

  lemma {:induction false} PacketAt(sent: seq<Entry>, i: nat)
    requires i < |sent|
    ensures |PacketsOf(sent)| == |sent| && PacketsOf(sent)[i] == sent[i].packet
    decreases |sent|
  {
    var front := sent[..|sent| - 1];
    if front == [] {
    } else {
      PacketAt(front, if i < |front| then i else 0);
    }
  }

  // In every reachable state without a write failure, each frame sent holds
  // exactly its call's payload, with the session's source and destination, the
  // call's time, and the id the packet drew.
  lemma FramesCarry(cfg: Config, moves: seq<Move>, i: nat)
    requires TypesFit(cfg) && Run(cfg, moves).Some? && !Run(cfg, moves).value.failed
    requires i < |Run(cfg, moves).value.sent|
    ensures var e := Run(cfg, moves).value.sent[i];
      match FrameOf(e.packet, cfg.magic)
      case Ok(f) =>
        && (|f| == 32 || |f| == 64) && e.call < |cfg.jobs| && JobFrame(f, cfg, cfg.jobs[e.call])
        && Layout.WordAt(f, 4) == e.packet.header.id
      case Err(_) => false
  {
    SentPacket(cfg, moves, i);
    var e := Run(cfg, moves).value.sent[i];
    Layout.MarshalledBytes(e.packet, cfg.magic);
    JobLaidOut(cfg, e.call, e.packet, Frame(e.packet, cfg.magic));
  }

  // Keys travel as type 122 and movements as 123; a handshake is no session's.
  predicate HasOwnPayload(job: Job) {
    match job
    case SessionSend(_, typ, payload, _) =>
      (typ == 122 ==> payload.KeyboardPayload?) && (typ == 123 ==> payload.MousePayload?) && typ != 126 && typ != 127
    case ClientSend(_, p) =>
      && (p.header.typ == 122 ==> p.keyboard.Some?) && (p.header.typ == 123 ==> p.mouse.Some?)
      && (p.header.typ == 126 || p.header.typ == 127 ==> p.handshake.Some?)
  }

  lemma PayloadIff(cfg: Config, t: nat)
    requires t < |cfg.jobs|
    ensures HasPayload(cfg, t) <==> HasOwnPayload(cfg.jobs[t])
  {
  }

  lemma OwnPayloadSent(cfg: Config, t: nat, q: Packet)
    requires t < |cfg.jobs| && IsFor(cfg, t, q) && Missing(q).None?
    ensures HasOwnPayload(cfg.jobs[t])
  {
  }

  // A call that has returned, with no write failed, has put its frame on the wire
  // if and only if it came with the payload its type needs.
  lemma CarriedIff(cfg: Config, moves: seq<Move>, t: nat)
    requires TypesFit(cfg) && Run(cfg, moves).Some? && !Run(cfg, moves).value.failed
    requires t < |cfg.jobs| && Run(cfg, moves).value.pcs[t].Gone?
    ensures OnWire(Run(cfg, moves).value.sent, t) <==> HasOwnPayload(cfg.jobs[t])
  {
    var s := Run(cfg, moves).value;
    OrderRun(cfg, moves);
    PayloadIff(cfg, t);
    if OnWire(s.sent, t) {
      var i :| 0 <= i < |s.sent| && s.sent[i].call == t;
      SentPacket(cfg, moves, i);
      OwnPayloadSent(cfg, t, s.sent[i].packet);
    }
  }

  // What a receiver finds in the packet of a session's call.
  ghost predicate PayloadArrived(r: Packet, cfg: Config, job: Job)
    requires job.SessionSend?
  {
    && r.header.typ == job.typ && r.header.src == SourceOf(cfg, cfg.src) && r.header.des == cfg.des
    && (job.typ == 122 ==> job.payload.KeyboardPayload? && r.keyboard == Some(job.payload.keyboard))
    && (job.typ == 123 ==> job.payload.MousePayload? && r.mouse == Some(job.payload.mouse))
    && (job.typ == 122 || job.typ == 20 || job.typ == 51 ==> r.header.dateTime == job.time)
  }

  lemma NormalPayload(cfg: Config, t: nat, q: Packet)
    requires t < |cfg.jobs| && cfg.jobs[t].SessionSend? && IsFor(cfg, t, q) && Missing(q).None?
    ensures PayloadArrived(NormalForm(q), cfg, cfg.jobs[t])
  {
  }

  // And when no frame is half written, the other side reads each session call's
  // packet with that call's movement or key in it.
  lemma PayloadsArrive(cfg: Config, moves: seq<Move>, i: nat)
    requires TypesFit(cfg) && Inverts(cfg.cipher) && Run(cfg, moves).Some?
    requires var s := Run(cfg, moves).value;
      && !s.failed && Unwritten(s) == []
      && i < |s.sent| && s.sent[i].call < |cfg.jobs| && cfg.jobs[s.sent[i].call].SessionSend?
    ensures var s := Run(cfg, moves).value;
      var outcomes := Channel.ReadPackets(cfg.cipher, cfg.magic, cfg.iv, s.wire, |s.sent|).outcomes;
      && |outcomes| == |s.sent| && outcomes[i].Received?
      && outcomes[i].packet.header.id == s.sent[i].packet.header.id
      && PayloadArrived(outcomes[i].packet, cfg, cfg.jobs[s.sent[i].call])
  {
    var s := Run(cfg, moves).value;
    WireIsWholeFrames(cfg, moves);
    SentPacket(cfg, moves, i);
    PacketAt(s.sent, i);
    NormalPayload(cfg, s.sent[i].call, s.sent[i].packet);
    var ps := PacketsOf(s.sent);
    assert Channel.NormalForms(ps)[i] == Channel.Received(NormalForm(ps[i]));
  }
}
