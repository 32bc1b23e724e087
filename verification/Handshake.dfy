/** The handshake: what one peer does with each packet, and the transition
    system of two such peers joined by two first-in first-out channels. */
module Handshake {
  import opened Wrappers
  import opened Bytes
  import opened Protocol

  const GREETINGS: nat := 10

  datatype Identity = Identity(id: uint32, name: seq<byte>, nonces: HandshakeData)

  function Complemented(h: HandshakeData): HandshakeData {
    HandshakeData(Complement(h.m1), Complement(h.m2), Complement(h.m3), Complement(h.m4))
  }

  function Hello(me: Identity): Packet {
    Packet(Header(HANDSHAKE, 1, me.id, 0, 0), None, None, Some(me.nonces), me.name, None)
  }

  function Ack(me: Identity, greeting: Packet): Packet
    requires greeting.handshake.Some?
  {
    Packet(Header(HANDSHAKE_ACK, greeting.header.id, me.id, 0, 0), None, None,
           Some(Complemented(greeting.handshake.value)), me.name, None)
  }

  // The variables of the handshake loop.
  datatype Progress = Progress(gotAck: bool, gotHello: bool, remote: uint32)

  const START: Progress := Progress(false, false, 0)

  predicate Finished(g: Progress) {
    g.gotAck && g.gotHello
  }

  // The switch in the body of the loop.
  function Note(me: Identity, g: Progress, p: Packet): Progress {
    if p.header.typ == HANDSHAKE then
      Progress(g.gotAck, g.gotHello || p.handshake.Some?, p.header.src)
    else if p.header.typ == HANDSHAKE_ACK && p.handshake == Some(Complemented(me.nonces)) then
      Progress(true, g.gotHello, p.header.src)
    else g
  }

  function Reply(me: Identity, p: Packet): Option<Packet> {
    if p.header.typ == HANDSHAKE && p.handshake.Some? then Some(Ack(me, p)) else None
  }

  // The loop over a list of packets: its variables and the answers it sends.
  function Heed(me: Identity, ps: seq<Packet>): Progress {
    if ps == [] then START else Note(me, Heed(me, ps[..|ps| - 1]), ps[|ps| - 1])
  }

  function Replies(me: Identity, ps: seq<Packet>): seq<Packet> {
    if ps == [] then []
    else
      var reply := Reply(me, ps[|ps| - 1]);
      Replies(me, ps[..|ps| - 1]) + if reply.Some? then [reply.value] else []
  }

  // The loop has read these packets and not yet left.
  ghost predicate StillReading(me: Identity, seen: seq<Packet>) {
    forall k :: 0 <= k < |seen| ==> !Finished(Heed(me, seen[..k]))
  }

  lemma OneMorePacket(me: Identity, seen: seq<Packet>, p: Packet)
    ensures Heed(me, seen + [p]) == Note(me, Heed(me, seen), p)
    ensures Replies(me, seen + [p]) == Replies(me, seen) + (if Reply(me, p).Some? then [Reply(me, p).value] else [])
    ensures StillReading(me, seen) && !Finished(Heed(me, seen)) ==> StillReading(me, seen + [p])
  {
    var after := seen + [p];
    assert after[..|seen|] == seen;
    assert forall k :: 0 <= k <= |seen| ==> after[..k] == seen[..k];
  }

  function Greetings(me: Identity, n: nat): (ps: seq<Packet>)
    ensures |ps| == n
  {
    seq(n, i => Hello(me))
  }

  // ---- One peer ------------------------------------------------------------

  datatype Item = Primer | Message(packet: Packet)

  datatype Phase = PrimerOut | PrimerIn | Greeting(sent: nat) | Listening | Acking(ack: Packet) | Complete

  /** A peer: the side that dialled sends its primer first, the other receives first. */
  datatype Peer = Peer(me: Identity, dials: bool)

  /** out is everything written so far; read counts the items taken from the
      other side; consumed counts the frames taken by the handshake loop. */
  datatype End = End(phase: Phase, progress: Progress, consumed: nat, out: seq<Item>, read: nat)

  function Initial(p: Peer): End {
    End(if p.dials then PrimerOut else PrimerIn, START, 0, [], 0)
  }

  function Settle(g: Progress): Phase {
    if Finished(g) then Complete else Listening
  }

  // The next statement of a peer; None when it waits for input or is done.
  function Step(p: Peer, e: End, other: seq<Item>): Option<End> {
    match e.phase
    case PrimerOut =>
      Some(e.(out := e.out + [Primer], phase := if p.dials then PrimerIn else Greeting(0)))
    case PrimerIn =>
      if e.read < |other| && other[e.read].Primer? then
        Some(e.(read := e.read + 1, phase := if p.dials then Greeting(0) else PrimerOut))
      else None
    case Greeting(sent) =>
      Some(e.(out := e.out + [Message(Hello(p.me))],
              phase := if sent + 1 < GREETINGS then Greeting(sent + 1) else Settle(e.progress)))
    case Listening =>
      if e.read < |other| && other[e.read].Message? then
        var packet := NormalForm(other[e.read].packet);
        var g := Note(p.me, e.progress, packet);
        var reply := Reply(p.me, packet);
        Some(e.(read := e.read + 1, consumed := e.consumed + 1, progress := g,
                phase := if reply.Some? then Acking(reply.value) else Settle(g)))
      else None
    case Acking(ack) =>
      Some(e.(out := e.out + [Message(ack)], phase := Settle(e.progress)))
    case Complete => None
  }

  // ---- Two peers -----------------------------------------------------------

  datatype Side = A | B

  datatype Config = Config(a: Peer, b: Peer) {
    function Of(x: Side): Peer { if x.A? then a else b }
  }

  datatype System = System(a: End, b: End) {
    function Of(x: Side): End { if x.A? then a else b }

    function With(x: Side, e: End): System { if x.A? then System(e, b) else System(a, e) }
  }

  function Other(x: Side): Side {
    if x.A? then B else A
  }

  function Boot(cfg: Config): System {
    System(Initial(cfg.a), Initial(cfg.b))
  }

  // A move of the handshake, or, once a peer has completed it, of the session:
  // any other packet written, anything read.
  datatype Move = Advance(side: Side) | Send(side: Side, packet: Packet) | Receive(side: Side)

  function Apply(cfg: Config, s: System, m: Move): Option<System> {
    var x := m.side;
    var e, other := s.Of(x), s.Of(Other(x)).out;
    match m
    case Advance(_) =>
      var next := Step(cfg.Of(x), e, other);
      if next.Some? then Some(s.With(x, next.value)) else None
    case Send(_, p) =>
      if e.phase.Complete? && Missing(p).None? && p.header.typ < 0x100 && !IsHandshake(p.header.typ) then
        Some(s.With(x, e.(out := e.out + [Message(p)])))
      else None
    case Receive(_) =>
      if e.phase.Complete? && e.read < |other| then Some(s.With(x, e.(read := e.read + 1))) else None
  }

  // The state after a whole schedule; None if some move was not possible.
  function Run(cfg: Config, moves: seq<Move>): Option<System> {
    if moves == [] then Some(Boot(cfg))
    else
      var before := Run(cfg, moves[..|moves| - 1]);
      if before.None? then None else Apply(cfg, before.value, moves[|moves| - 1])
  }
}
