/** Many goroutines sending through one session: every step between two lock
    operations is a move of its own, and any schedule of moves is a run. */
module Session {
  import opened Wrappers
  import opened Bytes
  import opened Protocol
  import opened Cipher
  import Channel
  import Network

  datatype Payload = MousePayload(mouse: MouseData) | KeyboardPayload(keyboard: KeyboardData)
                   | BytesPayload(bytes: seq<byte>) | NoPayload

  /** One call, and the goroutine that makes it: sessionSender.Send, or Client.Send
      by somebody else.  A goroutine makes its calls in the order they are listed. */
  datatype Job =
    | SessionSend(owner: nat, typ: uint32, payload: Payload, time: uint64)
    | ClientSend(owner: nat, packet: Packet)

  datatype Config = Config(cipher: BlockCipher, iv: Block, magic: uint32, machineID: uint32, machineName: seq<byte>,
                           src: uint32, des: uint32, jobs: seq<Job>)

  // The packet sessionSender.Send builds before it has an id.
  function NewPacket(typ: uint32, payload: Payload, time: uint64, src: uint32, des: uint32): Packet {
    Packet(Header(typ, 0, src, des, time),
           if payload.KeyboardPayload? then Some(payload.keyboard) else None,
           if payload.MousePayload? then Some(payload.mouse) else None,
           None, [],
           if payload.BytesPayload? then Some(payload.bytes) else None)
  }

  function Built(cfg: Config, job: Job): Packet
    requires job.SessionSend?
  {
    NewPacket(job.typ, job.payload, job.time, cfg.src, cfg.des)
  }

  function Filled(cfg: Config, p: Packet): Packet {
    Network.Stamped(p, cfg.machineID, cfg.machineName)
  }

  /** Where a call stands. */
  datatype Pc =
    | Entering
    | WantsSession(packet: Packet)   // built; about to lock mu
    | HasSession(packet: Packet)     // mu held; id not yet drawn
    | Marshalling(packet: Packet)    // in Client.Send
    | WantsWire(packet: Packet)      // marshalled; about to lock sendMu
    | HasWire(packet: Packet)        // sendMu held; not yet encrypted
    | Writing(rest: seq<byte>)       // encrypted; rest not yet written
    | Written                        // about to unlock sendMu
    | Leaving                        // about to unlock mu
    | Gone

  datatype Entry = Entry(call: nat, packet: Packet, viaSession: bool)

  /** drawn and sent are histories: the packets that drew an id, in order, and
      the packets encrypted, in order. */
  datatype State = State(pcs: seq<Pc>, mu: Option<nat>, sendMu: Option<nat>, nextID: uint32,
                         chain: Block, wire: seq<byte>, failed: bool,
                         drawn: seq<Packet>, sent: seq<Entry>)

  // Call t takes its next step; when it writes, the connection takes n bytes and
  // then possibly fails.
  datatype Move = Move(t: nat, n: nat, fails: bool)

  function Boot(cfg: Config): State {
    State(seq(|cfg.jobs|, i => Entering), None, None, 0, cfg.iv, [], false, [], [])
  }

  // nextID++ on a uint32.
  function Increment(id: uint32): uint32 {
    (id as int + 1) % 0x1_0000_0000
  }

  function NextID(s: State): uint32 {
    Increment(s.nextID)
  }

  function WithId(p: Packet, id: uint32): Packet {
    p.(header := p.header.(id := id))
  }

  function Secret(cfg: Config, s: State, q: Packet): seq<byte>
    requires Missing(q).None?
  {
    CbcEncrypt(cfg.cipher, s.chain, Frame(q, cfg.magic))
  }

  // A goroutine makes its next call when it has returned from the one before.
  predicate Turn(cfg: Config, s: State, t: nat)
    requires t < |s.pcs| == |cfg.jobs|
  {
    forall u :: 0 <= u < t && cfg.jobs[u].owner == cfg.jobs[t].owner ==> s.pcs[u].Gone?
  }

  // Where call t goes; None when it waits, for its turn or a lock, or is done.
  function NextPc(cfg: Config, s: State, t: nat, m: Move): Option<Pc>
    requires t < |s.pcs| == |cfg.jobs|
  {
    var job := cfg.jobs[t];
    match s.pcs[t]
    case Entering =>
      if !Turn(cfg, s, t) then None
      else if job.ClientSend? then Some(Marshalling(job.packet))
      else if s.failed then Some(Gone)  // IsConnected is false
      else Some(WantsSession(Built(cfg, job)))
    case WantsSession(p) => if s.mu.Some? then None else Some(HasSession(p))
    case HasSession(p) => Some(Marshalling(WithId(p, NextID(s))))
    case Marshalling(p) =>
      var q := Filled(cfg, p);
      Some(if Missing(q).Some? then Leaving else WantsWire(q))
    case WantsWire(q) => if s.sendMu.Some? then None else Some(HasWire(q))
    case HasWire(q) => if Missing(q).Some? then None else Some(Writing(Secret(cfg, s, q)))
    case Writing(rest) =>
      if rest == [] || m.fails then Some(Written) else Some(Writing(rest[Min(m.n, |rest|)..]))
    case Written => Some(Leaving)
    case Leaving => Some(Gone)
    case Gone => None
  }

  // What the same step does to everything the threads share.
  function Effect(cfg: Config, s: State, t: nat, m: Move): State
    requires t < |s.pcs| == |cfg.jobs|
  {
    match s.pcs[t]
    case WantsSession(_) => s.(mu := Some(t))
    case HasSession(p) => s.(nextID := NextID(s), drawn := s.drawn + [Filled(cfg, WithId(p, NextID(s)))])
    case WantsWire(_) => s.(sendMu := Some(t))
    case HasWire(q) =>
      if Missing(q).Some? then s
      else s.(chain := Chain(s.chain, Secret(cfg, s, q)), sent := s.sent + [Entry(t, q, cfg.jobs[t].SessionSend?)])
    case Writing(rest) => s.(wire := s.wire + rest[..Min(m.n, |rest|)], failed := s.failed || (rest != [] && m.fails))
    case Written => s.(sendMu := None)
    case Leaving => if cfg.jobs[t].SessionSend? then s.(mu := None) else s
    case _ => s
  }

  function Apply(cfg: Config, s: State, m: Move): Option<State>
    requires |s.pcs| == |cfg.jobs|
  {
    if m.t >= |s.pcs| then None
    else
      var next := NextPc(cfg, s, m.t, m);
      if next.None? then None else Some(Effect(cfg, s, m.t, m).(pcs := s.pcs[m.t := next.value]))
  }

  function Run(cfg: Config, moves: seq<Move>): (r: Option<State>)
    ensures r.Some? ==> |r.value.pcs| == |cfg.jobs|
  {
    if moves == [] then Some(Boot(cfg))
    else
      var before := Run(cfg, moves[..|moves| - 1]);
      if before.None? then None else Apply(cfg, before.value, moves[|moves| - 1])
  }

  // ---- The invariant -------------------------------------------------------

  // Every job's type is one of the PackageType constants, which fit a byte.
  ghost predicate TypesFit(cfg: Config) {
    forall t :: 0 <= t < |cfg.jobs| ==>
      (if cfg.jobs[t].SessionSend? then cfg.jobs[t].typ else cfg.jobs[t].packet.header.typ) < 0x100
  }

  predicate HoldsSession(pc: Pc) {
    pc.HasSession? || pc.Marshalling? || pc.WantsWire? || pc.HasWire? || pc.Writing? || pc.Written? || pc.Leaving?
  }

  predicate HoldsWire(pc: Pc) {
    pc.HasWire? || pc.Writing? || pc.Written?
  }

  predicate PcFits(cfg: Config, pc: Pc) {
    match pc
    case WantsSession(p) => p.header.typ < 0x100
    case HasSession(p) => p.header.typ < 0x100
    case Marshalling(p) => p.header.typ < 0x100
    case WantsWire(q) => Channel.Sendable(q)
    case HasWire(q) => Channel.Sendable(q)
    case _ => true
  }

  ghost predicate Locks(cfg: Config, s: State)
    requires |s.pcs| == |cfg.jobs|
  {
    && (forall t :: 0 <= t < |s.pcs| ==>
          (s.mu == Some(t) <==> cfg.jobs[t].SessionSend? && HoldsSession(s.pcs[t])))
    && (forall t :: 0 <= t < |s.pcs| ==> (s.sendMu == Some(t) <==> HoldsWire(s.pcs[t])))
    && (s.mu.Some? ==> s.mu.value < |s.pcs|)
    && (s.sendMu.Some? ==> s.sendMu.value < |s.pcs|)
    && (forall t :: 0 <= t < |s.pcs| ==> PcFits(cfg, s.pcs[t]))
    && (forall t :: 0 <= t < |s.pcs| ==> (cfg.jobs[t].ClientSend? ==> !s.pcs[t].WantsSession? && !s.pcs[t].HasSession?))
  }

  // The bytes of the frame now being written that are not yet on the wire.
  function Unwritten(s: State): seq<byte> {
    if s.sendMu.Some? && s.sendMu.value < |s.pcs| && s.pcs[s.sendMu.value].Writing?
    then s.pcs[s.sendMu.value].rest else []
  }

  function PacketsOf(sent: seq<Entry>): seq<Packet> {
    if sent == [] then [] else PacketsOf(sent[..|sent| - 1]) + [sent[|sent| - 1].packet]
  }

  function SessionPackets(sent: seq<Entry>): seq<Packet> {
    if sent == [] then []
    else
      var last := sent[|sent| - 1];
      SessionPackets(sent[..|sent| - 1]) + if last.viaSession then [last.packet] else []
  }

  function Marshallable(drawn: seq<Packet>): seq<Packet> {
    if drawn == [] then []
    else
      var last := drawn[|drawn| - 1];
      Marshallable(drawn[..|drawn| - 1]) + if Missing(last).None? then [last] else []
  }

  // A packet that has its id but is not yet encrypted.
  function PendingAt(cfg: Config, pc: Pc): seq<Packet> {
    match pc
    case Marshalling(p) => if Missing(Filled(cfg, p)).None? then [Filled(cfg, p)] else []
    case WantsWire(q) => [q]
    case HasWire(q) => [q]
    case _ => []
  }

  function Pending(cfg: Config, s: State): seq<Packet> {
    if s.mu.Some? && s.mu.value < |s.pcs| then PendingAt(cfg, s.pcs[s.mu.value]) else []
  }

  ghost predicate WireInv(cfg: Config, s: State) {
    !s.failed ==> Channel.Sent(cfg.cipher, cfg.magic, cfg.iv, PacketsOf(s.sent), s.wire + Unwritten(s), s.chain)
  }

  ghost predicate IdInv(cfg: Config, s: State) {
    && s.nextID == |s.drawn| % 0x1_0000_0000
    && (forall k :: 0 <= k < |s.drawn| ==> s.drawn[k].header.id == (k + 1) % 0x1_0000_0000)
    && Marshallable(s.drawn) == SessionPackets(s.sent) + Pending(cfg, s)
  }

  ghost predicate Inv(cfg: Config, s: State) {
    |s.pcs| == |cfg.jobs| && Locks(cfg, s) && WireInv(cfg, s) && IdInv(cfg, s)
  }

  lemma BootInv(cfg: Config)
    ensures Inv(cfg, Boot(cfg))
  {
    var s := Boot(cfg);
    assert [] + Unwritten(s) == [];
    assert Channel.PlainOf([], cfg.magic) == [];
    assert SessionPackets([]) + Pending(cfg, s) == [];
  }

  // What one move does to its own thread and to the two locks.
  lemma OneThreadMoves(cfg: Config, s: State, m: Move)
    requires TypesFit(cfg) && |s.pcs| == |cfg.jobs| && Apply(cfg, s, m).Some?
    requires PcFits(cfg, s.pcs[m.t])
    requires s.mu == Some(m.t) <==> cfg.jobs[m.t].SessionSend? && HoldsSession(s.pcs[m.t])
    requires s.sendMu == Some(m.t) <==> HoldsWire(s.pcs[m.t])
    requires cfg.jobs[m.t].ClientSend? ==> !s.pcs[m.t].WantsSession? && !s.pcs[m.t].HasSession?
    ensures var s', t := Apply(cfg, s, m).value, m.t;
      var pc, pc' := s.pcs[t], s'.pcs[t];
      var session := cfg.jobs[t].SessionSend?;
      && s'.pcs == s.pcs[t := pc'] && PcFits(cfg, pc')
      && (!session ==> !pc'.WantsSession? && !pc'.HasSession?)
      && (if session && HoldsSession(pc') then s'.mu == Some(t) && (s.mu.None? || s.mu == Some(t))
          else if session && HoldsSession(pc) then s'.mu == None else s'.mu == s.mu)
      && (if HoldsWire(pc') then s'.sendMu == Some(t) && (s.sendMu.None? || s.sendMu == Some(t))
          else if HoldsWire(pc) then s'.sendMu == None else s'.sendMu == s.sendMu)
  {
  }

  lemma LocksStep(cfg: Config, s: State, m: Move)
    requires TypesFit(cfg) && |s.pcs| == |cfg.jobs| && Locks(cfg, s) && Apply(cfg, s, m).Some?
    ensures Locks(cfg, Apply(cfg, s, m).value)
  {
    OneThreadMoves(cfg, s, m);
    LocksAfter(cfg, s, Apply(cfg, s, m).value, m.t);
  }

  lemma LocksAfter(cfg: Config, s: State, s': State, t: nat)
    requires |s.pcs| == |cfg.jobs| == |s'.pcs| && Locks(cfg, s) && t < |s.pcs|
    requires var pc, pc' := s.pcs[t], s'.pcs[t];
      var session := cfg.jobs[t].SessionSend?;
      && s'.pcs == s.pcs[t := pc'] && PcFits(cfg, pc')
      && (!session ==> !pc'.WantsSession? && !pc'.HasSession?)
      && (if session && HoldsSession(pc') then s'.mu == Some(t) && (s.mu.None? || s.mu == Some(t))
          else if session && HoldsSession(pc) then s'.mu == None else s'.mu == s.mu)
      && (if HoldsWire(pc') then s'.sendMu == Some(t) && (s.sendMu.None? || s.sendMu == Some(t))
          else if HoldsWire(pc) then s'.sendMu == None else s'.sendMu == s.sendMu)
    ensures Locks(cfg, s')
  {
  }

  lemma EncryptStep(cfg: Config, s: State, m: Move, q: Packet)
    requires |s.pcs| == |cfg.jobs| && WireInv(cfg, s) && Apply(cfg, s, m).Some?
    requires s.pcs[m.t] == HasWire(q) && Channel.Sendable(q) && s.sendMu == Some(m.t)
    ensures WireInv(cfg, Apply(cfg, s, m).value)
  {
    var s' := Apply(cfg, s, m).value;
    if !s.failed {
      assert Unwritten(s) == [] && s.wire + [] == s.wire;
      PacketsOfSnoc(s.sent, Entry(m.t, q, cfg.jobs[m.t].SessionSend?));
      Channel.SentSnoc(cfg.cipher, cfg.magic, cfg.iv, PacketsOf(s.sent), s.wire, s.chain, q);
      assert Secret(cfg, s, q) == Channel.SealedFrame(cfg.cipher, cfg.magic, s.chain, q);
      assert s'.wire == s.wire && Unwritten(s') == Secret(cfg, s, q);
    }
  }

  lemma PacketsOfSnoc(sent: seq<Entry>, e: Entry)
    ensures PacketsOf(sent + [e]) == PacketsOf(sent) + [e.packet]
  {
    assert (sent + [e])[..|sent|] == sent;
  }

  lemma WriteStep(cfg: Config, s: State, m: Move, rest: seq<byte>)
    requires |s.pcs| == |cfg.jobs| && WireInv(cfg, s) && Apply(cfg, s, m).Some?
    requires s.pcs[m.t] == Writing(rest) && s.sendMu == Some(m.t)
    ensures WireInv(cfg, Apply(cfg, s, m).value)
  {
    var s' := Apply(cfg, s, m).value;
    if !s'.failed && rest != [] {
      var n := Min(m.n, |rest|);
      assert rest == rest[..n] + rest[n..];
      Associative(s.wire, rest[..n], rest[n..]);
      assert s'.wire + Unwritten(s') == s.wire + Unwritten(s);
    }
  }

  lemma WireStep(cfg: Config, s: State, m: Move)
    requires TypesFit(cfg) && Inv(cfg, s) && Apply(cfg, s, m).Some?
    ensures WireInv(cfg, Apply(cfg, s, m).value)
  {
    LocksStep(cfg, s, m);
    match s.pcs[m.t]
    case HasWire(q) => EncryptStep(cfg, s, m, q);
    case Writing(rest) => WriteStep(cfg, s, m, rest);
    case _ => OtherSteps(cfg, s, m);
  }

  // No other step touches the wire, the chain or what is owed to the wire.
  lemma OtherSteps(cfg: Config, s: State, m: Move)
    requires |s.pcs| == |cfg.jobs| && Locks(cfg, s) && Apply(cfg, s, m).Some?
    requires !s.pcs[m.t].HasWire? && !s.pcs[m.t].Writing?
    ensures var s' := Apply(cfg, s, m).value;
      && s'.wire == s.wire && s'.chain == s.chain && s'.sent == s.sent && s'.failed == s.failed
      && Unwritten(s') == Unwritten(s)
  {
  }

  lemma FilledKeeps(cfg: Config, p: Packet)
    ensures Missing(Filled(cfg, p)) == Missing(p)
    ensures Filled(cfg, p).header.id == p.header.id && Filled(cfg, p).header.typ == p.header.typ
  {
  }

  lemma DrawStep(cfg: Config, s: State, m: Move)
    requires TypesFit(cfg) && Inv(cfg, s) && Apply(cfg, s, m).Some? && s.pcs[m.t].HasSession?
    ensures IdInv(cfg, Apply(cfg, s, m).value)
  {
    var s' := Apply(cfg, s, m).value;
    var q := WithId(s.pcs[m.t].packet, s'.nextID);
    FilledKeeps(cfg, q);
    assert s.mu == Some(m.t);
    assert s'.drawn == s.drawn + [Filled(cfg, q)];
    assert s'.pcs[m.t] == Marshalling(q);
    DrawIds(s.drawn, s.nextID, Filled(cfg, q));
    assert s'.drawn[..|s.drawn|] == s.drawn;
    assert SessionPackets(s.sent) + [] == SessionPackets(s.sent);
  }

  lemma DrawIds(drawn: seq<Packet>, nextID: uint32, q: Packet)
    requires nextID == |drawn| % 0x1_0000_0000 && q.header.id == (nextID as int + 1) % 0x1_0000_0000
    requires forall k :: 0 <= k < |drawn| ==> drawn[k].header.id == (k + 1) % 0x1_0000_0000
    ensures forall k :: 0 <= k < |drawn + [q]| ==> (drawn + [q])[k].header.id == (k + 1) % 0x1_0000_0000
    ensures q.header.id == |drawn + [q]| % 0x1_0000_0000
  {
  }

  lemma SessionPacketsSnoc(sent: seq<Entry>, e: Entry)
    ensures SessionPackets(sent + [e]) == SessionPackets(sent) + (if e.viaSession then [e.packet] else [])
  {
    assert (sent + [e])[..|sent|] == sent;
  }

  // The call that holds mu goes from pending to sent.
  lemma SentVia(cfg: Config, s: State, m: Move)
    requires |s.pcs| == |cfg.jobs| && Locks(cfg, s) && Apply(cfg, s, m).Some? && s.pcs[m.t].HasWire? && cfg.jobs[m.t].SessionSend?
    ensures var s' := Apply(cfg, s, m).value;
      Pending(cfg, s) == [s.pcs[m.t].packet] && Pending(cfg, s') == []
  {
    assert s.mu == Some(m.t);
  }

  // Any other call leaves what is pending alone.
  lemma SentOther(cfg: Config, s: State, m: Move)
    requires |s.pcs| == |cfg.jobs| && Locks(cfg, s) && Apply(cfg, s, m).Some? && s.pcs[m.t].HasWire? && !cfg.jobs[m.t].SessionSend?
    ensures Pending(cfg, Apply(cfg, s, m).value) == Pending(cfg, s)
  {
    assert s.mu != Some(m.t);
  }

  lemma SentStep(cfg: Config, s: State, m: Move)
    requires TypesFit(cfg) && Inv(cfg, s) && Apply(cfg, s, m).Some? && s.pcs[m.t].HasWire?
    ensures IdInv(cfg, Apply(cfg, s, m).value)
  {
    var q, via := s.pcs[m.t].packet, cfg.jobs[m.t].SessionSend?;
    SessionPacketsSnoc(s.sent, Entry(m.t, q, via));
    AppendNothing(SessionPackets(s.sent), q);
    if via {
      SentVia(cfg, s, m);
    } else {
      SentOther(cfg, s, m);
    }
  }

  lemma AppendNothing(a: seq<Packet>, q: Packet)
    ensures a + [] == a && (a + [q]) + [] == a + [q]
  {
  }

  lemma QuietPc(cfg: Config, s: State, m: Move)
    requires |s.pcs| == |cfg.jobs| && Apply(cfg, s, m).Some?
    requires !s.pcs[m.t].HasSession? && !s.pcs[m.t].HasWire? && PcFits(cfg, s.pcs[m.t])
    ensures var s' := Apply(cfg, s, m).value;
      && s'.nextID == s.nextID && s'.drawn == s.drawn && s'.sent == s.sent
      && (HoldsSession(s.pcs[m.t]) ==> PendingAt(cfg, s'.pcs[m.t]) == PendingAt(cfg, s.pcs[m.t]))
      && (!HoldsSession(s.pcs[m.t]) && HoldsSession(s'.pcs[m.t]) && cfg.jobs[m.t].SessionSend?
          ==> PendingAt(cfg, s'.pcs[m.t]) == [])
      && (!HoldsSession(s'.pcs[m.t]) ==> PendingAt(cfg, s'.pcs[m.t]) == [])
  {
  }

  // No other step changes what is drawn, sent or pending.
  lemma QuietStep(cfg: Config, s: State, m: Move)
    requires TypesFit(cfg) && |s.pcs| == |cfg.jobs| && Locks(cfg, s) && Apply(cfg, s, m).Some?
    requires !s.pcs[m.t].HasSession? && !s.pcs[m.t].HasWire?
    ensures var s' := Apply(cfg, s, m).value;
      && s'.nextID == s.nextID && s'.drawn == s.drawn && s'.sent == s.sent
      && Pending(cfg, s') == Pending(cfg, s)
  {
    OneThreadMoves(cfg, s, m);
    QuietPc(cfg, s, m);
  }

  lemma IdStep(cfg: Config, s: State, m: Move)
    requires TypesFit(cfg) && Inv(cfg, s) && Apply(cfg, s, m).Some?
    ensures IdInv(cfg, Apply(cfg, s, m).value)
  {
    if s.pcs[m.t].HasSession? {
      DrawStep(cfg, s, m);
    } else if s.pcs[m.t].HasWire? {
      SentStep(cfg, s, m);
    } else {
      QuietStep(cfg, s, m);
    }
  }

  lemma {:induction false} InvRun(cfg: Config, moves: seq<Move>)
    requires TypesFit(cfg) && Run(cfg, moves).Some?
    ensures Inv(cfg, Run(cfg, moves).value)
  {
    if moves == [] {
      BootInv(cfg);
    } else {
      var s := Run(cfg, moves[..|moves| - 1]).value;
      InvRun(cfg, moves[..|moves| - 1]);
      LocksStep(cfg, s, moves[|moves| - 1]);
      WireStep(cfg, s, moves[|moves| - 1]);
      IdStep(cfg, s, moves[|moves| - 1]);
    }
  }

  // ---- What every schedule guarantees --------------------------------------

  // Never torn: until a write fails, the wire is the encryption of whole
  // frames, except for the tail that the one thread inside sendMu still owes;
  // so when nobody is writing, the peer reads exactly the packets sent.
  lemma WireIsWholeFrames(cfg: Config, moves: seq<Move>)
    requires TypesFit(cfg) && Inverts(cfg.cipher)
    requires Run(cfg, moves).Some? && !Run(cfg, moves).value.failed
    ensures var s := Run(cfg, moves).value;
      var ps := PacketsOf(s.sent);
      && Channel.Sent(cfg.cipher, cfg.magic, cfg.iv, ps, s.wire + Unwritten(s), s.chain)
      && (Unwritten(s) == [] ==>
          Channel.ReadPackets(cfg.cipher, cfg.magic, cfg.iv, s.wire, |ps|)
          == Channel.ReadLog(Channel.NormalForms(ps), s.chain, []))
  {
    InvRun(cfg, moves);
    var s := Run(cfg, moves).value;
    if Unwritten(s) == [] {
      assert s.wire + [] == s.wire;
      Channel.ReadsAllPackets(cfg.cipher, cfg.magic, cfg.iv, PacketsOf(s.sent), []);
    }
  }

  // Ids in wire order: the session's packets on the wire, followed by the one
  // packet that has its id but is not yet encrypted, are exactly the packets
  // that drew an id and could be marshalled, and the k-th draw is k+1 mod 2^32.
  lemma IdsInWireOrder(cfg: Config, moves: seq<Move>)
    requires TypesFit(cfg) && Run(cfg, moves).Some?
    ensures var s := Run(cfg, moves).value;
      && SessionPackets(s.sent) + Pending(cfg, s) == Marshallable(s.drawn)
      && (forall k :: 0 <= k < |s.drawn| ==> s.drawn[k].header.id == (k + 1) % 0x1_0000_0000)
      && |Pending(cfg, s)| <= 1
  {
    InvRun(cfg, moves);
  }

  predicate ValidPayloads(cfg: Config) {
    forall t :: 0 <= t < |cfg.jobs| ==>
      cfg.jobs[t].SessionSend? ==> Missing(Built(cfg, cfg.jobs[t])).None?
  }

  lemma {:induction false} AllMarshallable(drawn: seq<Packet>)
    requires forall k :: 0 <= k < |drawn| ==> Missing(drawn[k]).None?
    ensures Marshallable(drawn) == drawn
  {
    if drawn == [] {
    } else {
      AllMarshallable(drawn[..|drawn| - 1]);
    }
  }

  ghost predicate Valid(cfg: Config, s: State) {
    && (forall k :: 0 <= k < |s.drawn| ==> Missing(s.drawn[k]).None?)
    && (forall t :: 0 <= t < |s.pcs| ==> ValidPc(s.pcs[t]))
  }

  predicate ValidPc(pc: Pc) {
    pc.WantsSession? || pc.HasSession? ==> Missing(pc.packet).None?
  }

  lemma ValidDraw(cfg: Config, s: State, m: Move)
    requires |s.pcs| == |cfg.jobs| && Apply(cfg, s, m).Some? && ValidPc(s.pcs[m.t])
    ensures var s' := Apply(cfg, s, m).value;
      if s.pcs[m.t].HasSession? then
        var q := Filled(cfg, WithId(s.pcs[m.t].packet, s'.nextID));
        s'.drawn == s.drawn + [q] && Missing(q).None?
      else s'.drawn == s.drawn
  {
    if s.pcs[m.t].HasSession? {
      FilledKeeps(cfg, WithId(s.pcs[m.t].packet, Apply(cfg, s, m).value.nextID));
    }
  }

  lemma ValidMove(cfg: Config, s: State, m: Move)
    requires |s.pcs| == |cfg.jobs| && Apply(cfg, s, m).Some? && ValidPc(s.pcs[m.t])
    requires cfg.jobs[m.t].SessionSend? ==> Missing(Built(cfg, cfg.jobs[m.t])).None?
    ensures var s' := Apply(cfg, s, m).value;
      s'.pcs == s.pcs[m.t := s'.pcs[m.t]] && ValidPc(s'.pcs[m.t])
  {
  }

  lemma {:induction false} ValidRun(cfg: Config, moves: seq<Move>)
    requires ValidPayloads(cfg) && Run(cfg, moves).Some?
    ensures Valid(cfg, Run(cfg, moves).value)
  {
    if moves == [] {
    } else {
      var s := Run(cfg, moves[..|moves| - 1]).value;
      var m := moves[|moves| - 1];
      ValidRun(cfg, moves[..|moves| - 1]);
      ValidMove(cfg, s, m);
      ValidDraw(cfg, s, m);
    }
  }

  // With valid payloads and fewer than 2^32 sends, the session's packets on the
  // wire carry 1, 2, 3, ... with no gap, whatever else is interleaved.
  lemma ConsecutiveIds(cfg: Config, moves: seq<Move>, k: nat)
    requires TypesFit(cfg) && ValidPayloads(cfg) && Run(cfg, moves).Some?
    requires k < |SessionPackets(Run(cfg, moves).value.sent)| < 0x1_0000_0000
    ensures SessionPackets(Run(cfg, moves).value.sent)[k].header.id == k + 1
  {
    InvRun(cfg, moves);
    ValidRun(cfg, moves);
    var s := Run(cfg, moves).value;
    AllMarshallable(s.drawn);
    PrefixHasId(SessionPackets(s.sent), Pending(cfg, s), s.drawn, k);
  }

  lemma PrefixHasId(a: seq<Packet>, b: seq<Packet>, drawn: seq<Packet>, k: nat)
    requires drawn == a + b && k < |a| < 0x1_0000_0000
    requires forall k :: 0 <= k < |drawn| ==> drawn[k].header.id == (k + 1) % 0x1_0000_0000
    ensures a[k].header.id == k + 1
  {
    assert a[k] == drawn[k];
  }

  lemma {:induction false} MarshallableSize(drawn: seq<Packet>)
    ensures |Marshallable(drawn)| <= |drawn|
    ensures |Marshallable(drawn)| == |drawn| ==> forall k :: 0 <= k < |drawn| ==> Missing(drawn[k]).None?
  {
    if drawn == [] {
    } else {
      var front := drawn[..|drawn| - 1];
      MarshallableSize(front);
      assert forall k :: 0 <= k < |front| ==> front[k] == drawn[k];
    }
  }

  // The k-th packet that could be marshalled is the draw with k such before it.
  lemma {:induction false} Origin(drawn: seq<Packet>, k: nat) returns (j: nat)
    requires k < |Marshallable(drawn)|
    ensures k <= j < |drawn| && drawn[j] == Marshallable(drawn)[k] && Missing(drawn[j]).None?
    ensures |Marshallable(drawn[..j])| == k
  {
    var n := |drawn| - 1;
    var front := drawn[..n];
    if k < |Marshallable(front)| {
      j := Origin(front, k);
      assert front[..j] == drawn[..j];
    } else {
      MarshallableSize(front);
      j := n;
    }
  }

  lemma {:induction false} Destination(drawn: seq<Packet>, j: nat)
    requires j < |drawn| && Missing(drawn[j]).None?
    ensures var k := |Marshallable(drawn[..j])|;
      k <= j && k < |Marshallable(drawn)| && Marshallable(drawn)[k] == drawn[j]
  {
    MarshallableSize(drawn[..j]);
    var n := |drawn| - 1;
    if j < n {
      Destination(drawn[..n], j);
      assert drawn[..n][..j] == drawn[..j];
    }
  }

  // No draw without its payload comes before one with it.
  ghost predicate NoWastedDraw(drawn: seq<Packet>) {
    forall i, j :: 0 <= i < j < |drawn| && Missing(drawn[j]).None? ==> Missing(drawn[i]).None?
  }

  ghost predicate Numbered(ps: seq<Packet>) {
    forall k :: 0 <= k < |ps| ==> ps[k].header.id == k + 1
  }

  // One packet arrives with its rank for id exactly when nothing before it was wasted.
  lemma RankIsId(drawn: seq<Packet>, j: nat)
    requires j < |drawn| < 0x1_0000_0000 && Missing(drawn[j]).None?
    requires drawn[j].header.id == (j + 1) % 0x1_0000_0000
    ensures drawn[j].header.id == |Marshallable(drawn[..j])| + 1
      <==> forall i :: 0 <= i < j ==> Missing(drawn[i]).None?
  {
    var before := drawn[..j];
    MarshallableSize(before);
    assert forall i :: 0 <= i < j ==> before[i] == drawn[i];
    if forall i :: 0 <= i < j ==> Missing(drawn[i]).None? {
      AllMarshallable(before);
    }
  }

  lemma ConsecutiveIff(drawn: seq<Packet>)
    requires |drawn| < 0x1_0000_0000
    requires forall k :: 0 <= k < |drawn| ==> drawn[k].header.id == (k + 1) % 0x1_0000_0000
    ensures Numbered(Marshallable(drawn)) <==> NoWastedDraw(drawn)
  {
    if Numbered(Marshallable(drawn)) {
      forall i, j | 0 <= i < j < |drawn| && Missing(drawn[j]).None?
        ensures Missing(drawn[i]).None?
      {
        Destination(drawn, j);
        RankIsId(drawn, j);
      }
    }
    if NoWastedDraw(drawn) {
      forall k | 0 <= k < |Marshallable(drawn)|
        ensures Marshallable(drawn)[k].header.id == k + 1
      {
        var j := Origin(drawn, k);
        RankIsId(drawn, j);
      }
    }
  }

  // A draw that lacks its payload uses up an id: the ids on the wire are 1, 2, 3
  // and so on exactly when no such draw comes before a packet that was sent.
  lemma GapIff(cfg: Config, moves: seq<Move>)
    requires TypesFit(cfg) && Run(cfg, moves).Some?
    requires var s := Run(cfg, moves).value; Pending(cfg, s) == [] && |s.drawn| < 0x1_0000_0000
    ensures var s := Run(cfg, moves).value;
      Numbered(SessionPackets(s.sent)) <==> NoWastedDraw(s.drawn)
  {
    IdsInWireOrder(cfg, moves);
    var s := Run(cfg, moves).value;
    ConsecutiveIff(s.drawn);
    assert SessionPackets(s.sent) + [] == SessionPackets(s.sent);
  }

  lemma CanMove(cfg: Config, s: State, t: nat, m: Move)
    requires t < |s.pcs| == |cfg.jobs| && PcFits(cfg, s.pcs[t]) && !s.pcs[t].Gone?
    requires s.pcs[t].Entering? ==> Turn(cfg, s, t)
    requires s.pcs[t].WantsSession? ==> s.mu.None?
    requires s.pcs[t].WantsWire? ==> s.sendMu.None?
    ensures NextPc(cfg, s, t, m).Some?
  {
  }

  // The lock order never deadlocks: while some call is not done, some call can move.
  lemma SomebodyMoves(cfg: Config, moves: seq<Move>, t: nat) returns (u: nat)
    requires TypesFit(cfg) && Run(cfg, moves).Some?
    requires t < |cfg.jobs| && !Run(cfg, moves).value.pcs[t].Gone?
    ensures Apply(cfg, Run(cfg, moves).value, Move(u, 1, false)).Some?
    decreases t
  {
    InvRun(cfg, moves);
    var s := Run(cfg, moves).value;
    if s.sendMu.None? && s.mu.None? && s.pcs[t].Entering? && !Turn(cfg, s, t) {
      var earlier :| 0 <= earlier < t && cfg.jobs[earlier].owner == cfg.jobs[t].owner && !s.pcs[earlier].Gone?;
      u := SomebodyMoves(cfg, moves, earlier);
    } else {
      u := if s.sendMu.Some? then s.sendMu.value else if s.mu.Some? then s.mu.value else t;
      CanMove(cfg, s, u, Move(u, 1, false));
    }
  }
}
