/** Safety, deadlock freedom and exact counts of the two-peer handshake, over
    every schedule. */
module HandshakeProofs {
  import opened Wrappers
  import opened Bytes
  import opened Protocol
  import opened Cipher
  import Channel
  import opened Handshake

  // What a peer writes, position by position: primer, ten greetings, ten
  // acknowledgements of the other's nonces, and then the session.
  function Script(me: Peer, you: Peer, i: nat): Item
    requires i < 21
  {
    if i == 0 then Primer
    else if i < 11 then Message(Hello(me.me))
    else Message(Ack(me.me, NormalForm(Hello(you.me))))
  }

  ghost predicate Scripted(me: Peer, you: Peer, out: seq<Item>) {
    && (forall i :: 0 <= i < |out| && i < 21 ==> out[i] == Script(me, you, i))
    && (forall i :: 21 <= i < |out| ==> out[i].Message? && Missing(out[i].packet).None?
                                        && out[i].packet.header.typ < 0x100 && !IsHandshake(out[i].packet.header.typ))
  }

  predicate IsA(t: uint32, i: Item) {
    i.Message? && i.packet.header.typ == t
  }

  function Count(t: uint32, items: seq<Item>): nat {
    if items == [] then 0
    else Count(t, items[..|items| - 1]) + if IsA(t, items[|items| - 1]) then 1 else 0
  }

  function Heard(you: Peer, gotHello: bool, gotAck: bool): Progress {
    Progress(gotAck, gotHello, if gotHello || gotAck then you.me.id else 0)
  }

  // Where a peer stands, as a function of how much it has written and read.
  ghost predicate Placed(me: Peer, you: Peer, e: End) {
    match e.phase
    case PrimerOut => e.out == [] && e.read == (if me.dials then 0 else 1) && e.progress == START && e.consumed == 0
    case PrimerIn => |e.out| == (if me.dials then 1 else 0) && e.read == 0 && e.progress == START && e.consumed == 0
    case Greeting(sent) => sent < 10 && |e.out| == 1 + sent && e.read == 1 && e.progress == START && e.consumed == 0
    case Listening => 1 <= e.read <= 11 && |e.out| == 10 + e.read && e.consumed == e.read - 1
                      && e.progress == Heard(you, e.read > 1, false)
    case Acking(ack) => 2 <= e.read <= 11 && |e.out| == 9 + e.read && e.consumed == e.read - 1
                        && e.progress == Heard(you, true, false) && ack == Ack(me.me, NormalForm(Hello(you.me)))
    case Complete => e.read >= 12 && |e.out| >= 21 && e.consumed == 11 && e.progress == Heard(you, true, true)
  }

  ghost predicate EndInv(me: Peer, you: Peer, e: End, other: seq<Item>) {
    && Scripted(me, you, e.out)
    && e.read <= |other|
    && Placed(me, you, e)
  }

  ghost predicate Inv(cfg: Config, s: System) {
    && EndInv(cfg.a, cfg.b, s.a, s.b.out)
    && EndInv(cfg.b, cfg.a, s.b, s.a.out)
  }

  lemma HelloArrives(you: Peer)
    ensures var p := NormalForm(Hello(you.me));
      p.header.typ == HANDSHAKE && p.header.src == you.me.id && p.handshake == Some(you.me.nonces)
  {
  }

  lemma AckArrives(me: Peer, you: Peer)
    ensures var p := NormalForm(Ack(you.me, NormalForm(Hello(me.me))));
      p.header.typ == HANDSHAKE_ACK && p.header.src == you.me.id && p.handshake == Some(Complemented(me.me.nonces))
  {
  }

  lemma StepKeeps(me: Peer, you: Peer, e: End, other: seq<Item>)
    requires EndInv(me, you, e, other) && Scripted(you, me, other)
    requires Step(me, e, other).Some?
    ensures EndInv(me, you, Step(me, e, other).value, other)
    ensures e.out <= Step(me, e, other).value.out
  {
    if e.phase.Listening? {
      assert other[e.read] == Script(you, me, e.read);
      if e.read < 11 {
        HelloArrives(you);
      } else {
        AckArrives(me, you);
      }
    }
  }

  lemma SessionSendKeeps(me: Peer, you: Peer, e: End, other: seq<Item>, p: Packet)
    requires EndInv(me, you, e, other) && e.phase.Complete?
    requires Missing(p).None? && p.header.typ < 0x100 && !IsHandshake(p.header.typ)
    ensures EndInv(me, you, e.(out := e.out + [Message(p)]), other)
  {
  }

  lemma SideStep(cfg: Config, s: System, m: Move)
    requires Inv(cfg, s) && Apply(cfg, s, m).Some?
    ensures var x, y := m.side, Other(m.side);
      var s' := Apply(cfg, s, m).value;
      && EndInv(cfg.Of(x), cfg.Of(y), s'.Of(x), s.Of(y).out)
      && s'.Of(y) == s.Of(y) && s.Of(x).out <= s'.Of(x).out
  {
    var x, y := m.side, Other(m.side);
    match m
    case Advance(_) => StepKeeps(cfg.Of(x), cfg.Of(y), s.Of(x), s.Of(y).out);
    case Send(_, p) => SessionSendKeeps(cfg.Of(x), cfg.Of(y), s.Of(x), s.Of(y).out, p);
    case Receive(_) =>
  }

  lemma InvStep(cfg: Config, s: System, m: Move)
    requires Inv(cfg, s) && Apply(cfg, s, m).Some?
    ensures Inv(cfg, Apply(cfg, s, m).value)
  {
    SideStep(cfg, s, m);
  }

  lemma {:induction false} InvRun(cfg: Config, moves: seq<Move>)
    requires Run(cfg, moves).Some?
    ensures Inv(cfg, Run(cfg, moves).value)
  {
    if moves == [] {
    } else {
      InvRun(cfg, moves[..|moves| - 1]);
      InvStep(cfg, Run(cfg, moves[..|moves| - 1]).value, moves[|moves| - 1]);
    }
  }

  // ---- Deadlock ------------------------------------------------------------

  predicate CanAdvance(cfg: Config, s: System, x: Side) {
    Apply(cfg, s, Advance(x)).Some?
  }

  predicate BothComplete(s: System) {
    s.a.phase.Complete? && s.b.phase.Complete?
  }

  // If at least one side dialled, no schedule ever leaves both sides waiting.
  lemma NeverStuck(cfg: Config, moves: seq<Move>)
    requires cfg.a.dials || cfg.b.dials
    requires Run(cfg, moves).Some? && !BothComplete(Run(cfg, moves).value)
    ensures var s := Run(cfg, moves).value;
      CanAdvance(cfg, s, A) || CanAdvance(cfg, s, B)
  {
    InvRun(cfg, moves);
    var s := Run(cfg, moves).value;
    if s.a.read < |s.b.out| {
      assert s.b.out[s.a.read] == if s.a.read < 21 then Script(cfg.b, cfg.a, s.a.read) else s.b.out[s.a.read];
    }
    if s.b.read < |s.a.out| {
      assert s.a.out[s.b.read] == if s.b.read < 21 then Script(cfg.a, cfg.b, s.b.read) else s.a.out[s.b.read];
    }
  }

  // Two sides that both wait for the first primer are stuck at once, so the
  // order of the primers is exactly what keeps the start from deadlocking.
  lemma StartsIff(cfg: Config)
    ensures (CanAdvance(cfg, Boot(cfg), A) || CanAdvance(cfg, Boot(cfg), B)) <==> cfg.a.dials || cfg.b.dials
  {
  }

  // ---- Counts --------------------------------------------------------------

  function Cap(n: nat, limit: nat): nat {
    if n < limit then n else limit
  }

  // Handshake actions already taken: 21 writes and 12 reads in all.
  function Work(e: End): nat {
    Cap(|e.out|, 21) + Cap(e.read, 12)
  }

  function Advances(moves: seq<Move>): nat {
    if moves == [] then 0
    else Advances(moves[..|moves| - 1]) + if moves[|moves| - 1].Advance? then 1 else 0
  }

  lemma StepWorks(me: Peer, you: Peer, e: End, other: seq<Item>)
    requires EndInv(me, you, e, other) && Scripted(you, me, other) && Step(me, e, other).Some?
    ensures Work(Step(me, e, other).value) == Work(e) + 1
  {
  }

  lemma MoveWorks(cfg: Config, s: System, m: Move)
    requires Inv(cfg, s) && Apply(cfg, s, m).Some?
    ensures var s' := Apply(cfg, s, m).value;
      Work(s'.a) + Work(s'.b) == Work(s.a) + Work(s.b) + if m.Advance? then 1 else 0
  {
    if m.Advance? {
      StepWorks(cfg.Of(m.side), cfg.Of(Other(m.side)), s.Of(m.side), s.Of(Other(m.side)).out);
    }
  }

  lemma {:induction false} WorkIsAdvances(cfg: Config, moves: seq<Move>)
    requires Run(cfg, moves).Some?
    ensures var s := Run(cfg, moves).value; Work(s.a) + Work(s.b) == Advances(moves)
  {
    if moves == [] {
    } else {
      var front := moves[..|moves| - 1];
      var m := moves[|moves| - 1];
      WorkIsAdvances(cfg, front);
      InvRun(cfg, front);
      MoveWorks(cfg, Run(cfg, front).value, m);
    }
  }

  // Every schedule has at most 66 handshake moves, and has both sides complete
  // exactly when it has 66; with NeverStuck, every schedule that keeps moving
  // completes.
  lemma CompletesInSixtySix(cfg: Config, moves: seq<Move>)
    requires Run(cfg, moves).Some?
    ensures Advances(moves) <= 66
    ensures Advances(moves) == 66 <==> BothComplete(Run(cfg, moves).value)
  {
    WorkIsAdvances(cfg, moves);
    InvRun(cfg, moves);
  }

  // ---- Safety --------------------------------------------------------------

  lemma {:induction false} ScriptCounts(me: Peer, you: Peer, out: seq<Item>)
    requires Scripted(me, you, out)
    ensures Count(HANDSHAKE, out) == if |out| == 0 then 0 else Cap(|out| - 1, 10)
    ensures Count(HANDSHAKE_ACK, out) == if |out| < 11 then 0 else Cap(|out| - 11, 10)
    decreases |out|
  {
    if out == [] {
    } else {
      var n := |out| - 1;
      ScriptCounts(me, you, out[..n]);
      if n < 21 {
        assert out[n] == Script(me, you, n);
      }
    }
  }

  // me's acknowledgement of you: the complement of your nonces, in my name.
  predicate Answers(me: Peer, you: Peer, ack: Packet) {
    ack.handshake == Some(Complemented(you.me.nonces)) && ack.header.src == me.me.id
  }

  // The number of acknowledgements a side has written is the number of
  // handshakes it has taken in, less one only while it is writing the answer.
  lemma AcksMatchHandshakes(cfg: Config, moves: seq<Move>, x: Side)
    requires Run(cfg, moves).Some?
    ensures var s := Run(cfg, moves).value;
      var e := s.Of(x);
      && e.read <= |s.Of(Other(x)).out|
      && Count(HANDSHAKE_ACK, e.out) + (if e.phase.Acking? then 1 else 0)
         == Count(HANDSHAKE, s.Of(Other(x)).out[..e.read])
    ensures forall item :: item in Run(cfg, moves).value.Of(x).out && IsA(HANDSHAKE_ACK, item)
              ==> Answers(cfg.Of(x), cfg.Of(Other(x)), item.packet)
  {
    InvRun(cfg, moves);
    var s := Run(cfg, moves).value;
    EndCounts(cfg.Of(x), cfg.Of(Other(x)), s.Of(x), s.Of(Other(x)).out);
  }

  lemma EndCounts(me: Peer, you: Peer, e: End, other: seq<Item>)
    requires EndInv(me, you, e, other) && Scripted(you, me, other)
    ensures Count(HANDSHAKE_ACK, e.out) + (if e.phase.Acking? then 1 else 0) == Count(HANDSHAKE, other[..e.read])
    ensures forall item :: item in e.out && IsA(HANDSHAKE_ACK, item) ==> Answers(me, you, item.packet)
  {
    ScriptCounts(me, you, e.out);
    ScriptCounts(you, me, other[..e.read]);
    HelloArrives(you);
    forall i | 0 <= i < |e.out| && IsA(HANDSHAKE_ACK, e.out[i])
      ensures Answers(me, you, e.out[i].packet)
    {
      if i < 21 {
        assert e.out[i] == Script(me, you, i);
      }
    }
  }

  // What a completed side knows: the other's id; that the other took in its
  // greeting; that its own loop consumed eleven frames, ten handshakes and one
  // acknowledgement; and that exactly nine acknowledgements precede whatever
  // session frames the other sends.
  lemma CompletionMeans(cfg: Config, moves: seq<Move>, x: Side)
    requires Run(cfg, moves).Some? && Run(cfg, moves).value.Of(x).phase.Complete?
    ensures var s := Run(cfg, moves).value;
      var e, o := s.Of(x), s.Of(Other(x));
      && e.progress.remote == cfg.Of(Other(x)).me.id
      && o.progress.gotHello && o.progress.remote == cfg.Of(x).me.id
      && e.consumed == 11 && 12 <= e.read <= |o.out|
      && Count(HANDSHAKE, o.out[1..12]) == 10 && Count(HANDSHAKE_ACK, o.out[1..12]) == 1
      && (forall i :: 12 <= i < 21 && i < |o.out| ==> IsA(HANDSHAKE_ACK, o.out[i]))
      && (forall i :: 21 <= i < |o.out| ==> !IsA(HANDSHAKE_ACK, o.out[i]) && !IsA(HANDSHAKE, o.out[i]))
      && (|o.out| >= 21 <==> Count(HANDSHAKE_ACK, o.out) == 10)
  {
    InvRun(cfg, moves);
    var s := Run(cfg, moves).value;
    var me, you := cfg.Of(x), cfg.Of(Other(x));
    var out := s.Of(Other(x)).out;
    assert forall i :: 12 <= i < 21 && i < |out| ==> out[i] == Script(you, me, i);
    ScriptCounts(you, me, out);
    LoopFrames(you, me, out);
  }

  lemma LoopFrames(me: Peer, you: Peer, out: seq<Item>)
    requires Scripted(me, you, out) && |out| >= 12
    ensures Count(HANDSHAKE, out[1..12]) == 10 && Count(HANDSHAKE_ACK, out[1..12]) == 1
  {
    ScriptCounts(me, you, out[..12]);
    DropPrimer(HANDSHAKE, out[..12]);
    DropPrimer(HANDSHAKE_ACK, out[..12]);
    assert out[0] == Script(me, you, 0);
    assert out[..12][1..] == out[1..12];
  }

  lemma {:induction false} DropPrimer(t: uint32, items: seq<Item>)
    requires items != [] && items[0].Primer?
    ensures Count(t, items[1..]) == Count(t, items)
    decreases |items|
  {
    var n := |items| - 1;
    if n > 0 {
      DropPrimer(t, items[..n]);
      assert items[1..][..n - 1] == items[..n][1..];
    }
  }

  // No session frame is ever swallowed: every frame a handshake loop has
  // consumed, at any moment of any schedule, is a handshake packet.
  lemma LoopSwallowsNoSession(cfg: Config, moves: seq<Move>, x: Side)
    requires Run(cfg, moves).Some?
    ensures var s := Run(cfg, moves).value;
      var e, o := s.Of(x), s.Of(Other(x));
      && e.consumed < 12 && (e.consumed > 0 ==> e.consumed < |o.out|)
      && (!e.phase.Complete? && e.read > 0 ==> e.consumed == e.read - 1)
      && forall i :: 1 <= i <= e.consumed ==> o.out[i].Message? && IsHandshake(o.out[i].packet.header.typ)
  {
    InvRun(cfg, moves);
    var s := Run(cfg, moves).value;
    var me, you := cfg.Of(x), cfg.Of(Other(x));
    var out := s.Of(Other(x)).out;
    assert forall i :: 1 <= i <= s.Of(x).consumed ==> out[i] == Script(you, me, i);
  }

  // ---- The channels are the wire -------------------------------------------

  function Packets(items: seq<Item>): seq<Packet>
    requires forall i :: 0 <= i < |items| ==> items[i].Message?
  {
    seq(|items|, i requires 0 <= i < |items| && items[i].Message? => items[i].packet)
  }

  ghost predicate PrimedPackets(items: seq<Item>) {
    && items != [] && items[0].Primer?
    && forall i :: 1 <= i < |items| ==> items[i].Message? && Channel.Sendable(items[i].packet)
  }

  lemma OutIsPrimedPackets(cfg: Config, moves: seq<Move>, x: Side)
    requires Run(cfg, moves).Some? && Run(cfg, moves).value.Of(x).out != []
    ensures PrimedPackets(Run(cfg, moves).value.Of(x).out)
  {
    InvRun(cfg, moves);
    var out := Run(cfg, moves).value.Of(x).out;
    assert forall i :: 0 <= i < |out| && i < 21 ==> out[i] == Script(cfg.Of(x), cfg.Of(Other(x)), i);
  }

  lemma PacketsSendable(items: seq<Item>)
    requires PrimedPackets(items)
    ensures Channel.AllSendable(Packets(items[1..]))
  {
    forall i | 0 <= i < |items| - 1
      ensures Packets(items[1..])[i] == items[i + 1].packet
    {
      assert items[1..][i] == items[i + 1];
    }
  }

  // In every reachable state, what a side has written, put on the wire as one
  // primer block and encrypted frames, is read by the other side's readPacket
  // as exactly the packets its channel delivers, whatever chains they began with.
  lemma ChannelIsWire(cfg: Config, moves: seq<Move>, x: Side, c: BlockCipher, magic: uint32,
                      sender: Block, receiver: Block, primer: Block)
    requires Run(cfg, moves).Some? && Run(cfg, moves).value.Of(x).out != []
    requires Inverts(c)
    ensures var out := Run(cfg, moves).value.Of(x).out;
      && PrimedPackets(out)
      && var ps := Packets(out[1..]);
      && Channel.AllSendable(ps)
      && var wire := Channel.PrimedWire(c, sender, primer, Channel.PlainOf(ps, magic));
      && Channel.ReadPrimed(c, magic, receiver, wire, |ps|).outcomes == Channel.NormalForms(ps)
  {
    OutIsPrimedPackets(cfg, moves, x);
    var out := Run(cfg, moves).value.Of(x).out;
    PacketsSendable(out);
    Channel.PrimedPacketsArrive(Packets(out[1..]), c, magic, sender, receiver, primer);
  }

  // ---- Any packets at all --------------------------------------------------

  // An acknowledgement whose words add up with ours to all ones.
  predicate AddsUp(p: Packet, ours: HandshakeData) {
    && p.header.typ == 127 && p.handshake.Some?
    && p.handshake.value.m1 + ours.m1 == 0xFFFF_FFFF && p.handshake.value.m2 + ours.m2 == 0xFFFF_FFFF
    && p.handshake.value.m3 + ours.m3 == 0xFFFF_FFFF && p.handshake.value.m4 + ours.m4 == 0xFFFF_FFFF
  }

  predicate Greets(p: Packet) {
    p.header.typ == 126 && p.handshake.Some?
  }

  // A packet whose source is taken for the other side's id.
  predicate Introduces(p: Packet, ours: HandshakeData) {
    p.header.typ == 126 || AddsUp(p, ours)
  }

  // The source of the last such packet, or 0.
  function LastIntroduced(ps: seq<Packet>, ours: HandshakeData): uint32 {
    if ps == [] then 0
    else if Introduces(ps[|ps| - 1], ours) then ps[|ps| - 1].header.src
    else LastIntroduced(ps[..|ps| - 1], ours)
  }

  lemma NoteIff(me: Identity, g: Progress, p: Packet)
    ensures Note(me, g, p).gotAck <==> g.gotAck || AddsUp(p, me.nonces)
    ensures Note(me, g, p).gotHello <==> g.gotHello || Greets(p)
    ensures Note(me, g, p).remote == if Introduces(p, me.nonces) then p.header.src else g.remote
  {
  }

  // Whoever sent the packets: what the loop has noted is exactly what they say.
  lemma {:induction false} HeedIff(me: Identity, ps: seq<Packet>)
    ensures Heed(me, ps).gotAck <==> exists i :: 0 <= i < |ps| && AddsUp(ps[i], me.nonces)
    ensures Heed(me, ps).gotHello <==> exists i :: 0 <= i < |ps| && Greets(ps[i])
    ensures Heed(me, ps).remote == LastIntroduced(ps, me.nonces)
    decreases |ps|
  {
    if ps == [] {
    } else {
      var front, p := ps[..|ps| - 1], ps[|ps| - 1];
      HeedIff(me, front);
      NoteIff(me, Heed(me, front), p);
      SomeSnoc(front, p, q => AddsUp(q, me.nonces));
      SomeSnoc(front, p, q => Greets(q));
      assert front + [p] == ps;
    }
  }

  lemma SomeSnoc<T>(s: seq<T>, x: T, f: T -> bool)
    ensures (exists i :: 0 <= i < |s + [x]| && f((s + [x])[i])) <==> f(x) || exists i :: 0 <= i < |s| && f(s[i])
  {
    var all := s + [x];
    assert all[|s|] == x;
    if i :| 0 <= i < |s| && f(s[i]) {
      assert all[i] == s[i];
    }
  }

  // The greetings among some packets, which are what is answered.
  function Asked(ps: seq<Packet>): seq<Packet> {
    if ps == [] then [] else Asked(ps[..|ps| - 1]) + if Greets(ps[|ps| - 1]) then [ps[|ps| - 1]] else []
  }

  // The answer goes by the greeting's id, and their words add up to all ones.
  predicate AnswersTo(a: Packet, greeting: Packet, me: Identity) {
    && greeting.handshake.Some? && AddsUp(a, greeting.handshake.value)
    && a.header == Header(127, greeting.header.id, me.id, 0, 0) && a.name == me.name
    && a.keyboard.None? && a.mouse.None? && a.raw.None?
  }

  // Each greeting is answered once, in order, and nothing else is.
  lemma {:induction false} RepliesAnswer(me: Identity, ps: seq<Packet>)
    ensures |Replies(me, ps)| == |Asked(ps)|
    ensures forall k :: 0 <= k < |Asked(ps)| ==> AnswersTo(Replies(me, ps)[k], Asked(ps)[k], me)
    decreases |ps|
  {
    if ps == [] {
    } else {
      RepliesAnswer(me, ps[..|ps| - 1]);
    }
  }
}
