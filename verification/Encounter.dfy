/** Where the two views of a handshake meet: the schedules of two peers, and one
    peer's own calls on its connection. */
module Encounter {
  import opened Bytes
  import opened Protocol
  import opened Cipher
  import opened Handshake
  import HandshakeProofs
  import Channel
  import Network

  // The plaintext of two lists of packets is that of the first, then the second.
  lemma PlainAppend(a: seq<Packet>, b: seq<Packet>, magic: uint32)
    requires Channel.AllSendable(a) && Channel.AllSendable(b)
    ensures Channel.AllSendable(a + b)
    ensures Channel.PlainOf(a + b, magic) == Channel.PlainOf(a, magic) + Channel.PlainOf(b, magic)
  {
    assert Channel.FramesOf(a + b, magic) == Channel.FramesOf(a, magic) + Channel.FramesOf(b, magic);
    FlattenAppend(Channel.FramesOf(a, magic), Channel.FramesOf(b, magic));
  }

  // More packets only add to the end of the stream.
  lemma WireExtends(c: BlockCipher, magic: uint32, sender: Block, primer: Block, a: seq<Packet>, b: seq<Packet>)
    requires Channel.AllSendable(a) && Channel.AllSendable(b)
    ensures Channel.AllSendable(a + b)
    ensures Channel.PrimedWire(c, sender, primer, Channel.PlainOf(a, magic))
         <= Channel.PrimedWire(c, sender, primer, Channel.PlainOf(a + b, magic))
  {
    PlainAppend(a, b, magic);
    Channel.PrimedGrows(c, sender, primer, Channel.PlainOf(a, magic), Channel.PlainOf(b, magic));
  }

  // What a peer has written begins with the opening its partner waits for.
  lemma StartsWithOpening(cfg: Config, moves: seq<Move>, x: Side)
    requires Run(cfg, moves).Some? && |Run(cfg, moves).value.Of(Other(x)).out| >= 12
    ensures var out := Run(cfg, moves).value.Of(Other(x)).out;
      && HandshakeProofs.PrimedPackets(out)
      && Network.Opening(cfg.Of(x).me, cfg.Of(Other(x)).me) == HandshakeProofs.Packets(out[1..])[..11]
  {
    HandshakeProofs.InvRun(cfg, moves);
    HandshakeProofs.OutIsPrimedPackets(cfg, moves, Other(x));
    var me, you := cfg.Of(x), cfg.Of(Other(x));
    var out := Run(cfg, moves).value.Of(Other(x)).out;
    assert HandshakeProofs.Scripted(you, me, out);
    var ps := HandshakeProofs.Packets(out[1..]);
    var opening := Network.Opening(me.me, you.me);
    forall i | 0 <= i < 11
      ensures ps[i] == opening[i]
    {
      assert out[i + 1] == HandshakeProofs.Script(you, me, i + 1);
      assert ps[i] == out[1..][i].packet;
    }
  }

  // In every reachable state of two peers: once a side has written its primer,
  // its greetings and one answer, its bytes on the wire are, for whatever chain
  // and primer it started from, those with which Connect and Accept succeed.
  lemma ReachableStreamsOpen(cfg: Config, moves: seq<Move>, x: Side, c: BlockCipher, magic: uint32,
        sender: Block, primer: Block)
    requires Run(cfg, moves).Some? && |Run(cfg, moves).value.Of(Other(x)).out| >= 12
    ensures var out := Run(cfg, moves).value.Of(Other(x)).out;
      && HandshakeProofs.PrimedPackets(out)
      && var ps := HandshakeProofs.Packets(out[1..]);
      && Channel.AllSendable(ps)
      && Network.FromPeer(c, magic, cfg.Of(x).me, cfg.Of(Other(x)).me, Channel.PrimedWire(c, sender, primer, Channel.PlainOf(ps, magic)))
  {
    StartsWithOpening(cfg, moves, x);
    var out := Run(cfg, moves).value.Of(Other(x)).out;
    HandshakeProofs.PacketsSendable(out);
    var ps := HandshakeProofs.Packets(out[1..]);
    var opening := Network.Opening(cfg.Of(x).me, cfg.Of(Other(x)).me);
    Network.OpeningSendable(cfg.Of(x).me, cfg.Of(Other(x)).me);
    assert ps == opening + ps[11..];
    WireExtends(c, magic, sender, primer, opening, ps[11..]);
    var wire := Channel.PrimedWire(c, sender, primer, Channel.PlainOf(ps, magic));
    var first := Channel.PrimedWire(c, sender, primer, Channel.PlainOf(opening, magic));
    assert wire == first + wire[|first|..];
  }
}
