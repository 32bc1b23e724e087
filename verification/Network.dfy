/** The network client: loops over partial reads and writes, and the packet
    methods built on them, proved against the functions of Channel. */
module Network {
  import opened Wrappers
  import opened Bytes
  import opened Protocol
  import opened Cipher
  import Channel
  import opened Handshake
  import HandshakeProofs
  import Buffers

  /** A TCP connection.  What the peer sent comes in arbitrary segments and then
      the stream closes; each write takes as much as `accepts` says, and fails
      once that runs out. */
  class Conn {
    var inbound: seq<seq<byte>>
    var outbound: seq<byte>
    var accepts: seq<nat>

    constructor (inbound: seq<seq<byte>>, accepts: seq<nat>)
      ensures this.inbound == inbound && this.accepts == accepts && outbound == []
    {
      this.inbound, this.accepts, outbound := inbound, accepts, [];
    }

    // At most limit bytes of the first segment.
    method Read(limit: nat) returns (data: seq<byte>)
      requires inbound != []
      modifies this`inbound
      ensures |data| <= limit
      ensures data + Flatten(inbound) == Flatten(old(inbound))
      ensures |inbound| < old(|inbound|) || (|inbound| == old(|inbound|) && |data| == limit)
    {
      var segment := inbound[0];
      if |segment| <= limit {
        data := segment;
        inbound := inbound[1..];
      } else {
        data := segment[..limit];
        inbound := [segment[limit..]] + inbound[1..];
        assert segment == segment[..limit] + segment[limit..];
        Associative(data, segment[limit..], Flatten(old(inbound)[1..]));
      }
    }

    method Write(data: seq<byte>) returns (n: nat, ok: bool)
      modifies this`outbound, this`accepts
      ensures n <= |data| && outbound == old(outbound) + data[..n]
      ensures ok == (old(accepts) != [])
      ensures if ok then n == Min(old(accepts)[0], |data|) && accepts == old(accepts)[1..]
              else n == 0 && accepts == old(accepts)
    {
      if accepts == [] {
        return 0, false;
      }
      n := Min(accepts[0], |data|);
      outbound := outbound + data[..n];
      accepts := accepts[1..];
      ok := true;
    }
  }

  // Fills a buffer of n bytes, over as many reads as it takes.
  method ReadFull(conn: Conn, n: nat) returns (data: seq<byte>, ok: bool)
    modifies conn`inbound
    ensures var s := Flatten(old(conn.inbound));
      && ok == (|s| >= n)
      && data == (if ok then s[..n] else s)
      && Flatten(conn.inbound) == (if ok then s[n..] else [])
  {
    ghost var s := Flatten(conn.inbound);
    data := [];
    while |data| < n && conn.inbound != []
      invariant |data| <= n
      invariant data + Flatten(conn.inbound) == s
      decreases |conn.inbound| + n - |data|
    {
      ghost var before := Flatten(conn.inbound);
      var more := conn.Read(n - |data|);
      Associative(data, more, Flatten(conn.inbound));
      data := data + more;
    }
    ok := |data| >= n;
  }

  // How many bytes the writes to come would take in all.
  function Total(accepts: seq<nat>): nat {
    if accepts == [] then 0 else accepts[0] + Total(accepts[1..])
  }

  // The writes left after n bytes have been written, as far as they go.
  function Left(accepts: seq<nat>, n: nat): seq<nat> {
    if n == 0 || accepts == [] then accepts else Left(accepts[1..], n - Min(accepts[0], n))
  }

  // The loop that retries short writes.  It succeeds exactly when the writes to
  // come take all of data; otherwise it has written what they take.
  method WriteAll(conn: Conn, data: seq<byte>) returns (ok: bool)
    modifies conn`outbound, conn`accepts
    ensures ok <==> Total(old(conn.accepts)) >= |data|
    ensures conn.outbound == old(conn.outbound) + data[..Min(Total(old(conn.accepts)), |data|)]
    ensures conn.accepts == Left(old(conn.accepts), |data|)
  {
    var rest := data;
    while |rest| > 0
      invariant |rest| <= |data| && rest == data[|data| - |rest|..]
      invariant conn.outbound == old(conn.outbound) + data[..|data| - |rest|]
      invariant Min(Total(old(conn.accepts)), |data|) == |data| - |rest| + Min(Total(conn.accepts), |rest|)
      invariant Left(old(conn.accepts), |data|) == Left(conn.accepts, |rest|)
      decreases |conn.accepts|
    {
      ghost var done := |data| - |rest|;
      ghost var before := conn.outbound;
      var n, wrote := conn.Write(rest);
      if !wrote {
        assert data[..done] + [] == data[..done];
        return false;
      }
      assert data[..done] + rest[..n] == data[..done + n];
      Associative(old(conn.outbound), data[..done], rest[..n]);
      assert rest[n..] == data[done + n..];
      rest := rest[n..];
    }
    ok := true;
  }

  // Every write to come takes a frame whole, as io.Writer promises of a write
  // that reports no error.
  predicate Whole(accepts: seq<nat>) {
    forall i :: 0 <= i < |accepts| ==> accepts[i] >= PACKAGE_SIZE_EX
  }

  lemma WholeWrites(accepts: seq<nat>, n: nat)
    requires Whole(accepts) && 0 < n <= PACKAGE_SIZE_EX
    ensures Total(accepts) >= n <==> accepts != []
    ensures accepts != [] ==> Left(accepts, n) == accepts[1..] && Whole(accepts[1..])
    ensures accepts == [] ==> Left(accepts, n) == []
  {
    if accepts != [] {
      assert accepts[0] >= PACKAGE_SIZE_EX;
      assert Left(accepts[1..], 0) == accepts[1..];
    }
  }

  datatype SendError = MarshalFailed(error: Error) | WriteFailed

  // The fields Client.Send fills in before marshalling.
  function Stamped(p: Packet, machineID: uint32, machineName: seq<byte>): Packet {
    p.(header := if p.header.src == 0 then p.header.(src := machineID) else p.header,
       name := if p.name == [] then machineName else p.name)
  }

  // Whether the handshake loop comes to its end on this stream: the packets that
  // finish it are received, and there is a write for every answer.
  ghost predicate Concludes(c: BlockCipher, magic: uint32, me: Identity, chain: Block, stream: seq<byte>, writes: nat) {
    exists ps :: Channel.Brings(c, magic, chain, stream, ps)
                 && Finished(Heed(me, ps)) && StillReading(me, ps) && writes >= |Replies(me, ps)|
  }

  lemma {:induction false} RepliesGrow(me: Identity, ps: seq<Packet>, n: nat)
    requires n <= |ps|
    ensures |Replies(me, ps[..n])| <= |Replies(me, ps)|
    decreases |ps|
  {
    if n == |ps| {
      assert ps[..n] == ps;
    } else {
      RepliesGrow(me, ps[..|ps| - 1], n);
      assert ps[..|ps| - 1][..n] == ps[..n];
    }
  }

  lemma UnfinishedBefore(me: Identity, ps: seq<Packet>, seen: seq<Packet>)
    requires StillReading(me, seen)
    ensures ps <= seen && (|ps| < |seen| || !Finished(Heed(me, seen))) ==> !Finished(Heed(me, ps))
  {
    assert seen[..|seen|] == seen;
    assert ps <= seen ==> ps == seen[..|ps|];
  }

  // Nothing received, nothing concluded.
  lemma ReadFailureIsFinal(c: BlockCipher, magic: uint32, me: Identity, chain: Block, stream: seq<byte>, writes: nat,
                           seen: seq<Packet>, log: Channel.ReadLog)
    requires log == Channel.ReadPackets(c, magic, chain, stream, |seen|) && log.outcomes == Channel.AllReceived(seen)
    requires StillReading(me, seen) && !Finished(Heed(me, seen))
    requires !Channel.ReadPacket(c, magic, log.chain, log.rest).outcome.Received?
    ensures !Concludes(c, magic, me, chain, stream, writes)
  {
    forall ps | Channel.Brings(c, magic, chain, stream, ps)
      ensures !Finished(Heed(me, ps))
    {
      Channel.ReceivedAgree(c, magic, chain, stream, seen, ps);
      if |seen| < |ps| {
        Channel.ReceivedNext(c, magic, chain, stream, |seen|, log, ps);
      }
      UnfinishedBefore(me, ps, seen);
    }
  }

  // An answer without a write, nothing concluded.
  lemma WriteFailureIsFinal(c: BlockCipher, magic: uint32, me: Identity, chain: Block, stream: seq<byte>,
        writes: nat, seen: seq<Packet>)
    requires Channel.Brings(c, magic, chain, stream, seen) && StillReading(me, seen) && |Replies(me, seen)| > writes
    ensures !Concludes(c, magic, me, chain, stream, writes)
  {
    forall ps | Channel.Brings(c, magic, chain, stream, ps)
      ensures !Finished(Heed(me, ps)) || |Replies(me, ps)| > writes
    {
      Channel.ReceivedAgree(c, magic, chain, stream, seen, ps);
      UnfinishedBefore(me, ps, seen);
      if |ps| >= |seen| {
        RepliesGrow(me, ps, |seen|);
        assert ps[..|seen|] == seen;
      }
    }
  }

  // ---- What a peer running this code sends ---------------------------------

  // Its handshake packets up to the first answer.
  function Opening(me: Identity, you: Identity): (ps: seq<Packet>)
    ensures |ps| == 11
  {
    Greetings(you, GREETINGS) + [Ack(you, NormalForm(Hello(me)))]
  }

  lemma OpeningSendable(me: Identity, you: Identity)
    ensures Channel.AllSendable(Opening(me, you))
  {
  }

  // A primer, those packets encrypted after it, and whatever comes next.
  ghost predicate FromPeer(c: BlockCipher, magic: uint32, me: Identity, you: Identity, stream: seq<byte>) {
    OpeningSendable(me, you);
    exists sender: Block, primer: Block, tail: seq<byte> ::
      stream == Channel.PrimedWire(c, sender, primer, Channel.PlainOf(Opening(me, you), magic)) + tail
  }

  // What is received of them.
  function Heard(me: Identity, you: Identity): (ps: seq<Packet>)
    ensures |ps| == 11
  {
    seq(11, i requires 0 <= i < 11 => NormalForm(Opening(me, you)[i]))
  }

  lemma PeerArrives(c: BlockCipher, magic: uint32, me: Identity, you: Identity, stream: seq<byte>)
    requires Inverts(c) && FromPeer(c, magic, me, you, stream)
    ensures |stream| >= BLOCK_SIZE
    ensures Channel.ReadPackets(c, magic, stream[..16], stream[16..], 11).outcomes == Channel.AllReceived(Heard(me, you))
  {
    OpeningSendable(me, you);
    var ps := Opening(me, you);
    var plain := Channel.PlainOf(ps, magic);
    var sender: Block, primer: Block, tail: seq<byte> :| stream == Channel.PrimedWire(c, sender, primer, plain) + tail;
    Channel.PrimedCut(c, sender, primer, plain, tail);
    Channel.ReadsAllPackets(c, magic, CbcEncrypt(c, sender, primer), ps, tail);
    assert Channel.NormalForms(ps) == Channel.AllReceived(Heard(me, you));
  }

  // The loop is finished by the eleventh of them and not before.
  lemma HeardFinishes(me: Identity, you: Identity, n: nat)
    requires n <= 11
    ensures Heed(me, Heard(me, you)[..n]) == Progress(n == 11, n > 0, if n > 0 then you.id else 0)
  {
    var ps := Heard(me, you);
    if n > 0 {
      HeardFinishes(me, you, n - 1);
      assert ps[..n][..n - 1] == ps[..n - 1] && ps[..n][n - 1] == ps[n - 1];
      if n < 11 {
        HandshakeProofs.HelloArrives(Peer(you, true));
      } else {
        HandshakeProofs.AckArrives(Peer(me, true), Peer(you, true));
      }
    }
  }

  lemma HeardIsRead(me: Identity, you: Identity)
    ensures StillReading(me, Heard(me, you)) && Finished(Heed(me, Heard(me, you)))
  {
    var ps := Heard(me, you);
    forall n | 0 <= n <= 11
      ensures Finished(Heed(me, ps[..n])) <==> n == 11
    {
      HeardFinishes(me, you, n);
    }
    assert ps[..11] == ps;
  }

  lemma PeerHeard(c: BlockCipher, magic: uint32, me: Identity, you: Identity, stream: seq<byte>, seen: seq<Packet>)
    requires Inverts(c) && FromPeer(c, magic, me, you, stream) && |stream| >= BLOCK_SIZE
    requires Channel.ReadPackets(c, magic, stream[..16], stream[16..], |seen|).outcomes == Channel.AllReceived(seen)
    requires Finished(Heed(me, seen)) && StillReading(me, seen)
    ensures |seen| == 11 && Heed(me, seen).remote == you.id
  {
    PeerArrives(c, magic, me, you, stream);
    var ps := Heard(me, you);
    Channel.ReceivedAgree(c, magic, stream[..16], stream[16..], seen, ps);
    HeardIsRead(me, you);
    UnfinishedBefore(me, seen, ps);
    UnfinishedBefore(me, ps, seen);
    HeardFinishes(me, you, 11);
    assert ps[..11] == ps;
  }

  lemma {:induction false} AtMostOneEach(me: Identity, ps: seq<Packet>)
    ensures |Replies(me, ps)| <= |ps|
  {
    if ps == [] {
    } else {
      AtMostOneEach(me, ps[..|ps| - 1]);
    }
  }

  // So the loop comes to its end on a peer's stream, with ten answers.
  lemma PeerConcludes(c: BlockCipher, magic: uint32, me: Identity, you: Identity, stream: seq<byte>, writes: nat)
    requires Inverts(c) && FromPeer(c, magic, me, you, stream) && writes >= 10
    ensures |stream| >= BLOCK_SIZE && Concludes(c, magic, me, stream[..16], stream[16..], writes)
  {
    PeerArrives(c, magic, me, you, stream);
    var ps := Heard(me, you);
    HeardIsRead(me, you);
    HandshakeProofs.AckArrives(Peer(me, true), Peer(you, true));
    AtMostOneEach(me, ps[..10]);
    assert Channel.Brings(c, magic, stream[..16], stream[16..], ps);
  }

  class Client {
    const conn: Conn
    const cipher: StreamCipher
    const magic: uint32
    const machineID: uint32
    const machineName: seq<byte>
    var connected: bool

    constructor (conn: Conn, cipher: StreamCipher, magic: uint32, machineID: uint32, machineName: seq<byte>)
      ensures this.conn == conn && this.cipher == cipher && this.magic == magic
      ensures this.machineID == machineID && this.machineName == machineName && !connected
    {
      this.conn, this.cipher, this.magic := conn, cipher, magic;
      this.machineID, this.machineName, connected := machineID, machineName, false;
    }

    method ReadPacket() returns (outcome: Channel.Outcome)
      modifies conn`inbound, cipher`decChain
      ensures Channel.ReadResult(outcome, cipher.decChain, Flatten(conn.inbound))
              == Channel.ReadPacket(cipher.cipher, magic, old(cipher.decChain), Flatten(old(conn.inbound)))
    {
      ghost var stream := Flatten(conn.inbound);
      var buf, ok := ReadFull(conn, PACKAGE_SIZE);
      if !ok {
        return if |buf| == 0 then Channel.Eof else Channel.Truncated;
      }
      var head := cipher.Decrypt(buf);
      var plain := head.value;
      if IsBigPackage(plain[0]) {
        var buf2, ok2 := ReadFull(conn, PACKAGE_SIZE_EX - PACKAGE_SIZE);
        if !ok2 {
          return Channel.Truncated;
        }
        assert buf2 == stream[32..64];
        var tail := cipher.Decrypt(buf2);
        if tail.Some? {
          plain := plain + tail.value;
        }
      }
      var frame := new byte[|plain|](i requires 0 <= i < |plain| => plain[i]);
      assert frame[..] == plain;
      var parsed := Buffers.Unmarshal(frame, magic);
      outcome := match parsed case Ok(p) => Channel.Received(p) case Err(e) => Channel.Rejected(e);
    }

    // One packet onto the wire, the chain advanced with it.  It succeeds exactly
    // when the packet has its payload and the connection takes the whole frame;
    // if not, the connection is marked dead and the wire holds what was taken.
    method Send(data: Packet) returns (r: Result<(), SendError>)
      modifies conn`outbound, conn`accepts, cipher`encChain, this`connected
      ensures match FrameOf(Stamped(data, machineID, machineName), magic)
        case Err(e) =>
          && r == Err(MarshalFailed(e))
          && conn.outbound == old(conn.outbound) && conn.accepts == old(conn.accepts)
          && cipher.encChain == old(cipher.encChain) && connected == old(connected)
        case Ok(f) =>
          var secret := CbcEncrypt(cipher.cipher, old(cipher.encChain), f);
          var taken := Min(Total(old(conn.accepts)), |f|);
          && r == (if taken == |f| then Ok(()) else Err(WriteFailed))
          && cipher.encChain == Chain(old(cipher.encChain), secret)
          && conn.outbound == old(conn.outbound) + secret[..taken] && conn.accepts == Left(old(conn.accepts), |f|)
          && connected == (old(connected) && r.Ok?)
    {
      var filled := Stamped(data, machineID, machineName);
      var frame := Buffers.Marshal(filled, magic);
      if frame.Err? {
        return Err(MarshalFailed(frame.error));
      }
      var secret := cipher.Encrypt(frame.value);
      var ok := WriteAll(conn, secret);
      if !ok {
        connected := false;
        return Err(WriteFailed);
      }
      r := Ok(());
    }

    function Me(nonces: HandshakeData): Identity {
      Identity(machineID, machineName, nonces)
    }

    // The packets a handshake has read so far, and what the stream was before.
    ghost predicate HasRead(chain: Block, stream: seq<byte>, seen: seq<Packet>)
      reads conn`inbound, cipher`decChain
    {
      Channel.ReadPackets(cipher.cipher, magic, chain, stream, |seen|)
      == Channel.ReadLog(Channel.AllReceived(seen),
                         cipher.decChain, Flatten(conn.inbound))
    }

    ghost predicate HasSent(chain: Block, before: seq<byte>, ps: seq<Packet>)
      reads conn`outbound, cipher`encChain
    {
      && before <= conn.outbound
      && Channel.Sent(cipher.cipher, magic, chain, ps, conn.outbound[|before|..], cipher.encChain)
    }

    // The first loop: ten copies of the greeting, marshalled once.
    method SendGreetings(nonces: HandshakeData) returns (ok: bool)
      requires Whole(conn.accepts)
      modifies conn`outbound, conn`accepts, cipher`encChain
      ensures Whole(conn.accepts)
      ensures ok <==> old(|conn.accepts|) >= GREETINGS
      ensures ok ==> |conn.accepts| == old(|conn.accepts|) - GREETINGS
      ensures ok ==> HasSent(old(cipher.encChain), old(conn.outbound), Greetings(Me(nonces), GREETINGS))
    {
      ghost var chain, before, me := cipher.encChain, conn.outbound, Me(nonces);
      var marshalled := Buffers.Marshal(Hello(Me(nonces)), magic);
      var plain := marshalled.value;
      for i := 0 to GREETINGS
        invariant HasSent(chain, before, Greetings(me, i))
        invariant Whole(conn.accepts) && |conn.accepts| == old(|conn.accepts|) - i && conn.accepts == old(conn.accepts)[i..]
      {
        ghost var wire := conn.outbound;
        Channel.SentSnoc(cipher.cipher, magic, chain, Greetings(me, i), wire[|before|..], cipher.encChain, Hello(me));
        assert Greetings(me, i) + [Hello(me)] == Greetings(me, i + 1);
        var secret := cipher.Encrypt(plain);
        var n, wrote := conn.Write(secret);
        if !wrote {
          return false;
        }
        assert secret[..n] == secret;
        TakeDropAppend(wire, secret, |before|);
      }
      ok := true;
    }

    method SendAck(ack: Packet, ghost chain: Block, ghost before: seq<byte>, ghost sent: seq<Packet>) returns (ok: bool)
      requires HasSent(chain, before, sent)
      requires Channel.Sendable(ack) && Stamped(ack, machineID, machineName) == ack
      requires Whole(conn.accepts)
      modifies conn`outbound, conn`accepts, cipher`encChain, this`connected
      ensures Whole(conn.accepts)
      ensures ok <==> old(conn.accepts) != []
      ensures ok ==> |conn.accepts| == old(|conn.accepts|) - 1 && HasSent(chain, before, sent + [ack])
    {
      ghost var wire := conn.outbound;
      ghost var secret := Channel.SealedFrame(cipher.cipher, magic, cipher.encChain, ack);
      WholeWrites(conn.accepts, |secret|);
      Channel.SentSnoc(cipher.cipher, magic, chain, sent, wire[|before|..], cipher.encChain, ack);
      var r := Send(ack);
      ok := r.Ok?;
      if ok {
        assert secret[..|secret|] == secret;
        assert conn.outbound == wire + secret;
        TakeDropAppend(wire, secret, |before|);
      }
    }

    // One readPacket, with the list of packets read so far extended by it.
    method ReadNext(ghost chain: Block, ghost stream: seq<byte>, ghost seen: seq<Packet>)
        returns (outcome: Channel.Outcome)
      requires HasRead(chain, stream, seen)
      modifies conn`inbound, cipher`decChain
      ensures Channel.ReadResult(outcome, cipher.decChain, Flatten(conn.inbound))
              == Channel.ReadPacket(cipher.cipher, magic, old(cipher.decChain), old(Flatten(conn.inbound)))
      ensures outcome.Received? ==>
        && HasRead(chain, stream, seen + [outcome.packet])
        && |Flatten(conn.inbound)| < old(|Flatten(conn.inbound)|)
    {
      ghost var before := Channel.ReadResult(Channel.Eof, cipher.decChain, Flatten(conn.inbound));
      outcome := ReadPacket();
      if outcome.Received? {
        ghost var after := Channel.ReadResult(outcome, cipher.decChain, Flatten(conn.inbound));
        Channel.ReadOneMore(cipher.cipher, magic, chain, stream, seen, before, after);
      }
    }

    // The switch in the body of the loop: notes what the packet says and answers a
    // greeting.
    method HeedPacket(p: Packet, nonces: HandshakeData, ack: bool, hello: bool, from: uint32,
                      ghost chain: Block, ghost before: seq<byte>, ghost sent: seq<Packet>)
        returns (ok: bool, gotAck: bool, gotHello: bool, remote: uint32)
      requires HasSent(chain, before, sent) && Whole(conn.accepts)
      modifies conn`outbound, conn`accepts, cipher`encChain, this`connected
      ensures Whole(conn.accepts)
      ensures Progress(gotAck, gotHello, remote) == Note(Me(nonces), Progress(ack, hello, from), p)
      ensures var reply := Reply(Me(nonces), p);
        && (ok <==> reply.None? || old(conn.accepts) != [])
        && (ok ==> |conn.accepts| == old(|conn.accepts|) - (if reply.Some? then 1 else 0)
                   && HasSent(chain, before, if reply.Some? then sent + [reply.value] else sent))
    {
      ok, gotAck, gotHello, remote := true, ack, hello, from;
      if p.header.typ == HANDSHAKE {
        remote := p.header.src;
        if p.handshake.Some? {
          gotHello := true;
          ok := SendAck(Ack(Me(nonces), p), chain, before, sent);
        }
      } else if p.header.typ == HANDSHAKE_ACK {
        if p.handshake == Some(Complemented(nonces)) {
          remote := p.header.src;
          gotAck := true;
        }
      }
    }

    // Ten greetings, then reading and answering until both flags are set.  It
    // succeeds exactly when the writes suffice and the stream brings the loop to
    // its end.  The packets read are then those up to the first moment the loop
    // is finished, and the packets written are the greetings and its answers; if
    // the packets give out first, the greetings and answers are written all the same.
    method DoHandshake(nonces: HandshakeData) returns (ok: bool, remote: uint32, ghost seen: seq<Packet>)
      requires Whole(conn.accepts)
      modifies conn`inbound, conn`outbound, conn`accepts, cipher`encChain, cipher`decChain, this`connected
      ensures ok <==> old(|conn.accepts|) >= GREETINGS
                      && Concludes(cipher.cipher, magic, Me(nonces), old(cipher.decChain), old(Flatten(conn.inbound)),
                                   old(|conn.accepts|) - GREETINGS)
      ensures ok ==>
        var me := Me(nonces);
        && connected
        && Finished(Heed(me, seen)) && remote == Heed(me, seen).remote
        && StillReading(me, seen)
        && HasRead(old(cipher.decChain), old(Flatten(conn.inbound)), seen)
        && HasSent(old(cipher.encChain), old(conn.outbound), Greetings(me, GREETINGS) + Replies(me, seen))
      ensures !ok && old(|conn.accepts|) >= GREETINGS + |Replies(Me(nonces), seen)| ==>
        var me := Me(nonces);
        && Channel.Brings(cipher.cipher, magic, old(cipher.decChain), old(Flatten(conn.inbound)), seen)
        && HasSent(old(cipher.encChain), old(conn.outbound), Greetings(me, GREETINGS) + Replies(me, seen))
    {
      ghost var encChain, before := cipher.encChain, conn.outbound;
      ghost var decChain, stream := cipher.decChain, Flatten(conn.inbound);
      ghost var me := Me(nonces);
      seen, remote := [], 0;
      ok := SendGreetings(nonces);
      if !ok {
        return;
      }
      ghost var writes := |conn.accepts|;
      var gotAck, gotHello := false, false;
      ghost var greetings := Greetings(me, GREETINGS);
      assert greetings + [] == greetings;
      while !gotAck || !gotHello
        invariant Heed(me, seen) == Progress(gotAck, gotHello, remote) && StillReading(me, seen)
        invariant HasRead(decChain, stream, seen)
        invariant HasSent(encChain, before, greetings + Replies(me, seen))
        invariant Whole(conn.accepts)
        invariant |conn.accepts| == writes - |Replies(me, seen)|
        decreases |Flatten(conn.inbound)|
      {
        ghost var sent := greetings + Replies(me, seen);
        ghost var log := Channel.ReadLog(Channel.AllReceived(seen), cipher.decChain, Flatten(conn.inbound));
        var outcome := ReadNext(decChain, stream, seen);
        if !outcome.Received? {
          ReadFailureIsFinal(cipher.cipher, magic, me, decChain, stream, writes, seen, log);
          return false, remote, seen;
        }
        var p := outcome.packet;
        OneMorePacket(me, seen, p);
        AppendReply(greetings, Replies(me, seen), Reply(me, p));
        seen := seen + [p];
        ok, gotAck, gotHello, remote := HeedPacket(p, nonces, gotAck, gotHello, remote, encChain, before, sent);
        if !ok {
          WriteFailureIsFinal(cipher.cipher, magic, me, decChain, stream, writes, seen);
          return;
        }
      }
      connected := true;
      ok := true;
    }

    // ---- Opening a connection ----------------------------------------------

    method SendPrimer(drawn: Block) returns (ok: bool)
      requires Whole(conn.accepts)
      modifies conn`outbound, conn`accepts, cipher`encChain
      ensures Whole(conn.accepts)
      ensures ok <==> old(conn.accepts) != []
      ensures ok ==> |conn.accepts| == old(|conn.accepts|) - 1
      ensures cipher.encChain == CbcEncrypt(cipher.cipher, old(cipher.encChain), drawn)
      ensures ok ==> conn.outbound == old(conn.outbound) + cipher.encChain
    {
      var wire := cipher.SendRandomBlock(drawn);
      var n;
      n, ok := conn.Write(wire);
      assert ok ==> wire[..n] == wire;
    }

    method ReceivePrimer() returns (ok: bool)
      modifies conn`inbound, cipher`decChain
      ensures var stream := Flatten(old(conn.inbound));
        && (ok <==> |stream| >= BLOCK_SIZE)
        && (ok ==> cipher.decChain == stream[..16] && Flatten(conn.inbound) == stream[16..])
    {
      var buf;
      buf, ok := ReadFull(conn, BLOCK_SIZE);
      if ok {
        cipher.ReceiveRandomBlock(buf);
      }
    }

    // What a successful opening leaves behind, from the first byte on: our
    // primer and handshake packets are on the wire, theirs are read, and both
    // chains go on from the primers.
    ghost predicate Opened(me: Identity, remote: uint32, seen: seq<Packet>, primer: Block, before: seq<byte>,
          stream: seq<byte>)
      reads this`connected, conn`inbound, conn`outbound, cipher`encChain, cipher`decChain
    {
      && connected
      && Finished(Heed(me, seen)) && remote == Heed(me, seen).remote && StillReading(me, seen)
      && |stream| >= BLOCK_SIZE && HasRead(stream[..16], stream[16..], seen)
      && HasSent(primer, before + primer, Greetings(me, GREETINGS) + Replies(me, seen))
    }

    // The stream and the writes to come let an opening succeed.
    ghost predicate Opens(me: Identity, stream: seq<byte>, writes: nat) {
      && |stream| >= BLOCK_SIZE && writes >= 1 + GREETINGS
      && Concludes(cipher.cipher, magic, me, stream[..16], stream[16..], writes - 1 - GREETINGS)
    }

    // With a peer running this code at the other end, and a write for the primer,
    // the greetings and the ten answers, an opening succeeds, after exactly
    // eleven packets, and names that peer.
    ghost predicate MeetsPeer(me: Identity, stream: seq<byte>, writes: nat, ok: bool, remote: uint32, seen: seq<Packet>) {
      Inverts(cipher.cipher) && writes >= 21 ==>
        forall you: Identity :: FromPeer(cipher.cipher, magic, me, you, stream) ==> ok && |seen| == 11 && remote == you.id
    }

    lemma OpeningMeetsPeer(me: Identity, stream: seq<byte>, writes: nat, ok: bool, remote: uint32, seen: seq<Packet>,
                           primer: Block, before: seq<byte>)
      requires ok <==> Opens(me, stream, writes)
      requires ok ==> Opened(me, remote, seen, primer, before, stream)
      ensures MeetsPeer(me, stream, writes, ok, remote, seen)
    {
      if Inverts(cipher.cipher) && writes >= 21 {
        forall you: Identity | FromPeer(cipher.cipher, magic, me, you, stream)
          ensures ok && |seen| == 11 && remote == you.id
        {
          PeerConcludes(cipher.cipher, magic, me, you, stream, writes - 11);
          PeerHeard(cipher.cipher, magic, me, you, stream, seen);
        }
      }
    }

    // The side that dials: its primer goes first, whatever comes.
    method Connect(drawn: Block, nonces: HandshakeData) returns (ok: bool, remote: uint32, ghost seen: seq<Packet>)
      requires Whole(conn.accepts)
      modifies conn`inbound, conn`outbound, conn`accepts, cipher`encChain, cipher`decChain, this`connected
      ensures ok <==> Opens(Me(nonces), old(Flatten(conn.inbound)), old(|conn.accepts|))
      ensures ok ==> Opened(Me(nonces), remote, seen, CbcEncrypt(cipher.cipher, old(cipher.encChain), drawn),
                            old(conn.outbound), old(Flatten(conn.inbound)))
      ensures MeetsPeer(Me(nonces), old(Flatten(conn.inbound)), old(|conn.accepts|), ok, remote, seen)
      ensures old(conn.accepts) != [] && |Flatten(old(conn.inbound))| < BLOCK_SIZE ==>
        conn.outbound == old(conn.outbound) + CbcEncrypt(cipher.cipher, old(cipher.encChain), drawn)
    {
      ghost var stream, writes, before := Flatten(conn.inbound), |conn.accepts|, conn.outbound;
      ghost var primer := CbcEncrypt(cipher.cipher, cipher.encChain, drawn);
      seen, remote := [], 0;
      ok := SendPrimer(drawn);
      if ok {
        ok := ReceivePrimer();
        if ok {
          ok, remote, seen := DoHandshake(nonces);
        }
      }
      OpeningMeetsPeer(Me(nonces), stream, writes, ok, remote, seen, primer, before);
    }

    // The side that listens, for one incoming connection: the other way round.
    method Accept(drawn: Block, nonces: HandshakeData) returns (ok: bool, remote: uint32, ghost seen: seq<Packet>)
      requires Whole(conn.accepts)
      modifies conn`inbound, conn`outbound, conn`accepts, cipher`encChain, cipher`decChain, this`connected
      ensures ok <==> Opens(Me(nonces), old(Flatten(conn.inbound)), old(|conn.accepts|))
      ensures ok ==> Opened(Me(nonces), remote, seen, CbcEncrypt(cipher.cipher, old(cipher.encChain), drawn),
                            old(conn.outbound), old(Flatten(conn.inbound)))
      ensures MeetsPeer(Me(nonces), old(Flatten(conn.inbound)), old(|conn.accepts|), ok, remote, seen)
      ensures |Flatten(old(conn.inbound))| < BLOCK_SIZE ==> conn.outbound == old(conn.outbound)
    {
      ghost var stream, writes, before := Flatten(conn.inbound), |conn.accepts|, conn.outbound;
      ghost var primer := CbcEncrypt(cipher.cipher, cipher.encChain, drawn);
      seen, remote := [], 0;
      ok := ReceivePrimer();
      if ok {
        ok := SendPrimer(drawn);
        if ok {
          ok, remote, seen := DoHandshake(nonces);
        }
      }
      OpeningMeetsPeer(Me(nonces), stream, writes, ok, remote, seen, primer, before);
    }
  }

  lemma AppendReply(greetings: seq<Packet>, replies: seq<Packet>, reply: Option<Packet>)
    ensures reply.Some? ==> greetings + (replies + [reply.value]) == (greetings + replies) + [reply.value]
    ensures greetings + (replies + []) == greetings + replies
  {
  }
}
