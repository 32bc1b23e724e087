/** Reading and writing packets over an encrypted byte stream: the wire format
    as functions, and why reading inverts writing. */
module Channel {
  import opened Wrappers
  import opened Bytes
  import opened Protocol
  import opened ProtocolProofs
  import opened Cipher

  datatype Outcome = Received(packet: Packet) | Rejected(error: Error) | Eof | Truncated

  // What one call of readPacket returns and leaves behind.
  datatype ReadResult = ReadResult(outcome: Outcome, chain: Block, rest: seq<byte>)

  function Judge(frame: seq<byte>, magic: uint32): Outcome {
    match ParseFrame(frame, magic)
    case Ok(p) => Received(p)
    case Err(e) => Rejected(e)
  }

  // readPacket on a stream that closes after its last byte: 32 bytes are
  // decrypted first, and their first byte says whether 32 more belong to them.
  function ReadPacket(c: BlockCipher, magic: uint32, chain: Block, stream: seq<byte>): ReadResult {
    if stream == [] then ReadResult(Eof, chain, [])
    else if |stream| < PACKAGE_SIZE then ReadResult(Truncated, chain, [])
    else
      var head := CbcDecrypt(c, chain, stream[..32]);
      var chain' := Chain(chain, stream[..32]);
      if !IsBigPackage(head[0]) then ReadResult(Judge(head, magic), chain', stream[32..])
      else if |stream| < PACKAGE_SIZE_EX then ReadResult(Truncated, chain', [])
      else
        var tail := CbcDecrypt(c, chain', stream[32..64]);
        ReadResult(Judge(head + tail, magic), Chain(chain', stream[32..64]), stream[64..])
  }

  // ---- Many readings -------------------------------------------------------

  datatype ReadLog = ReadLog(outcomes: seq<Outcome>, chain: Block, rest: seq<byte>)

  /** A way of reading one packet; what follows about many readings holds of any. */
  type Reader = (Block, seq<byte>) -> ReadResult

  function ReadMany(read: Reader, chain: Block, stream: seq<byte>, n: nat): ReadLog
    decreases n
  {
    if n == 0 then ReadLog([], chain, stream)
    else
      var first := read(chain, stream);
      var later := ReadMany(read, first.chain, first.rest, n - 1);
      ReadLog([first.outcome] + later.outcomes, later.chain, later.rest)
  }

  lemma {:induction false} ManySnoc(read: Reader, chain: Block, stream: seq<byte>, n: nat)
    ensures var log := ReadMany(read, chain, stream, n);
      var last := read(log.chain, log.rest);
      ReadMany(read, chain, stream, n + 1) == ReadLog(log.outcomes + [last.outcome], last.chain, last.rest)
    decreases n
  {
    var first := read(chain, stream);
    if n > 0 {
      ManySnoc(read, first.chain, first.rest, n - 1);
      var later := ReadMany(read, first.chain, first.rest, n - 1);
      Associative([first.outcome], later.outcomes, [read(later.chain, later.rest).outcome]);
    } else {
      assert [first.outcome] + [] == [first.outcome] == [] + [first.outcome];
    }
  }

  function AllReceived(ps: seq<Packet>): seq<Outcome> {
    seq(|ps|, i requires 0 <= i < |ps| => Received(ps[i]))
  }

  // These are the first packets of the stream, none of them rejected.
  ghost predicate ManyBring(read: Reader, chain: Block, stream: seq<byte>, ps: seq<Packet>) {
    ReadMany(read, chain, stream, |ps|).outcomes == AllReceived(ps)
  }

  lemma SplitReceived(first: Outcome, later: seq<Outcome>, ps: seq<Packet>)
    requires ps != [] && [first] + later == AllReceived(ps)
    ensures first == Received(ps[0]) && later == AllReceived(ps[1..])
  {
    assert first == ([first] + later)[0];
    assert forall i :: 0 <= i < |later| ==> later[i] == ([first] + later)[i + 1];
  }

  lemma ManyBringFirst(read: Reader, chain: Block, stream: seq<byte>, ps: seq<Packet>)
    requires ps != [] && ManyBring(read, chain, stream, ps)
    ensures var r := read(chain, stream);
      r.outcome == Received(ps[0]) && ManyBring(read, r.chain, r.rest, ps[1..])
  {
    var r := read(chain, stream);
    SplitReceived(r.outcome, ReadMany(read, r.chain, r.rest, |ps| - 1).outcomes, ps);
  }

  // What was received first is received however many calls follow.
  lemma {:induction false} ManyAgree(read: Reader, chain: Block, stream: seq<byte>, ps: seq<Packet>, qs: seq<Packet>)
    requires ManyBring(read, chain, stream, ps) && ManyBring(read, chain, stream, qs)
    ensures |ps| <= |qs| ==> ps <= qs
    ensures |qs| <= |ps| ==> qs <= ps
    decreases |ps|
  {
    if ps != [] && qs != [] {
      var r := read(chain, stream);
      ManyBringFirst(read, chain, stream, ps);
      ManyBringFirst(read, chain, stream, qs);
      ManyAgree(read, r.chain, r.rest, ps[1..], qs[1..]);
      PrefixCons(ps, qs);
    }
  }

  lemma PrefixCons<T>(a: seq<T>, b: seq<T>)
    requires a != [] && b != [] && a[0] == b[0]
    ensures a[1..] <= b[1..] ==> a <= b
    ensures b[1..] <= a[1..] ==> b <= a
  {
    assert a == [a[0]] + a[1..] && b == [b[0]] + b[1..];
  }

  // The call after n packets received brings the next of a longer list.
  lemma {:induction false} ManyNext(read: Reader, chain: Block, stream: seq<byte>, n: nat, ps: seq<Packet>)
    requires ManyBring(read, chain, stream, ps) && n < |ps|
    ensures var log := ReadMany(read, chain, stream, n);
      read(log.chain, log.rest).outcome == Received(ps[n])
    decreases n
  {
    ManyBringFirst(read, chain, stream, ps);
    if n > 0 {
      var r := read(chain, stream);
      ManyNext(read, r.chain, r.rest, n - 1, ps[1..]);
    }
  }

  // ---- Many packets --------------------------------------------------------

  function PacketReader(c: BlockCipher, magic: uint32): Reader {
    (chain: Block, stream: seq<byte>) => ReadPacket(c, magic, chain, stream)
  }

  // n successive calls of readPacket.
  function ReadPackets(c: BlockCipher, magic: uint32, chain: Block, stream: seq<byte>, n: nat): ReadLog {
    ReadMany(PacketReader(c, magic), chain, stream, n)
  }

  ghost predicate Brings(c: BlockCipher, magic: uint32, chain: Block, stream: seq<byte>, ps: seq<Packet>) {
    ManyBring(PacketReader(c, magic), chain, stream, ps)
  }

  lemma ReceivedAgree(c: BlockCipher, magic: uint32, chain: Block, stream: seq<byte>, ps: seq<Packet>, qs: seq<Packet>)
    requires Brings(c, magic, chain, stream, ps) && Brings(c, magic, chain, stream, qs)
    ensures |ps| <= |qs| ==> ps <= qs
    ensures |qs| <= |ps| ==> qs <= ps
  {
    ManyAgree(PacketReader(c, magic), chain, stream, ps, qs);
  }

  lemma ReceivedNext(c: BlockCipher, magic: uint32, chain: Block, stream: seq<byte>, n: nat, log: ReadLog,
        ps: seq<Packet>)
    requires Brings(c, magic, chain, stream, ps) && n < |ps|
    requires log == ReadPackets(c, magic, chain, stream, n)
    ensures ReadPacket(c, magic, log.chain, log.rest).outcome == Received(ps[n])
  {
    ManyNext(PacketReader(c, magic), chain, stream, n, ps);
  }

  lemma ReadPacketsSnoc(c: BlockCipher, magic: uint32, chain: Block, stream: seq<byte>, n: nat)
    ensures var log := ReadPackets(c, magic, chain, stream, n);
      var last := ReadPacket(c, magic, log.chain, log.rest);
      ReadPackets(c, magic, chain, stream, n + 1) == ReadLog(log.outcomes + [last.outcome], last.chain, last.rest)
  {
    ManySnoc(PacketReader(c, magic), chain, stream, n);
  }

  // One frame, however long, is read back whole; what follows it is untouched
  // and the reader's chain is the writer's.
  lemma ReadsOneFrame(c: BlockCipher, magic: uint32, iv: Block, f: seq<byte>, tail: seq<byte>)
    requires Inverts(c) && SelfFraming(f)
    ensures var secret := CbcEncrypt(c, iv, f);
      ReadPacket(c, magic, iv, secret + tail) == ReadResult(Judge(f, magic), Chain(iv, secret), tail)
  {
    var secret := CbcEncrypt(c, iv, f);
    if |f| == PACKAGE_SIZE {
      TakeDropAppend(secret, tail, 32);
      assert secret[..32] == secret;
      DecryptInverts(c, iv, f);
    } else {
      BigFrameInHalves(c, iv, f);
      TakeDropAppend(secret, tail, 32);
      TakeDropAppend(secret, tail, 64);
      assert (secret + tail)[32..64] == secret[32..];
      assert f[..32] + f[32..] == f;
    }
  }

  // A 64-byte frame is encrypted in one call but decrypted in two.
  lemma BigFrameInHalves(c: BlockCipher, iv: Block, f: seq<byte>)
    requires Inverts(c) && |f| == PACKAGE_SIZE_EX
    ensures var secret := CbcEncrypt(c, iv, f);
      var middle := Chain(iv, secret[..32]);
      && CbcDecrypt(c, iv, secret[..32]) == f[..32]
      && CbcDecrypt(c, middle, secret[32..]) == f[32..]
      && Chain(middle, secret[32..]) == Chain(iv, secret)
  {
    var secret := CbcEncrypt(c, iv, f);
    assert f[..32] + f[32..] == f;
    EncryptAppend(c, iv, f[..32], f[32..]);
    var first := CbcEncrypt(c, iv, f[..32]);
    var second := CbcEncrypt(c, Chain(iv, first), f[32..]);
    assert secret == first + second;
    assert secret[..32] == first && secret[32..] == second;
    DecryptInverts(c, iv, f[..32]);
    DecryptInverts(c, Chain(iv, first), f[32..]);
    ChainAppend(iv, first, second);
  }

  ghost predicate AllSelfFraming(fs: seq<seq<byte>>) {
    forall i :: 0 <= i < |fs| ==> SelfFraming(fs[i])
  }

  lemma {:induction false} FramesAligned(fs: seq<seq<byte>>)
    requires AllSelfFraming(fs)
    ensures Aligned(Flatten(fs))
  {
    if fs == [] {
    } else {
      FramesAligned(fs[1..]);
    }
  }

  function Judgements(fs: seq<seq<byte>>, magic: uint32): seq<Outcome> {
    seq(|fs|, i requires 0 <= i < |fs| => Judge(fs[i], magic))
  }

  lemma JudgementsCons(fs: seq<seq<byte>>, magic: uint32)
    requires fs != []
    ensures Judgements(fs, magic) == [Judge(fs[0], magic)] + Judgements(fs[1..], magic)
  {
  }

  lemma ReadFirst(c: BlockCipher, magic: uint32, chain: Block, stream: seq<byte>, n: nat, first: ReadResult,
        later: ReadLog)
    requires n > 0 && PacketReader(c, magic)(chain, stream) == first
    requires ReadPackets(c, magic, first.chain, first.rest, n - 1) == later
    ensures ReadPackets(c, magic, chain, stream, n) == ReadLog([first.outcome] + later.outcomes, later.chain, later.rest)
  {
  }

  lemma ReadThen(c: BlockCipher, magic: uint32, chain: Block, first: seq<byte>, later: seq<byte>,
        tail: seq<byte>, n: nat, r: ReadResult, log: ReadLog)
    requires PacketReader(c, magic)(chain, first + (later + tail)) == r
    requires ReadPackets(c, magic, r.chain, r.rest, n) == log
    ensures ReadPackets(c, magic, chain, (first + later) + tail, n + 1)
      == ReadLog([r.outcome] + log.outcomes, log.chain, log.rest)
  {
    Associative(first, later, tail);
    ReadFirst(c, magic, chain, first + (later + tail), n + 1, r, log);
  }

  lemma ReaderReadsFrame(c: BlockCipher, magic: uint32, iv: Block, f: seq<byte>, tail: seq<byte>)
    requires Inverts(c) && SelfFraming(f)
    ensures var secret := CbcEncrypt(c, iv, f);
      PacketReader(c, magic)(iv, secret + tail) == ReadResult(Judge(f, magic), Chain(iv, secret), tail)
  {
    ReadsOneFrame(c, magic, iv, f, tail);
  }

  // The stream theorem.  For every list of frames, good or bad, encrypted as
  // one stream, as many readPacket calls return exactly each frame's verdict in
  // order; the chains agree at every frame boundary, because the statement
  // holds of every prefix of the list (the later frames are the tail).
  lemma {:induction false} ReadsAllFrames(c: BlockCipher, magic: uint32, iv: Block, fs: seq<seq<byte>>, tail: seq<byte>)
    requires Inverts(c) && AllSelfFraming(fs)
    ensures Aligned(Flatten(fs))
    ensures var secret := CbcEncrypt(c, iv, Flatten(fs));
      ReadPackets(c, magic, iv, secret + tail, |fs|) == ReadLog(Judgements(fs, magic), Chain(iv, secret), tail)
    decreases |fs|
  {
    FramesAligned(fs);
    if fs == [] {
      assert [] + tail == tail;
    } else {
      var first := CbcEncrypt(c, iv, fs[0]);
      var chain := Chain(iv, first);
      FramesAligned(fs[1..]);
      var later := CbcEncrypt(c, chain, Flatten(fs[1..]));
      EncryptAppend(c, iv, fs[0], Flatten(fs[1..]));
      ReadsAllFrames(c, magic, chain, fs[1..], tail);
      ReaderReadsFrame(c, magic, iv, fs[0], later + tail);
      ReadThen(c, magic, iv, first, later, tail, |fs| - 1, ReadResult(Judge(fs[0], magic), chain, later + tail),
               ReadLog(Judgements(fs[1..], magic), Chain(chain, later), tail));
      ChainAppend(iv, first, later);
      JudgementsCons(fs, magic);
    }
  }

  // Exactly as many calls as there are frames bring a frame, and the next reports
  // the end of the stream.
  lemma ReadsExactly(c: BlockCipher, magic: uint32, iv: Block, fs: seq<seq<byte>>)
    requires Inverts(c) && AllSelfFraming(fs)
    ensures Aligned(Flatten(fs))
    ensures var secret := CbcEncrypt(c, iv, Flatten(fs));
      && ReadPackets(c, magic, iv, secret, |fs|) == ReadLog(Judgements(fs, magic), Chain(iv, secret), [])
      && ReadPackets(c, magic, iv, secret, |fs| + 1).outcomes == Judgements(fs, magic) + [Eof]
  {
    ReadsAllFrames(c, magic, iv, fs, []);
    var secret := CbcEncrypt(c, iv, Flatten(fs));
    assert secret + [] == secret;
    ThenOutcome(c, magic, iv, secret, |fs|, ReadLog(Judgements(fs, magic), Chain(iv, secret), []), Eof);
  }

  // Part of a frame: nothing at all is the end of the stream, anything else is not.
  lemma PartOfFrame(c: BlockCipher, magic: uint32, iv: Block, f: seq<byte>, n: nat)
    requires Inverts(c) && SelfFraming(f) && n < |f|
    ensures ReadPacket(c, magic, iv, CbcEncrypt(c, iv, f)[..n]).outcome == if n == 0 then Eof else Truncated
  {
    var secret := CbcEncrypt(c, iv, f);
    if n >= PACKAGE_SIZE {
      BigFrameInHalves(c, iv, f);
      assert secret[..n][..32] == secret[..32];
      assert f[..32][0] == f[0];
    }
  }

  lemma ThenOutcome(c: BlockCipher, magic: uint32, chain: Block, stream: seq<byte>, n: nat, log: ReadLog, last: Outcome)
    requires ReadPackets(c, magic, chain, stream, n) == log
    requires ReadPacket(c, magic, log.chain, log.rest).outcome == last
    ensures ReadPackets(c, magic, chain, stream, n + 1).outcomes == log.outcomes + [last]
  {
    ReadPacketsSnoc(c, magic, chain, stream, n);
  }

  lemma ThenPart(c: BlockCipher, magic: uint32, chain: Block, stream: seq<byte>, n: nat, log: ReadLog, f: seq<byte>)
    requires Inverts(c) && SelfFraming(f) && ReadPackets(c, magic, chain, stream, n) == log
    requires log.rest < CbcEncrypt(c, log.chain, f)
    ensures ReadPackets(c, magic, chain, stream, n + 1).outcomes
      == log.outcomes + [if log.rest == [] then Eof else Truncated]
  {
    PartOfFrame(c, magic, log.chain, f, |log.rest|);
    assert CbcEncrypt(c, log.chain, f)[..|log.rest|] == log.rest;
    ThenOutcome(c, magic, chain, stream, n, log, if log.rest == [] then Eof else Truncated);
  }

  // A stream that breaks off anywhere in a later frame: the whole frames before it
  // are judged, and the end is reported as clean exactly at a frame's boundary.
  lemma EndsCleanlyIff(c: BlockCipher, magic: uint32, iv: Block, fs: seq<seq<byte>>, f: seq<byte>,
        secret: seq<byte>, part: seq<byte>)
    requires Inverts(c) && AllSelfFraming(fs) && SelfFraming(f)
    requires Aligned(Flatten(fs)) && secret == CbcEncrypt(c, iv, Flatten(fs))
    requires part < CbcEncrypt(c, Chain(iv, secret), f)
    ensures ReadPackets(c, magic, iv, secret + part, |fs| + 1).outcomes
      == Judgements(fs, magic) + [if part == [] then Eof else Truncated]
  {
    ReadsAllFrames(c, magic, iv, fs, part);
    ThenPart(c, magic, iv, secret + part, |fs|, ReadLog(Judgements(fs, magic), Chain(iv, secret), part), f);
  }

  // ---- Packets -------------------------------------------------------------

  predicate Sendable(p: Packet) {
    Missing(p).None? && p.header.typ < 0x100
  }

  ghost predicate AllSendable(ps: seq<Packet>) {
    forall i :: 0 <= i < |ps| ==> Sendable(ps[i])
  }

  lemma AllSendableSnoc(ps: seq<Packet>, p: Packet)
    requires AllSendable(ps) && Sendable(p)
    ensures AllSendable(ps + [p])
  {
  }

  // One frame as it goes onto the wire.
  function SealedFrame(c: BlockCipher, magic: uint32, chain: Block, p: Packet): (secret: seq<byte>)
    requires Missing(p).None?
    ensures Aligned(secret) && |secret| == FrameSize(p.header.typ)
  {
    CbcEncrypt(c, chain, Frame(p, magic))
  }

  function FramesOf(ps: seq<Packet>, magic: uint32): (fs: seq<seq<byte>>)
    requires AllSendable(ps)
    ensures |fs| == |ps|
  {
    seq(|ps|, i requires 0 <= i < |ps| && Sendable(ps[i]) => Frame(ps[i], magic))
  }

  function NormalForms(ps: seq<Packet>): seq<Outcome> {
    seq(|ps|, i requires 0 <= i < |ps| => Received(NormalForm(ps[i])))
  }

  lemma FramesJudged(ps: seq<Packet>, magic: uint32)
    requires AllSendable(ps)
    ensures AllSelfFraming(FramesOf(ps, magic))
    ensures Judgements(FramesOf(ps, magic), magic) == NormalForms(ps)
  {
    var fs := FramesOf(ps, magic);
    forall i | 0 <= i < |ps|
      ensures SelfFraming(fs[i]) && Judge(fs[i], magic) == Received(NormalForm(ps[i]))
    {
      MarshalUnmarshal(ps[i], magic);
    }
  }

  function Altered(f: seq<byte>, k: nat, v: byte): seq<byte>
    requires k < |f|
  {
    f[k := v]
  }

  // A frame with one of bytes 1..31 altered before encryption is rejected, and
  // every other frame of the stream is judged as if nothing had happened.
  lemma AlteredFrameIsContained(c: BlockCipher, magic: uint32, iv: Block, fs: seq<seq<byte>>,
                                at: nat, k: nat, v: byte, tail: seq<byte>)
    requires Inverts(c) && AllSelfFraming(fs) && at < |fs|
    requires Accepted(fs[at], magic) && 1 <= k < PACKAGE_SIZE && v != fs[at][k]
    ensures var sent := fs[at := Altered(fs[at], k, v)];
      && AllSelfFraming(sent) && Aligned(Flatten(sent))
      && var log := ReadPackets(c, magic, iv, CbcEncrypt(c, iv, Flatten(sent)) + tail, |fs|);
      && |log.outcomes| == |fs|
      && log.outcomes[at].Rejected?
      && (forall i :: 0 <= i < |fs| && i != at ==> log.outcomes[i] == Judge(fs[i], magic))
      && log.rest == tail
  {
    OneByteDetected(fs[at], k, v, magic);
    var sent := fs[at := Altered(fs[at], k, v)];
    assert AllSelfFraming(sent);
    ReadsAllFrames(c, magic, iv, sent, tail);
  }

  // ---- One packet more -----------------------------------------------------

  // The plaintext bytes of some packets.
  function PlainOf(ps: seq<Packet>, magic: uint32): (plain: seq<byte>)
    requires AllSendable(ps)
    ensures Aligned(plain)
  {
    FramesJudged(ps, magic);
    FramesAligned(FramesOf(ps, magic));
    Flatten(FramesOf(ps, magic))
  }

  // Every list of packets arrives as its normal forms, in order.
  lemma ReadsAllPackets(c: BlockCipher, magic: uint32, iv: Block, ps: seq<Packet>, tail: seq<byte>)
    requires Inverts(c) && AllSendable(ps)
    ensures var secret := CbcEncrypt(c, iv, PlainOf(ps, magic));
      ReadPackets(c, magic, iv, secret + tail, |ps|) == ReadLog(NormalForms(ps), Chain(iv, secret), tail)
  {
    FramesJudged(ps, magic);
    ReadsAllFrames(c, magic, iv, FramesOf(ps, magic), tail);
  }

  lemma PlainSnoc(ps: seq<Packet>, p: Packet, magic: uint32)
    requires Sendable(p) && AllSendable(ps)
    ensures AllSendable(ps + [p])
    ensures PlainOf(ps + [p], magic) == PlainOf(ps, magic) + Frame(p, magic)
  {
    AllSendableSnoc(ps, p);
    assert FramesOf(ps + [p], magic) == FramesOf(ps, magic) + [Frame(p, magic)];
    FlattenSnoc(FramesOf(ps, magic), Frame(p, magic));
  }

  lemma AllReceivedSnoc(ps: seq<Packet>, p: Packet)
    ensures AllReceived(ps + [p]) == AllReceived(ps) + [Received(p)]
  {
  }

  // Reading one packet more, as a fact about values.
  lemma ReadOneMore(c: BlockCipher, magic: uint32, chain: Block, stream: seq<byte>, seen: seq<Packet>,
                    before: ReadResult, after: ReadResult)
    requires ReadPackets(c, magic, chain, stream, |seen|) == ReadLog(AllReceived(seen), before.chain, before.rest)
    requires after == ReadPacket(c, magic, before.chain, before.rest) && after.outcome.Received?
    ensures var all := seen + [after.outcome.packet];
      ReadPackets(c, magic, chain, stream, |all|) == ReadLog(AllReceived(all), after.chain, after.rest)
    ensures |after.rest| < |before.rest|
  {
    ReadPacketsSnoc(c, magic, chain, stream, |seen|);
    AllReceivedSnoc(seen, after.outcome.packet);
  }

  // The bytes and the chain that sending some packets leaves behind.
  ghost predicate Sent(c: BlockCipher, magic: uint32, iv: Block, ps: seq<Packet>, wire: seq<byte>, chain: Block) {
    && AllSendable(ps)
    && wire == CbcEncrypt(c, iv, PlainOf(ps, magic))
    && chain == Chain(iv, wire)
  }

  lemma WireGrows(c: BlockCipher, iv: Block, plain: seq<byte>, f: seq<byte>, wire: seq<byte>, chain: Block,
        secret: seq<byte>)
    requires Aligned(plain) && Aligned(f) && wire == CbcEncrypt(c, iv, plain) && chain == Chain(iv, wire)
    requires secret == CbcEncrypt(c, chain, f)
    ensures Aligned(plain + f) && wire + secret == CbcEncrypt(c, iv, plain + f)
    ensures Chain(chain, secret) == Chain(iv, wire + secret)
  {
    EncryptAppend(c, iv, plain, f);
    ChainAppend(iv, wire, secret);
  }

  lemma SentSnoc(c: BlockCipher, magic: uint32, iv: Block, ps: seq<Packet>, wire: seq<byte>, chain: Block, p: Packet)
    requires Sent(c, magic, iv, ps, wire, chain) && Sendable(p)
    ensures Sent(c, magic, iv, ps + [p], wire + SealedFrame(c, magic, chain, p), Chain(chain, SealedFrame(c, magic, chain, p)))
  {
    PlainSnoc(ps, p, magic);
    WireGrows(c, iv, PlainOf(ps, magic), Frame(p, magic), wire, chain, SealedFrame(c, magic, chain, p));
  }

  // ---- From the first byte of the connection -------------------------------

  // The receiving end: ReceiveRandomBlock, then n calls of readPacket.
  function ReadPrimed(c: BlockCipher, magic: uint32, receiver: Block, wire: seq<byte>, n: nat): ReadLog
    requires |wire| >= BLOCK_SIZE
  {
    ReadPackets(c, magic, Chain(receiver, wire[..16]), wire[16..], n)
  }

  // The sending end: SendRandomBlock, then the frames.
  function PrimedWire(c: BlockCipher, sender: Block, primer: Block, plain: seq<byte>): (wire: seq<byte>)
    requires Aligned(plain)
    ensures |wire| >= BLOCK_SIZE && Aligned(wire)
  {
    CbcEncrypt(c, sender, primer + plain)
  }

  // One primer block, then frames: whatever the two starting chains were, the
  // receiver drops 16 bytes and reads every frame.
  lemma PrimedStream(c: BlockCipher, magic: uint32, sender: Block, receiver: Block, primer: Block, fs: seq<seq<byte>>)
    requires Inverts(c) && AllSelfFraming(fs)
    ensures Aligned(Flatten(fs))
    ensures var wire := PrimedWire(c, sender, primer, Flatten(fs));
      ReadPrimed(c, magic, receiver, wire, |fs|) == ReadLog(Judgements(fs, magic), Chain(sender, wire), [])
  {
    FramesAligned(fs);
    var first := CbcEncrypt(c, sender, primer);
    var later := CbcEncrypt(c, first, Flatten(fs));
    FirstThenRest(sender, first, later);
    CutFirst(first, later);
    EncryptAppend(c, sender, primer, Flatten(fs));
    ReadsExactly(c, magic, first, fs);
  }

  lemma CutFirst(first: Block, later: seq<byte>)
    ensures (first + later)[..16] == first && (first + later)[16..] == later
    ensures Chain(first, []) == first
    ensures forall iv :: Chain(iv, first) == first
  {
    assert first[0..] == first;
  }

  // The primer's block, and after it the frames as encrypted from there.
  lemma PrimedCut(c: BlockCipher, sender: Block, primer: Block, plain: seq<byte>, tail: seq<byte>)
    requires Aligned(plain)
    ensures var first := CbcEncrypt(c, sender, primer);
      var stream := PrimedWire(c, sender, primer, plain) + tail;
      stream[..16] == first && stream[16..] == CbcEncrypt(c, first, plain) + tail
  {
    var first := CbcEncrypt(c, sender, primer);
    EncryptAppend(c, sender, primer, plain);
    Associative(first, CbcEncrypt(c, first, plain), tail);
    CutFirst(first, CbcEncrypt(c, first, plain) + tail);
  }

  // More plaintext only adds to the end of the wire.
  lemma PrimedGrows(c: BlockCipher, sender: Block, primer: Block, plain: seq<byte>, more: seq<byte>)
    requires Aligned(plain) && Aligned(more)
    ensures Aligned(plain + more)
    ensures PrimedWire(c, sender, primer, plain) <= PrimedWire(c, sender, primer, plain + more)
  {
    var first := primer + plain;
    Associative(primer, plain, more);
    EncryptAppend(c, sender, first, more);
  }

  // The same for packets: a primer and any packets arrive as the normal forms.
  lemma PrimedPacketsArrive(ps: seq<Packet>, c: BlockCipher, magic: uint32,
                            sender: Block, receiver: Block, primer: Block)
    requires Inverts(c) && AllSendable(ps)
    ensures ReadPrimed(c, magic, receiver, PrimedWire(c, sender, primer, PlainOf(ps, magic)), |ps|).outcomes
            == NormalForms(ps)
  {
    FramesJudged(ps, magic);
    PrimedStream(c, magic, sender, receiver, primer, FramesOf(ps, magic));
  }
}
