/** From one machine's clipboard to the other's, through every layer: the
    clipboard goroutine's calls, whatever other goroutines send meanwhile, the
    locks, the frames, the cipher, the stream and the receiver. */
module EndToEnd {
  import opened Bytes
  import opened Protocol
  import opened Cipher
  import Channel
  import opened Session
  import opened SessionOrder
  import opened Clipboard
  import opened ClipboardProofs

  function PackedAll(z: Flate, texts: seq<seq<byte>>): (datas: seq<seq<byte>>)
    ensures |datas| == |texts| && forall i :: 0 <= i < |texts| ==> datas[i] == Packed(z, texts[i])
  {
    seq(|texts|, i requires 0 <= i < |texts| => Packed(z, texts[i]))
  }

  // What OnChange hands to the sender for some copies, one after the other.
  function SendsFor(datas: seq<seq<byte>>): seq<Outgoing> {
    if datas == [] then [] else Transfer(datas[0]) + SendsFor(datas[1..])
  }

  // The goroutine makes exactly these calls of sessionSender.Send.
  ghost predicate Makes(cfg: Config, owner: nat, sends: seq<Outgoing>) {
    var calls := CallsOf(cfg, owner, |cfg.jobs|);
    && |calls| == |sends|
    && forall k :: 0 <= k < |calls| ==> calls[k] < |cfg.jobs| && MakesCall(cfg.jobs[calls[k]], sends[k])
  }

  predicate MakesCall(job: Job, o: Outgoing) {
    job.SessionSend? && job.typ == o.typ && job.payload == o.payload
  }

  predicate ClipJob(job: Job) {
    var typ := if job.SessionSend? then job.typ else job.packet.header.typ;
    typ == CLIPBOARD_TEXT || typ == CLIPBOARD_DATA_END
  }

  // No other goroutine sends clipboard packets.
  ghost predicate OnlyThisOne(cfg: Config, owner: nat) {
    forall t :: 0 <= t < |cfg.jobs| && cfg.jobs[t].owner != owner ==> !ClipJob(cfg.jobs[t])
  }

  // ---- The clipboard packets on the wire are the goroutine's ----------------

  lemma {:induction false} ClipOnlySnoc(ps: seq<Packet>, p: Packet)
    ensures ClipOnly(ps + [p]) == ClipOnly(ps) + if IsClip(p) then [p] else []
    decreases |ps|
  {
    var last := if IsClip(p) then [p] else [];
    if ps == [] {
      assert [] + [p] == [p] && [p][1..] == [];
      assert last + [] == last == [] + last;
    } else {
      var first, rest := if IsClip(ps[0]) then [ps[0]] else [], ps[1..];
      ClipOnlySnoc(rest, p);
      ClipOnlyCons(ps);
      ClipOnlyCons(ps + [p]);
      assert (ps + [p])[1..] == rest + [p];
      Associative(first, ClipOnly(rest), last);
    }
  }

  lemma ClipOnlyCons(ps: seq<Packet>)
    requires ps != []
    ensures ClipOnly(ps) == (if IsClip(ps[0]) then [ps[0]] else []) + ClipOnly(ps[1..])
  {
  }

  lemma {:induction false} PacketsAt(es: seq<Entry>)
    ensures |PacketsOf(es)| == |es|
    ensures forall i :: 0 <= i < |es| ==> PacketsOf(es)[i] == es[i].packet
  {
    if es == [] {
    } else {
      PacketsAt(es[..|es| - 1]);
    }
  }

  lemma SentIsClip(cfg: Config, owner: nat, sends: seq<Outgoing>, e: Entry)
    requires OnlyThisOne(cfg, owner) && Makes(cfg, owner, sends) && forall k :: 0 <= k < |sends| ==> ClipSend(sends[k])
    requires e.call < |cfg.jobs| && IsFor(cfg, e.call, e.packet)
    ensures IsClip(e.packet) <==> cfg.jobs[e.call].owner == owner
  {
    assert IsClip(e.packet) <==> ClipJob(cfg.jobs[e.call]);
    if cfg.jobs[e.call].owner == owner {
      CallsOfAre(cfg, owner, |cfg.jobs|);
      var calls := CallsOf(cfg, owner, |cfg.jobs|);
      var k :| 0 <= k < |calls| && calls[k] == e.call;
      assert MakesCall(cfg.jobs[calls[k]], sends[k]) && ClipSend(sends[k]);
    }
  }

  predicate ClipSend(o: Outgoing) {
    o.typ == CLIPBOARD_TEXT || o.typ == CLIPBOARD_DATA_END
  }

  lemma {:induction false} ClipIsGoroutine(cfg: Config, owner: nat, sends: seq<Outgoing>, sent: seq<Entry>)
    requires OnlyThisOne(cfg, owner) && Makes(cfg, owner, sends) && forall k :: 0 <= k < |sends| ==> ClipSend(sends[k])
    requires forall i :: 0 <= i < |sent| ==> sent[i].call < |cfg.jobs| && IsFor(cfg, sent[i].call, sent[i].packet)
    ensures ClipOnly(PacketsOf(sent)) == PacketsOf(SentBy(cfg, owner, sent))
    decreases |sent|
  {
    if sent == [] {
    } else {
      var front, e := sent[..|sent| - 1], sent[|sent| - 1];
      ClipIsGoroutine(cfg, owner, sends, front);
      SentIsClip(cfg, owner, sends, e);
      ClipOnlySnoc(PacketsOf(front), e.packet);
      PacketsOfSnoc(SentBy(cfg, owner, front), e);
      assert SentBy(cfg, owner, front) + [] == SentBy(cfg, owner, front);
      assert ClipOnly(PacketsOf(front)) + [] == ClipOnly(PacketsOf(front));
    }
  }

  // ---- They are the transfers ----------------------------------------------

  // The k-th packet of a goroutine is the one of its k-th call.
  lemma MadeByCall(cfg: Config, owner: nat, sends: seq<Outgoing>, calls: seq<nat>, e: Entry, k: nat)
    requires Makes(cfg, owner, sends) && calls == CallsOf(cfg, owner, |cfg.jobs|)
    requires k < |calls| && e.call == calls[k] && e.call < |cfg.jobs| && IsFor(cfg, e.call, e.packet)
    ensures k < |sends| && MadeOf(e.packet, sends[k])
  {
    assert MakesCall(cfg.jobs[calls[k]], sends[k]);
  }

  // Packets of a goroutine's first so many calls.
  lemma MadeByCalls(cfg: Config, owner: nat, sends: seq<Outgoing>, es: seq<Entry>)
    requires Makes(cfg, owner, sends) && Calls(es) <= CallsOf(cfg, owner, |cfg.jobs|)
    requires forall i :: 0 <= i < |es| ==> es[i].call < |cfg.jobs| && IsFor(cfg, es[i].call, es[i].packet)
    ensures |PacketsOf(es)| == |es| <= |sends| && Made(PacketsOf(es), sends[..|es|])
  {
    PacketsAt(es);
    var calls := CallsOf(cfg, owner, |cfg.jobs|);
    var made := sends[..|es|];
    forall k | 0 <= k < |PacketsOf(es)|
      ensures MadeOf(PacketsOf(es)[k], made[k])
    {
      assert Calls(es)[k] == calls[k];
      MadeByCall(cfg, owner, sends, calls, es[k], k);
    }
  }

  lemma MadeSplits(ps: seq<Packet>, sends: seq<Outgoing>, n: nat)
    requires Made(ps, sends) && n <= |ps|
    ensures Made(ps[..n], sends[..n]) && Made(ps[n..], sends[n..])
  {
    forall i | 0 <= i < |ps| - n
      ensures MadeOf(ps[n..][i], sends[n..][i])
    {
      assert MadeOf(ps[n + i], sends[n + i]);
    }
  }

  lemma SendsSplit(datas: seq<seq<byte>>)
    requires datas != []
    ensures var n, sends := |Transfer(datas[0])|, SendsFor(datas);
      n <= |sends| && sends[..n] == Transfer(datas[0]) && sends[n..] == SendsFor(datas[1..])
  {
  }

  lemma FlattenCons(ps: seq<Packet>, n: nat, later: seq<seq<Packet>>)
    requires n <= |ps| && Flatten(later) == ps[n..]
    ensures Flatten([ps[..n]] + later) == ps
  {
    var pss := [ps[..n]] + later;
    assert pss[0] == ps[..n] && pss[1..] == later;
    assert ps[..n] + ps[n..] == ps;
  }

  lemma {:induction false} SplitTransfers(ps: seq<Packet>, datas: seq<seq<byte>>) returns (pss: seq<seq<Packet>>)
    requires Made(ps, SendsFor(datas))
    ensures Flatten(pss) == ps && |pss| == |datas|
    ensures forall i :: 0 <= i < |datas| ==> Made(pss[i], Transfer(datas[i]))
    decreases |datas|
  {
    if datas == [] {
      pss := [];
    } else {
      var n := |Transfer(datas[0])|;
      SendsSplit(datas);
      MadeSplits(ps, SendsFor(datas), n);
      var later := SplitTransfers(ps[n..], datas[1..]);
      FlattenCons(ps, n, later);
      pss := [ps[..n]] + later;
    }
  }

  lemma {:induction false} TransfersAreClip(datas: seq<seq<byte>>)
    ensures forall k :: 0 <= k < |SendsFor(datas)| ==> ClipSend(SendsFor(datas)[k])
    decreases |datas|
  {
    if datas == [] {
    } else {
      TransfersAreClip(datas[1..]);
      ChunkTypes(Chunks(datas[0]));
    }
  }

  lemma {:induction false} ChunkTypes(chunks: seq<seq<byte>>)
    ensures forall k :: 0 <= k < |ChunkSends(chunks)| ==> ClipSend(ChunkSends(chunks)[k])
  {
  }

  // ---- A transfer cut short --------------------------------------------------

  // Chunks without an end marker deliver nothing.
  lemma {:induction false} ChunksDeliverNothing(b: Inbox, ps: seq<Packet>)
    requires forall i :: 0 <= i < |ps| ==> ps[i].header.typ == CLIPBOARD_TEXT
    ensures Deliveries(b, Arrived(ps)) == []
    decreases |ps|
  {
    if ps == [] {
    } else {
      ArrivedCons(ps);
      DeliverFirst(b, NormalForm(ps[0]), Arrived(ps[1..]));
      ChunksDeliverNothing(Receive(b, NormalForm(ps[0])), ps[1..]);
    }
  }

  lemma {:induction false} ChunksAreText(chunks: seq<seq<byte>>)
    ensures forall k :: 0 <= k < |ChunkSends(chunks)| ==> ChunkSends(chunks)[k].typ == CLIPBOARD_TEXT
  {
  }

  lemma WholeThenRest(ps: seq<Packet>, n: nat, data: seq<byte>)
    requires n <= |ps| && Made(ps[..n], Transfer(data)) && data != []
    ensures Deliveries(EMPTY, Arrived(ps)) == [Padded(data)] + Deliveries(EMPTY, Arrived(ps[n..]))
  {
    assert ps == ps[..n] + ps[n..];
    ArrivedAppend(ps[..n], ps[n..]);
    ChunksDelivered([], false, data, ps[..n], Arrived(ps[n..]));
    assert [] + Padded(data) == Padded(data);
  }

  // Part of one transfer.
  lemma PartDelivers(ps: seq<Packet>, data: seq<byte>)
    requires |ps| < |Transfer(data)| && Made(ps, Transfer(data)[..|ps|])
    ensures Deliveries(EMPTY, Arrived(ps)) == []
  {
    ChunksAreText(Chunks(data));
    forall i | 0 <= i < |ps|
      ensures ps[i].header.typ == CLIPBOARD_TEXT
    {
      assert MadeOf(ps[i], Transfer(data)[..|ps|][i]);
      assert Transfer(data)[i] == ChunkSends(Chunks(data))[i];
    }
    ChunksDeliverNothing(EMPTY, ps);
  }

  lemma TakeOfTake<T>(s: seq<T>, k: nat, n: nat)
    requires k <= n <= |s|
    ensures s[..n][..k] == s[..k]
  {
  }

  lemma DropOfTake<T>(s: seq<T>, n: nat, k: nat)
    requires n <= k <= |s|
    ensures s[..k][n..] == s[n..][..k - n]
  {
  }

  lemma TakeCons(datas: seq<seq<byte>>, k: nat)
    requires datas != [] && k < |datas|
    ensures PaddedAll(datas[..k + 1]) == [Padded(datas[0])] + PaddedAll(datas[1..][..k])
  {
    assert datas[..k + 1][1..] == datas[1..][..k];
    PaddedAllCons(datas[..k + 1]);
  }

  lemma PrefixSplits(ps: seq<Packet>, datas: seq<seq<byte>>)
    requires datas != [] && |ps| <= |SendsFor(datas)| && Made(ps, SendsFor(datas)[..|ps|])
    ensures var n, later := |Transfer(datas[0])|, SendsFor(datas[1..]);
      if |ps| < n then Made(ps, Transfer(datas[0])[..|ps|])
      else Made(ps[..n], Transfer(datas[0])) && |ps| - n <= |later| && Made(ps[n..], later[..|ps| - n])
  {
    var n := |Transfer(datas[0])|;
    SendsSplit(datas);
    if |ps| < n {
      TakeOfTake(SendsFor(datas), |ps|, n);
    } else {
      MadeSplits(ps, SendsFor(datas)[..|ps|], n);
      TakeOfTake(SendsFor(datas), n, |ps|);
      DropOfTake(SendsFor(datas), n, |ps|);
    }
  }

  lemma OneMore(ps: seq<Packet>, n: nat, datas: seq<seq<byte>>, k: nat)
    requires datas != [] && datas[0] != [] && k < |datas| && n <= |ps| && Made(ps[..n], Transfer(datas[0]))
    requires Deliveries(EMPTY, Arrived(ps[n..])) == PaddedAll(datas[1..][..k])
    ensures Deliveries(EMPTY, Arrived(ps)) == PaddedAll(datas[..k + 1])
  {
    WholeThenRest(ps, n, datas[0]);
    TakeCons(datas, k);
  }

  // The first so many packets of some transfers deliver the whole ones among them.
  lemma {:induction false} PrefixDelivers(ps: seq<Packet>, datas: seq<seq<byte>>) returns (k: nat)
    requires |ps| <= |SendsFor(datas)| && Made(ps, SendsFor(datas)[..|ps|])
    requires forall i :: 0 <= i < |datas| ==> datas[i] != []
    ensures k <= |datas| && Deliveries(EMPTY, Arrived(ps)) == PaddedAll(datas[..k])
    decreases |datas|
  {
    if datas == [] {
      k := 0;
    } else {
      var n := |Transfer(datas[0])|;
      PrefixSplits(ps, datas);
      if |ps| < n {
        PartDelivers(ps, datas[0]);
        k := 0;
      } else {
        var later := PrefixDelivers(ps[n..], datas[1..]);
        OneMore(ps, n, datas, later);
        k := later + 1;
      }
    }
  }

  // ---- The whole way -------------------------------------------------------

  ghost predicate AllDone(s: State) {
    !s.failed && forall t :: 0 <= t < |s.pcs| ==> s.pcs[t].Gone?
  }

  // Under any interleaving of any goroutines' calls in which no write fails, the
  // texts one goroutine copied, but for empty ones, are exactly what the other
  // machine puts on its clipboard, in order, once every call has returned.
  lemma CopiedTextsArrive(z: Flate, texts: seq<seq<byte>>, cfg: Config, moves: seq<Move>, owner: nat)
    requires Lossless(z) && Inverts(cfg.cipher) && TypesFit(cfg)
    requires forall i :: 0 <= i < |texts| ==> Transparent(texts[i])
    requires Makes(cfg, owner, SendsFor(PackedAll(z, texts))) && OnlyThisOne(cfg, owner)
    requires forall t :: 0 <= t < |cfg.jobs| ==> HasPayload(cfg, t)
    requires Run(cfg, moves).Some? && AllDone(Run(cfg, moves).value)
    ensures var s := Run(cfg, moves).value;
      var log := Channel.ReadPackets(cfg.cipher, cfg.magic, cfg.iv, s.wire, |s.sent|);
      Texts(z, Deliveries(EMPTY, Seen(log.outcomes))) == NonEmpty(texts)
  {
    var s := Run(cfg, moves).value;
    var datas := PackedAll(z, texts);
    var pss := WireHoldsTransfers(z, texts, cfg, moves, owner);
    InvRun(cfg, moves);
    assert s.sendMu.None? && s.wire + Unwritten(s) == s.wire;
    PacketsAt(s.sent);
    forall i | 0 <= i < |datas|
      ensures datas[i] != []
    {
      PaddingIsHarmless(z, texts[i]);
    }
    ClipboardOverTheWire(z, texts, datas, PacketsOf(s.sent), pss, cfg.cipher, cfg.magic, cfg.iv);
  }

  lemma WireHoldsTransfers(z: Flate, texts: seq<seq<byte>>, cfg: Config, moves: seq<Move>, owner: nat)
    returns (pss: seq<seq<Packet>>)
    requires Run(cfg, moves).Some? && AllDone(Run(cfg, moves).value)
    requires forall t :: 0 <= t < |cfg.jobs| ==> HasPayload(cfg, t)
    requires Makes(cfg, owner, SendsFor(PackedAll(z, texts))) && OnlyThisOne(cfg, owner)
    ensures ClipOnly(PacketsOf(Run(cfg, moves).value.sent)) == Flatten(pss)
    ensures |pss| == |texts| && forall i :: 0 <= i < |texts| ==> Made(pss[i], Transfer(PackedAll(z, texts)[i]))
  {
    var s := Run(cfg, moves).value;
    var datas := PackedAll(z, texts);
    var sends := SendsFor(datas);
    ProgramOrder(cfg, moves);
    AllCallsInOrder(cfg, moves, owner);
    TransfersAreClip(datas);
    ClipIsGoroutine(cfg, owner, sends, s.sent);
    var es := SentBy(cfg, owner, s.sent);
    SentByAre(cfg, owner, s.sent);
    forall i | 0 <= i < |es|
      ensures es[i].call < |cfg.jobs| && IsFor(cfg, es[i].call, es[i].packet)
    {
      assert es[i] in es;
    }
    MadeByCalls(cfg, owner, sends, es);
    assert sends[..|es|] == sends;
    pss := SplitTransfers(PacketsOf(es), datas);
  }

  // ---- On the way ------------------------------------------------------------

  // The clipboard packets on the wire, in any reachable state.
  lemma WireHoldsPrefix(z: Flate, texts: seq<seq<byte>>, cfg: Config, moves: seq<Move>, owner: nat) returns (k: nat)
    requires Lossless(z) && Run(cfg, moves).Some? && !Run(cfg, moves).value.failed
    requires forall t :: 0 <= t < |cfg.jobs| ==> HasPayload(cfg, t)
    requires Makes(cfg, owner, SendsFor(PackedAll(z, texts))) && OnlyThisOne(cfg, owner)
    ensures k <= |texts|
    ensures Deliveries(EMPTY, Arrived(PacketsOf(Run(cfg, moves).value.sent))) == PaddedAll(PackedAll(z, texts)[..k])
  {
    var s := Run(cfg, moves).value;
    var datas := PackedAll(z, texts);
    ProgramOrder(cfg, moves);
    CallsWithoutGap(cfg, moves, owner);
    TransfersAreClip(datas);
    ClipIsGoroutine(cfg, owner, SendsFor(datas), s.sent);
    var es := SentBy(cfg, owner, s.sent);
    SentByAre(cfg, owner, s.sent);
    forall i | 0 <= i < |es|
      ensures es[i].call < |cfg.jobs| && IsFor(cfg, es[i].call, es[i].packet)
    {
      assert es[i] in es;
    }
    MadeByCalls(cfg, owner, SendsFor(datas), es);
    forall i | 0 <= i < |datas|
      ensures datas[i] != []
    {
      PaddingIsHarmless(z, texts[i]);
    }
    k := PrefixDelivers(PacketsOf(es), datas);
    OthersIgnored(EMPTY, Arrived(PacketsOf(s.sent)));
    ClipArrives(PacketsOf(s.sent));
  }

  // In every reachable state without a write failure, whenever nobody is in the
  // middle of writing a frame, what the other side has put on its clipboard is a
  // prefix of the texts copied, empty ones left out.
  lemma ClipboardIsPrefix(z: Flate, texts: seq<seq<byte>>, cfg: Config, moves: seq<Move>, owner: nat)
    requires Lossless(z) && Inverts(cfg.cipher) && TypesFit(cfg)
    requires forall i :: 0 <= i < |texts| ==> Transparent(texts[i])
    requires Makes(cfg, owner, SendsFor(PackedAll(z, texts))) && OnlyThisOne(cfg, owner)
    requires forall t :: 0 <= t < |cfg.jobs| ==> HasPayload(cfg, t)
    requires Run(cfg, moves).Some? && !Run(cfg, moves).value.failed && Unwritten(Run(cfg, moves).value) == []
    ensures var s := Run(cfg, moves).value;
      var log := Channel.ReadPackets(cfg.cipher, cfg.magic, cfg.iv, s.wire, |s.sent|);
      Texts(z, Deliveries(EMPTY, Seen(log.outcomes))) <= NonEmpty(texts)
  {
    var s := Run(cfg, moves).value;
    var datas := PackedAll(z, texts);
    var k := WireHoldsPrefix(z, texts, cfg, moves, owner);
    WireIsWholeFrames(cfg, moves);
    PacketsAt(s.sent);
    SeenNormal(PacketsOf(s.sent));
    forall i | 0 <= i < k
      ensures Restores(z, datas[..k][i], texts[..k][i])
    {
      ArrivesIff(z, texts[i]);
    }
    TextsRestored(z, texts[..k], datas[..k]);
    NonEmptyPrefix(texts, k);
  }
}
