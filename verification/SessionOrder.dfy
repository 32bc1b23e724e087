/** What the schedules of Session keep of program order: which calls are on the
    wire, and that each goroutine's are there in the order it made them. */
module SessionOrder {
  import opened Protocol
  import opened Session

  // The call has encrypted its frame, if it ever will.
  predicate Past(pc: Pc) {
    pc.Writing? || pc.Written? || pc.Leaving? || pc.Gone?
  }

  // The packet is the one this call is for, up to its id.
  predicate IsFor(cfg: Config, t: nat, q: Packet)
    requires t < |cfg.jobs|
  {
    match cfg.jobs[t]
    case SessionSend(_, _, _, _) => q == Filled(cfg, WithId(Built(cfg, cfg.jobs[t]), q.header.id))
    case ClientSend(_, packet) => q == Filled(cfg, packet)
  }

  // A packet on its way through the call is the call's own.
  predicate OnItsWay(cfg: Config, t: nat, pc: Pc)
    requires t < |cfg.jobs|
  {
    match pc
    case WantsSession(p) => cfg.jobs[t].SessionSend? && p == Built(cfg, cfg.jobs[t])
    case HasSession(p) => cfg.jobs[t].SessionSend? && p == Built(cfg, cfg.jobs[t])
    case Marshalling(p) => IsFor(cfg, t, Filled(cfg, p))
    case WantsWire(q) => IsFor(cfg, t, q)
    case HasWire(q) => IsFor(cfg, t, q)
    case _ => true
  }

  predicate HasPayload(cfg: Config, t: nat)
    requires t < |cfg.jobs|
  {
    match cfg.jobs[t]
    case SessionSend(_, _, _, _) => Missing(Built(cfg, cfg.jobs[t])).None?
    case ClientSend(_, packet) => Missing(packet).None?
  }

  ghost predicate InOrder(cfg: Config, sent: seq<Entry>) {
    && (forall i :: 0 <= i < |sent| ==> sent[i].call < |cfg.jobs|)
    && forall i, j :: 0 <= i < j < |sent| ==>
         && sent[i].call != sent[j].call
         && (cfg.jobs[sent[i].call].owner == cfg.jobs[sent[j].call].owner ==> sent[i].call < sent[j].call)
  }

  ghost predicate OnWire(sent: seq<Entry>, t: nat) {
    exists i :: 0 <= i < |sent| && sent[i].call == t
  }

  ghost predicate OrderInv(cfg: Config, s: State)
    requires |s.pcs| == |cfg.jobs|
  {
    && InOrder(cfg, s.sent)
    && (forall t :: 0 <= t < |s.pcs| ==> OnItsWay(cfg, t, s.pcs[t]))
    && (forall t :: 0 <= t < |s.pcs| && !s.pcs[t].Entering? ==> Turn(cfg, s, t))
    && (forall i :: 0 <= i < |s.sent| ==> Past(s.pcs[s.sent[i].call]) && IsFor(cfg, s.sent[i].call, s.sent[i].packet))
    && (forall t :: 0 <= t < |s.pcs| && Past(s.pcs[t]) && HasPayload(cfg, t) && !s.failed ==> OnWire(s.sent, t))
  }

  // ---- One move ------------------------------------------------------------

  // The moving call's own place, and whether it is the one that was sent.
  lemma OwnMove(cfg: Config, s: State, m: Move)
    requires |s.pcs| == |cfg.jobs| && Apply(cfg, s, m).Some? && OnItsWay(cfg, m.t, s.pcs[m.t])
    ensures var s' := Apply(cfg, s, m).value;
      && s'.pcs == s.pcs[m.t := s'.pcs[m.t]] && OnItsWay(cfg, m.t, s'.pcs[m.t]) && !s.pcs[m.t].Gone?
      && (Past(s.pcs[m.t]) ==> Past(s'.pcs[m.t]))
      && (s.failed ==> s'.failed)
      && (if s.pcs[m.t].HasWire? then
            && Past(s'.pcs[m.t]) && |s'.sent| == |s.sent| + 1 && s'.sent[..|s.sent|] == s.sent
            && s'.sent[|s.sent|].call == m.t && IsFor(cfg, m.t, s'.sent[|s.sent|].packet)
          else
            && s'.sent == s.sent
            && (Past(s'.pcs[m.t]) && !Past(s.pcs[m.t]) ==> s.failed || !HasPayload(cfg, m.t)))
      && (s.pcs[m.t].Entering? ==> Turn(cfg, s, m.t))
  {
    if s.pcs[m.t].Marshalling? {
      FilledKeeps(cfg, s.pcs[m.t].packet);
      PayloadOf(cfg, m.t, Filled(cfg, s.pcs[m.t].packet));
    }
  }

  lemma PayloadOf(cfg: Config, t: nat, q: Packet)
    requires t < |cfg.jobs| && IsFor(cfg, t, q)
    ensures HasPayload(cfg, t) <==> Missing(q).None?
  {
    match cfg.jobs[t]
    case SessionSend(_, _, _, _) => FilledKeeps(cfg, WithId(Built(cfg, cfg.jobs[t]), q.header.id));
    case ClientSend(_, packet) => FilledKeeps(cfg, packet);
  }

  // A call whose turn it is stays so: the calls before it are gone for good.
  lemma TurnStays(cfg: Config, s: State, s': State, t: nat, u: nat)
    requires |s.pcs| == |cfg.jobs| == |s'.pcs| && t < |s.pcs| && u < |s.pcs|
    requires s'.pcs == s.pcs[t := s'.pcs[t]] && !s.pcs[t].Gone? && Turn(cfg, s, u)
    ensures Turn(cfg, s', u)
  {
  }

  // The call now sent comes after all of its goroutine's that were sent before.
  lemma SentLast(cfg: Config, s: State, t: nat, e: Entry)
    requires |s.pcs| == |cfg.jobs| && OrderInv(cfg, s) && t < |s.pcs| && s.pcs[t].HasWire? && e.call == t
    ensures InOrder(cfg, s.sent + [e])
  {
    forall i | 0 <= i < |s.sent|
      ensures s.sent[i].call != t && (cfg.jobs[s.sent[i].call].owner == cfg.jobs[t].owner ==> s.sent[i].call < t)
    {
      var u := s.sent[i].call;
      assert Past(s.pcs[u]);
      assert Turn(cfg, s, u);
    }
  }

  lemma StillOnWire(a: seq<Entry>, b: seq<Entry>, t: nat)
    requires a <= b
    ensures OnWire(a, t) ==> OnWire(b, t)
  {
    if OnWire(a, t) {
      var i :| 0 <= i < |a| && a[i].call == t;
      assert b[i].call == t;
    }
  }

  // What the move adds to the wire keeps program order.
  lemma SentStep(cfg: Config, s: State, m: Move)
    requires |s.pcs| == |cfg.jobs| && OrderInv(cfg, s) && Apply(cfg, s, m).Some?
    ensures var s' := Apply(cfg, s, m).value;
      && InOrder(cfg, s'.sent) && s.sent <= s'.sent
      && (forall i :: 0 <= i < |s'.sent| ==> Past(s'.pcs[s'.sent[i].call]) && IsFor(cfg, s'.sent[i].call, s'.sent[i].packet))
  {
    var s' := Apply(cfg, s, m).value;
    OwnMove(cfg, s, m);
    if s.pcs[m.t].HasWire? {
      SentLast(cfg, s, m.t, s'.sent[|s.sent|]);
      assert s'.sent == s.sent + [s'.sent[|s.sent|]];
    }
  }

  lemma ArrivalStep(cfg: Config, s: State, m: Move, u: nat)
    requires |s.pcs| == |cfg.jobs| && OrderInv(cfg, s) && Apply(cfg, s, m).Some?
    requires u < |s.pcs| && HasPayload(cfg, u)
    ensures var s' := Apply(cfg, s, m).value;
      Past(s'.pcs[u]) && !s'.failed ==> OnWire(s'.sent, u)
  {
    var s' := Apply(cfg, s, m).value;
    OwnMove(cfg, s, m);
    StillOnWire(s.sent, s'.sent, u);
    if s.pcs[m.t].HasWire? && u == m.t {
      assert s'.sent[|s.sent|].call == u;
    }
  }

  lemma OrderStep(cfg: Config, s: State, m: Move)
    requires |s.pcs| == |cfg.jobs| && OrderInv(cfg, s) && Apply(cfg, s, m).Some?
    ensures OrderInv(cfg, Apply(cfg, s, m).value)
  {
    var s' := Apply(cfg, s, m).value;
    OwnMove(cfg, s, m);
    SentStep(cfg, s, m);
    forall u | 0 <= u < |s'.pcs| && !s'.pcs[u].Entering?
      ensures Turn(cfg, s', u)
    {
      TurnStays(cfg, s, s', m.t, u);
    }
    forall u | 0 <= u < |s'.pcs| && HasPayload(cfg, u)
      ensures Past(s'.pcs[u]) && !s'.failed ==> OnWire(s'.sent, u)
    {
      ArrivalStep(cfg, s, m, u);
    }
  }

  lemma {:induction false} OrderRun(cfg: Config, moves: seq<Move>)
    requires Run(cfg, moves).Some?
    ensures OrderInv(cfg, Run(cfg, moves).value)
  {
    if moves == [] {
    } else {
      OrderRun(cfg, moves[..|moves| - 1]);
      OrderStep(cfg, Run(cfg, moves[..|moves| - 1]).value, moves[|moves| - 1]);
    }
  }

  // ---- Program order -------------------------------------------------------

  // In every reachable state, no call is on the wire twice, the calls of one
  // goroutine are there in the order it makes them, and each with its packet.
  lemma ProgramOrder(cfg: Config, moves: seq<Move>)
    requires Run(cfg, moves).Some?
    ensures var s := Run(cfg, moves).value;
      && InOrder(cfg, s.sent)
      && forall i :: 0 <= i < |s.sent| ==> IsFor(cfg, s.sent[i].call, s.sent[i].packet)
  {
    OrderRun(cfg, moves);
  }

  // The calls of one goroutine among some calls.
  function CallsOf(cfg: Config, owner: nat, n: nat): seq<nat>
    requires n <= |cfg.jobs|
  {
    if n == 0 then [] else CallsOf(cfg, owner, n - 1) + if cfg.jobs[n - 1].owner == owner then [n - 1] else []
  }

  function SentBy(cfg: Config, owner: nat, sent: seq<Entry>): seq<Entry>
    requires forall i :: 0 <= i < |sent| ==> sent[i].call < |cfg.jobs|
  {
    if sent == [] then []
    else
      var e := sent[|sent| - 1];
      SentBy(cfg, owner, sent[..|sent| - 1]) + if cfg.jobs[e.call].owner == owner then [e] else []
  }

  ghost predicate Increasing(a: seq<nat>) {
    forall i, j :: 0 <= i < j < |a| ==> a[i] < a[j]
  }

  function Calls(es: seq<Entry>): (r: seq<nat>)
    ensures |r| == |es|
    ensures forall i :: 0 <= i < |r| ==> r[i] == es[i].call
  {
    seq(|es|, i requires 0 <= i < |es| => es[i].call)
  }

  lemma InAppend<T>(a: seq<T>, b: seq<T>, x: T)
    ensures x in a + b <==> x in a || x in b
  {
  }

  lemma {:induction false} CallsOfAre(cfg: Config, owner: nat, n: nat)
    requires n <= |cfg.jobs|
    ensures Increasing(CallsOf(cfg, owner, n))
    ensures forall t: nat :: t in CallsOf(cfg, owner, n) <==> t < n && cfg.jobs[t].owner == owner
  {
    if n > 0 {
      CallsOfAre(cfg, owner, n - 1);
      var front, last: seq<nat> := CallsOf(cfg, owner, n - 1), if cfg.jobs[n - 1].owner == owner then [n - 1] else [];
      forall t: nat
        ensures t in CallsOf(cfg, owner, n) <==> t < n && cfg.jobs[t].owner == owner
      {
        InAppend(front, last, t);
      }
      forall i | 0 <= i < |front|
        ensures front[i] < n - 1
      {
        var t := front[i];
        assert t in CallsOf(cfg, owner, n - 1);
      }
    }
  }

  // Of some calls, the goroutine's own.
  lemma {:induction false} SentByMembers(cfg: Config, owner: nat, sent: seq<Entry>)
    requires forall i :: 0 <= i < |sent| ==> sent[i].call < |cfg.jobs|
    ensures forall e :: e in SentBy(cfg, owner, sent) <==> e in sent && cfg.jobs[e.call].owner == owner
    decreases |sent|
  {
    if sent == [] {
    } else {
      var front, e := sent[..|sent| - 1], sent[|sent| - 1];
      SentByMembers(cfg, owner, front);
      assert front + [e] == sent;
      var own := if cfg.jobs[e.call].owner == owner then [e] else [];
      forall x
        ensures x in SentBy(cfg, owner, sent) <==> x in sent && cfg.jobs[x.call].owner == owner
      {
        InAppend(SentBy(cfg, owner, front), own, x);
        InAppend(front, [e], x);
      }
    }
  }

  // They come in the order they are made.
  lemma {:induction false} SentByAre(cfg: Config, owner: nat, sent: seq<Entry>)
    requires InOrder(cfg, sent)
    ensures var es := SentBy(cfg, owner, sent);
      && Increasing(Calls(es))
      && (forall e :: e in es <==> e in sent && cfg.jobs[e.call].owner == owner)
    decreases |sent|
  {
    SentByMembers(cfg, owner, sent);
    if sent != [] {
      var front, e := sent[..|sent| - 1], sent[|sent| - 1];
      assert forall i :: 0 <= i < |front| ==> front[i] == sent[i];
      SentByAre(cfg, owner, front);
      var es := SentBy(cfg, owner, front);
      forall i | 0 <= i < |es| && cfg.jobs[e.call].owner == owner
        ensures es[i].call < e.call
      {
        assert es[i] in es;
        var j :| 0 <= j < |front| && front[j] == es[i];
        assert sent[j] == es[i];
      }
    }
  }

  lemma {:induction false} SameIncreasing(a: seq<nat>, b: seq<nat>)
    requires Increasing(a) && Increasing(b) && forall x :: x in a <==> x in b
    ensures a == b
    decreases |a|
  {
    if a == [] {
      assert forall i :: 0 <= i < |b| ==> b[i] in b;
    } else {
      assert a[0] in b && b != [] && b[0] in a;
      var x, y := a[1..], b[1..];
      assert a == [a[0]] + x && b == [b[0]] + y;
      forall v
        ensures v in x <==> v in y
      {
        InTail(a, v);
        InTail(b, v);
      }
      SameIncreasing(x, y);
    }
  }

  lemma InTail(a: seq<nat>, v: nat)
    requires a != [] && Increasing(a)
    ensures v in a[1..] <==> v in a && v != a[0]
  {
    if v in a && v != a[0] {
      var i :| 0 <= i < |a| && a[i] == v;
      assert a[1..][i - 1] == v;
    }
  }

  lemma SentWasMade(cfg: Config, sent: seq<Entry>, owner: nat, t: nat)
    requires InOrder(cfg, sent) && t in Calls(SentBy(cfg, owner, sent))
    ensures t < |cfg.jobs| && cfg.jobs[t].owner == owner
  {
    SentByAre(cfg, owner, sent);
    var es := SentBy(cfg, owner, sent);
    var i :| 0 <= i < |es| && es[i].call == t;
    assert es[i] in es;
  }

  lemma MadeIsSent(cfg: Config, sent: seq<Entry>, owner: nat, t: nat)
    requires InOrder(cfg, sent) && OnWire(sent, t) && t < |cfg.jobs| && cfg.jobs[t].owner == owner
    ensures t in Calls(SentBy(cfg, owner, sent))
  {
    SentByAre(cfg, owner, sent);
    var es := SentBy(cfg, owner, sent);
    var i :| 0 <= i < |sent| && sent[i].call == t;
    var e := sent[i];
    assert e in es;
    var j :| 0 <= j < |es| && es[j] == e;
    assert Calls(es)[j] == t;
  }

  lemma SentIffMade(cfg: Config, s: State, owner: nat, t: nat)
    requires |s.pcs| == |cfg.jobs| && OrderInv(cfg, s)
    requires !s.failed && forall t :: 0 <= t < |s.pcs| ==> s.pcs[t].Gone?
    requires forall t :: 0 <= t < |cfg.jobs| ==> HasPayload(cfg, t)
    ensures t in Calls(SentBy(cfg, owner, s.sent)) <==> t < |cfg.jobs| && cfg.jobs[t].owner == owner
  {
    if t in Calls(SentBy(cfg, owner, s.sent)) {
      SentWasMade(cfg, s.sent, owner, t);
    }
    if t < |cfg.jobs| && cfg.jobs[t].owner == owner {
      assert Past(s.pcs[t]);
      MadeIsSent(cfg, s.sent, owner, t);
    }
  }

  lemma {:induction false} IncreasingPrefix(a: seq<nat>, b: seq<nat>)
    requires Increasing(a) && Increasing(b)
    requires forall x :: x in a ==> x in b
    requires forall x, y :: x in a && y in b && y < x ==> y in a
    ensures a <= b
    decreases |a|
  {
    if a == [] {
    } else {
      assert a[0] in a && b[0] in b;
      var x, y := a[1..], b[1..];
      assert a == [a[0]] + x && b == [b[0]] + y;
      forall v
        ensures v in x <==> v in a && v != a[0]
        ensures v in y <==> v in b && v != b[0]
      {
        InTail(a, v);
        InTail(b, v);
      }
      IncreasingPrefix(x, y);
    }
  }

  // In every reachable state without a write failure, a goroutine's packets on
  // the wire are those of its first so many calls: none is missing in between.
  lemma CallsWithoutGap(cfg: Config, moves: seq<Move>, owner: nat)
    requires Run(cfg, moves).Some? && !Run(cfg, moves).value.failed
    requires forall t :: 0 <= t < |cfg.jobs| ==> HasPayload(cfg, t)
    ensures var s := Run(cfg, moves).value;
      InOrder(cfg, s.sent) && Calls(SentBy(cfg, owner, s.sent)) <= CallsOf(cfg, owner, |cfg.jobs|)
  {
    OrderRun(cfg, moves);
    var s := Run(cfg, moves).value;
    CallsOfAre(cfg, owner, |cfg.jobs|);
    SentByAre(cfg, owner, s.sent);
    var sent, made := Calls(SentBy(cfg, owner, s.sent)), CallsOf(cfg, owner, |cfg.jobs|);
    forall x | x in sent
      ensures x in made
      ensures forall y :: y in made && y < x ==> y in sent
    {
      SentWasMade(cfg, s.sent, owner, x);
      EarlierAreSent(cfg, s, owner, x);
    }
    IncreasingPrefix(sent, made);
  }

  lemma EarlierIsSent(cfg: Config, s: State, owner: nat, x: nat, y: nat)
    requires |s.pcs| == |cfg.jobs| && OrderInv(cfg, s) && !s.failed
    requires forall t :: 0 <= t < |cfg.jobs| ==> HasPayload(cfg, t)
    requires y < x < |cfg.jobs| && Turn(cfg, s, x) && cfg.jobs[x].owner == owner == cfg.jobs[y].owner
    ensures y in Calls(SentBy(cfg, owner, s.sent))
  {
    assert s.pcs[y].Gone?;
    MadeIsSent(cfg, s.sent, owner, y);
  }

  lemma EarlierAreSent(cfg: Config, s: State, owner: nat, x: nat)
    requires |s.pcs| == |cfg.jobs| && OrderInv(cfg, s) && !s.failed
    requires forall t :: 0 <= t < |cfg.jobs| ==> HasPayload(cfg, t)
    requires x in Calls(SentBy(cfg, owner, s.sent))
    ensures forall y :: y in CallsOf(cfg, owner, |cfg.jobs|) && y < x ==> y in Calls(SentBy(cfg, owner, s.sent))
  {
    SentWasMade(cfg, s.sent, owner, x);
    SentByAre(cfg, owner, s.sent);
    CallsOfAre(cfg, owner, |cfg.jobs|);
    var es := SentBy(cfg, owner, s.sent);
    var i :| 0 <= i < |es| && es[i].call == x;
    assert es[i] in s.sent && Past(s.pcs[x]);
    assert Turn(cfg, s, x);
    forall y | y in CallsOf(cfg, owner, |cfg.jobs|) && y < x
      ensures y in Calls(es)
    {
      EarlierIsSent(cfg, s, owner, x, y);
    }
  }

  // When every call has returned, no write failed and all payloads were there,
  // each goroutine's packets are on the wire: exactly one for each of its calls,
  // in the order it made them, whatever was interleaved.
  lemma AllCallsInOrder(cfg: Config, moves: seq<Move>, owner: nat)
    requires Run(cfg, moves).Some?
    requires var s := Run(cfg, moves).value; !s.failed && forall t :: 0 <= t < |s.pcs| ==> s.pcs[t].Gone?
    requires forall t :: 0 <= t < |cfg.jobs| ==> HasPayload(cfg, t)
    ensures var s := Run(cfg, moves).value;
      InOrder(cfg, s.sent) && Calls(SentBy(cfg, owner, s.sent)) == CallsOf(cfg, owner, |cfg.jobs|)
  {
    OrderRun(cfg, moves);
    var s := Run(cfg, moves).value;
    CallsOfAre(cfg, owner, |cfg.jobs|);
    SentByAre(cfg, owner, s.sent);
    var sent, made := Calls(SentBy(cfg, owner, s.sent)), CallsOf(cfg, owner, |cfg.jobs|);
    forall t: nat
      ensures t in sent <==> t in made
    {
      SentIffMade(cfg, s, owner, t);
    }
    SameIncreasing(sent, made);
  }
}
