/** Which byte of a frame holds what: the wire format by offsets, for every packet
    marshalled and every buffer parsed. */
module Layout {
  import opened Wrappers
  import opened Bytes
  import opened Protocol
  import opened ProtocolProofs
  import Handshake

  // The 32-bit word at an offset, low byte first.
  function WordAt(f: seq<byte>, i: nat): uint32
    requires i + 4 <= |f|
  {
    f[i] as int + 0x100 * f[i + 1] as int + 0x1_0000 * f[i + 2] as int + 0x100_0000 * f[i + 3] as int
  }

  lemma WordIs(x: uint32, f: seq<byte>, i: nat)
    requires i + 4 <= |f| && f[i..i + 4] == Le32(x)
    ensures WordAt(f, i) == x
  {
    Le32RoundTrip(x);
    var w := f[i..i + 4];
    assert w[0] == f[i] && w[1] == f[i + 1] && w[2] == f[i + 2] && w[3] == f[i + 3];
    assert FromLe32(Le32(x)) == x;
  }

  lemma WordRead(f: seq<byte>, i: nat)
    requires i + 4 <= |f|
    ensures FromLe32(f[i..i + 4]) == WordAt(f, i)
  {
  }

  lemma SignedIs(x: int32)
    ensures ToUint32(x) == x % 0x1_0000_0000
  {
  }

  lemma SignedRead(w: uint32)
    ensures ToInt32(w) % 0x1_0000_0000 == w
  {
  }

  // ---- Sizes ---------------------------------------------------------------

  // The frame of a type has 64 bytes for the twelve listed types and whenever
  // bit 7 is set, and 32 otherwise.
  lemma SizeIff(t: uint32)
    ensures FrameSize(t) == 64 <==> t in {3, 20, 21, 51, 69, 76, 78, 79, 124, 125, 126, 127} || Bit(t, 7) == 1
    ensures FrameSize(t) == 64 || FrameSize(t) == 32
  {
    SeventhBit(t);
  }

  lemma SeventhBit(t: nat)
    ensures Bit(t, 7) == t / 128 % 2
  {
    assert Bit(t, 7) == Bit(t / 2, 6) == Bit(t / 2 / 2, 5) == Bit(t / 2 / 2 / 2, 4);
    assert Bit(t / 2 / 2 / 2, 4) == Bit(t / 2 / 2 / 2 / 2, 3) == Bit(t / 2 / 2 / 2 / 2 / 2, 2);
    assert Bit(t / 2 / 2 / 2 / 2 / 2, 2) == Bit(t / 2 / 2 / 2 / 2 / 2 / 2, 1) == t / 2 / 2 / 2 / 2 / 2 / 2 / 2 % 2;
  }

  // ---- Marshalled frames ---------------------------------------------------

  // A string copied to a zeroed place.
  predicate Copied(f: seq<byte>, at: nat, n: nat, data: seq<byte>) {
    at + n <= |f| && forall i :: 0 <= i < n ==> f[at + i] == if i < |data| then data[i] else 0
  }

  // A name followed by spaces up to 32 bytes.
  predicate Named(f: seq<byte>, name: seq<byte>) {
    |f| == 64 && forall i :: 0 <= i < 32 ==> f[32 + i] == if i < |name| then name[i] else 32
  }

  function RawOf(p: Packet): seq<byte> {
    if p.raw.Some? then p.raw.value else []
  }

  ghost predicate HeadLaidOut(f: seq<byte>, p: Packet, magic: uint32) {
    && (|f| == 32 || |f| == 64)
    && f[0] == p.header.typ % 0x100
    && f[1] == Sum(f[2..32]) % 0x100
    && f[2] == magic / 0x1_0000 % 0x100 && f[3] == magic / 0x100_0000
    && WordAt(f, 4) == p.header.id && WordAt(f, 8) == p.header.src && WordAt(f, 12) == p.header.des
  }

  ghost predicate Dated(f: seq<byte>, time: uint64) {
    |f| >= 24 && WordAt(f, 16) + 0x1_0000_0000 * WordAt(f, 20) == time
  }

  // Bytes 16 and up, by the type.
  ghost predicate BodyLaidOut(f: seq<byte>, p: Packet)
    requires |f| == 32 || |f| == 64
  {
    var t := p.header.typ;
    if t == 122 then
      && p.keyboard.Some? && Dated(f, p.header.dateTime)
      && WordAt(f, 24) == p.keyboard.value.vk % 0x1_0000_0000
      && WordAt(f, 28) == p.keyboard.value.flags % 0x1_0000_0000
    else if t == 123 then
      && p.mouse.Some?
      && WordAt(f, 16) == p.mouse.value.x % 0x1_0000_0000 && WordAt(f, 20) == p.mouse.value.y % 0x1_0000_0000
      && WordAt(f, 24) == p.mouse.value.wheelDelta % 0x1_0000_0000
      && WordAt(f, 28) == p.mouse.value.flags % 0x1_0000_0000
    else if t == 126 || t == 127 then
      && p.handshake.Some?
      && WordAt(f, 16) == p.handshake.value.m1 && WordAt(f, 20) == p.handshake.value.m2
      && WordAt(f, 24) == p.handshake.value.m3 && WordAt(f, 28) == p.handshake.value.m4
      && if p.name == [] then Copied(f, 32, 32, []) else Named(f, p.name)
    else if t == 124 || t == 125 then Copied(f, 16, 48, RawOf(p))
    else
      && Dated(f, p.header.dateTime)
      && if |f| == 64 && p.name != [] then Copied(f, 24, 8, RawOf(p)) && Named(f, p.name)
         else Copied(f, 24, |f| - 24, RawOf(p))
  }

  // For every packet: a frame has each field at its place, and there is none
  // exactly when a keyboard, mouse or handshake packet lacks its payload.
  lemma MarshalledBytes(p: Packet, magic: uint32)
    ensures match FrameOf(p, magic)
      case Ok(f) => |f| == FrameSize(p.header.typ) && HeadLaidOut(f, p, magic) && BodyLaidOut(f, p)
      case Err(KeyboardDataMissing) => p.header.typ == 122 && p.keyboard.None?
      case Err(MouseDataMissing) => p.header.typ == 123 && p.mouse.None?
      case Err(HandshakeDataMissing) => (p.header.typ == 126 || p.header.typ == 127) && p.handshake.None?
      case Err(_) => false
  {
    if Missing(p).None? {
      var f := Frame(p, magic);
      HeadBytes(p, magic);
      FrameBody(p, magic);
      if p.header.typ == KEYBOARD {
        KeyboardBytes(f, p);
      } else if p.header.typ == MOUSE {
        MouseBytes(f, p);
      } else if IsHandshake(p.header.typ) {
        HandshakeBytes(f, p);
      } else if CarriesChunk(p.header.typ) {
        ChunkBytes(f, p);
      } else {
        UntypedBytes(f, p);
      }
    }
  }

  lemma HeadBytes(p: Packet, magic: uint32)
    requires Missing(p).None?
    ensures HeadLaidOut(Frame(p, magic), p, magic)
  {
    var f, rest := Frame(p, magic), Covered(p, magic);
    var low: byte, high: byte := magic / 0x1_0000 % 0x100, magic / 0x100_0000;
    FrameSlices(p.header.typ % 0x100, Sum(rest[..30]) % 0x100, low, high,
                Le32(p.header.id), Le32(p.header.src), Le32(p.header.des), NamedBody(p));
    WordIs(p.header.id, f, 4);
    WordIs(p.header.src, f, 8);
    WordIs(p.header.des, f, 12);
  }

  lemma FrameBody(p: Packet, magic: uint32)
    requires Missing(p).None?
    ensures |Frame(p, magic)| == FrameSize(p.header.typ) && Frame(p, magic)[16..] == NamedBody(p)
  {
    var rest := Covered(p, magic);
    var low: byte, high: byte := magic / 0x1_0000 % 0x100, magic / 0x100_0000;
    FrameSlices(p.header.typ % 0x100, Sum(rest[..30]) % 0x100, low, high,
                Le32(p.header.id), Le32(p.header.src), Le32(p.header.des), NamedBody(p));
  }

  lemma DatedIs(f: seq<byte>, time: uint64)
    requires |f| >= 24 && f[16..24] == Le64(time)
    ensures Dated(f, time)
  {
    var low: uint32, high: uint32 := time % 0x1_0000_0000, time / 0x1_0000_0000;
    assert f[16..20] == f[16..24][..4] == Le32(low);
    assert f[20..24] == f[16..24][4..] == Le32(high);
    WordIs(low, f, 16);
    WordIs(high, f, 20);
  }

  lemma KeyboardBytes(f: seq<byte>, p: Packet)
    requires |f| == 32 && p.header.typ == KEYBOARD && Missing(p).None? && f[16..] == NamedBody(p)
    ensures BodyLaidOut(f, p)
  {
    var k := p.keyboard.value;
    assert f[16..24] == f[16..][..8] == Le64(p.header.dateTime);
    assert f[24..28] == f[16..][8..12] == Le32(ToUint32(k.vk));
    assert f[28..32] == f[16..][12..16] == Le32(ToUint32(k.flags));
    DatedIs(f, p.header.dateTime);
    WordIs(ToUint32(k.vk), f, 24);
    WordIs(ToUint32(k.flags), f, 28);
    SignedIs(k.vk);
    SignedIs(k.flags);
  }

  lemma FourWordsAt(a: uint32, b: uint32, c: uint32, d: uint32, f: seq<byte>)
    requires |f| >= 32 && f[16..32] == Le32(a) + Le32(b) + Le32(c) + Le32(d)
    ensures WordAt(f, 16) == a && WordAt(f, 20) == b && WordAt(f, 24) == c && WordAt(f, 28) == d
  {
    FourSlices(Le32(a), Le32(b), Le32(c), Le32(d), f);
    WordIs(a, f, 16);
    WordIs(b, f, 20);
    WordIs(c, f, 24);
    WordIs(d, f, 28);
  }

  lemma MouseBytes(f: seq<byte>, p: Packet)
    requires |f| == 32 && p.header.typ == MOUSE && Missing(p).None? && f[16..] == NamedBody(p)
    ensures BodyLaidOut(f, p)
  {
    var m := p.mouse.value;
    assert f[16..32] == f[16..];
    FourWordsAt(ToUint32(m.x), ToUint32(m.y), ToUint32(m.wheelDelta), ToUint32(m.flags), f);
    SignedIs(m.x);
    SignedIs(m.y);
    SignedIs(m.wheelDelta);
    SignedIs(m.flags);
  }

  lemma NamedIs(f: seq<byte>, name: seq<byte>)
    requires |f| == 64 && f[32..] == PadName(name)
    ensures Named(f, name)
  {
    forall i | 0 <= i < 32
      ensures f[32 + i] == if i < |name| then name[i] else 32
    {
      assert f[32 + i] == PadName(name)[i];
    }
  }

  lemma CopiedIs(f: seq<byte>, at: nat, n: nat, data: seq<byte>)
    requires at + n <= |f| && f[at..at + n] == Fit(data, n)
    ensures Copied(f, at, n, data)
  {
    forall i | 0 <= i < n
      ensures f[at + i] == if i < |data| then data[i] else 0
    {
      assert f[at + i] == Fit(data, n)[i];
    }
  }

  lemma HandshakeBytes(f: seq<byte>, p: Packet)
    requires |f| == 64 && IsHandshake(p.header.typ) && Missing(p).None? && f[16..] == NamedBody(p)
    ensures BodyLaidOut(f, p)
  {
    var h := p.handshake.value;
    HandshakeBody(p);
    assert f[16..32] == f[16..][..16] == Le32(h.m1) + Le32(h.m2) + Le32(h.m3) + Le32(h.m4);
    FourWordsAt(h.m1, h.m2, h.m3, h.m4, f);
    assert f[32..] == f[16..][16..];
    if p.name == [] {
      assert f[32..32 + 32] == f[32..] == Fit([], 32);
      CopiedIs(f, 32, 32, []);
    } else {
      NamedIs(f, p.name);
    }
  }

  lemma ChunkBytes(f: seq<byte>, p: Packet)
    requires |f| == 64 && CarriesChunk(p.header.typ) && f[16..] == NamedBody(p)
    ensures BodyLaidOut(f, p)
  {
    assert f[16..16 + 48] == f[16..];
    CopiedIs(f, 16, 48, RawOf(p));
  }

  lemma UntypedBytes(f: seq<byte>, p: Packet)
    requires |f| == FrameSize(p.header.typ) && Untyped(p.header.typ) && Missing(p).None? && f[16..] == NamedBody(p)
    ensures BodyLaidOut(f, p)
  {
    UntypedBody(p);
    assert f[16..24] == f[16..][..8] == Le64(p.header.dateTime);
    DatedIs(f, p.header.dateTime);
    assert f[24..] == f[16..][8..] == RawRegion(p);
    var fitted := FitRaw(p.raw, |f| - 24);
    if WritesName(p) {
      TakeOfFit(RawOf(p), |f| - 24, 8);
      assert f[24..24 + 8] == f[24..][..8] == Fit(RawOf(p), 8);
      CopiedIs(f, 24, 8, RawOf(p));
      assert f[32..] == f[24..][8..] == PadName(p.name);
      NamedIs(f, p.name);
    } else {
      assert f[24..24 + (|f| - 24)] == f[24..] == fitted;
      CopiedIs(f, 24, |f| - 24, RawOf(p));
    }
  }

  lemma TakeOfFit(data: seq<byte>, n: nat, k: nat)
    requires k <= n
    ensures Fit(data, n)[..k] == Fit(data, k)
  {
  }

  // ---- Parsed buffers ------------------------------------------------------

  // The last byte of a name is no blank, and only blanks follow it.
  predicate Trimmed(region: seq<byte>, name: seq<byte>) {
    && name <= region
    && (name != [] ==> name[|name| - 1] != 0 && name[|name| - 1] != 32)
    && forall i :: |name| <= i < |region| ==> region[i] == 0 || region[i] == 32
  }

  lemma {:induction false} TrimmedIs(region: seq<byte>)
    ensures Trimmed(region, Trim(region))
  {
    if region != [] && Blank(region[|region| - 1]) {
      var front := region[..|region| - 1];
      TrimmedIs(front);
      forall i | |Trim(region)| <= i < |region|
        ensures region[i] == 0 || region[i] == 32
      {
        if i < |front| {
          assert front[i] == region[i];
        }
      }
    }
  }

  ghost predicate HeadRead(b: seq<byte>, q: Packet)
    requires |b| >= 24
  {
    && q.header.typ == b[0]
    && q.header.id == WordAt(b, 4) && q.header.src == WordAt(b, 8) && q.header.des == WordAt(b, 12)
    && (if |b| >= 64 && b[0] != 124 && b[0] != 125 then Trimmed(b[32..64], q.name) else q.name == [])
  }

  ghost predicate TimeRead(b: seq<byte>, q: Packet)
    requires |b| >= 24
  {
    q.header.dateTime == WordAt(b, 16) + 0x1_0000_0000 * WordAt(b, 20)
  }

  // The payload, by the type; a buffer too short for it has none.
  ghost predicate BodyRead(b: seq<byte>, q: Packet)
    requires |b| >= 24
  {
    var t := b[0];
    && (q.keyboard.Some? <==> t == 122 && |b| >= 32)
    && (q.mouse.Some? <==> t == 123 && |b| >= 32)
    && (q.handshake.Some? <==> (t == 126 || t == 127) && |b| >= 32)
    && (q.keyboard.Some? ==>
          q.keyboard.value.vk % 0x1_0000_0000 == WordAt(b, 24) && q.keyboard.value.flags % 0x1_0000_0000 == WordAt(b, 28))
    && (q.mouse.Some? ==>
          && q.mouse.value.x % 0x1_0000_0000 == WordAt(b, 16) && q.mouse.value.y % 0x1_0000_0000 == WordAt(b, 20)
          && q.mouse.value.wheelDelta % 0x1_0000_0000 == WordAt(b, 24)
          && q.mouse.value.flags % 0x1_0000_0000 == WordAt(b, 28))
    && (q.handshake.Some? ==>
          && q.handshake.value.m1 == WordAt(b, 16) && q.handshake.value.m2 == WordAt(b, 20)
          && q.handshake.value.m3 == WordAt(b, 24) && q.handshake.value.m4 == WordAt(b, 28))
    && (if t in {123, 124, 125, 126, 127} then q.header.dateTime == 0 else TimeRead(b, q))
    && q.raw == (if t in {122, 123, 126, 127} then None
                 else if t == 124 || t == 125 then (if |b| >= 64 then Some(b[16..64]) else None)
                 else if |b| > 24 then Some(b[24..]) else None)
  }

  // For every buffer of any length: the first of the three faults, or a packet
  // whose every field is the bytes at its place.
  lemma ParsedBytes(b: seq<byte>, magic: uint32)
    ensures match ParseFrame(b, magic)
      case Err(BufferTooSmall) => |b| < 24
      case Err(InvalidMagic) => |b| >= 24 && b[2] + 0x100 * b[3] as int != magic / 0x1_0000
      case Err(InvalidChecksum) =>
        && |b| >= 24 && b[2] + 0x100 * b[3] as int == magic / 0x1_0000
        && b[1] != Sum(b[2..Min(32, |b|)]) % 0x100
      case Err(_) => false
      case Ok(q) =>
        && |b| >= 24 && b[2] + 0x100 * b[3] as int == magic / 0x1_0000
        && b[1] == Sum(b[2..Min(32, |b|)]) % 0x100
        && HeadRead(b, q) && BodyRead(b, q)
  {
    if |b| >= 24 {
      DecodedHead(b);
      DecodedBody(b);
    }
  }

  lemma DecodedHead(b: seq<byte>)
    requires |b| >= 24
    ensures HeadRead(b, Decoded(b))
  {
    WordRead(b, 4);
    WordRead(b, 8);
    WordRead(b, 12);
    if |b| >= 64 {
      TrimmedIs(b[32..64]);
    }
  }

  lemma DatedRead(b: seq<byte>)
    requires |b| >= 24
    ensures FromLe64(b[16..24]) == WordAt(b, 16) + 0x1_0000_0000 * WordAt(b, 20)
  {
    assert b[16..24][..4] == b[16..20] && b[16..24][4..] == b[20..24];
    WordRead(b, 16);
    WordRead(b, 20);
  }

  lemma DecodedBody(b: seq<byte>)
    requires |b| >= 24
    ensures BodyRead(b, Decoded(b))
  {
    DatedRead(b);
    WordRead(b, 16);
    WordRead(b, 20);
    if |b| >= 32 {
      WordRead(b, 24);
      WordRead(b, 28);
      SignedRead(FromLe32(b[16..20]));
      SignedRead(FromLe32(b[20..24]));
      SignedRead(FromLe32(b[24..28]));
      SignedRead(FromLe32(b[28..32]));
    }
  }

  // ---- Handshake frames ----------------------------------------------------

  predicate NamedOrNot(f: seq<byte>, name: seq<byte>) {
    if name == [] then Copied(f, 32, 32, []) else Named(f, name)
  }

  ghost predicate GreetingFrame(f: seq<byte>, me: Handshake.Identity) {
    && |f| == 64 && f[0] == 126
    && WordAt(f, 4) == 1 && WordAt(f, 8) == me.id && WordAt(f, 12) == 0
    && WordAt(f, 16) == me.nonces.m1 && WordAt(f, 20) == me.nonces.m2
    && WordAt(f, 24) == me.nonces.m3 && WordAt(f, 28) == me.nonces.m4
    && NamedOrNot(f, me.name)
  }

  lemma GreetingLaidOut(me: Handshake.Identity, f: seq<byte>, magic: uint32)
    requires |f| == 64 && HeadLaidOut(f, Handshake.Hello(me), magic) && BodyLaidOut(f, Handshake.Hello(me))
    ensures GreetingFrame(f, me)
  {
  }

  // A greeting, byte by byte.
  lemma GreetingBytes(me: Handshake.Identity, magic: uint32)
    ensures match FrameOf(Handshake.Hello(me), magic)
      case Ok(f) => GreetingFrame(f, me)
      case Err(_) => false
  {
    MarshalledBytes(Handshake.Hello(me), magic);
    GreetingLaidOut(me, Frame(Handshake.Hello(me), magic), magic);
  }

  // The greeting's id, and bytes 16 to 31 that are its bytes' complements.
  ghost predicate AnswerFrame(f: seq<byte>, g: seq<byte>, me: Handshake.Identity)
    requires |g| >= 32
  {
    && |f| == 64 && f[0] == 127
    && f[4..8] == g[4..8] && WordAt(f, 8) == me.id && WordAt(f, 12) == 0
    && (forall i :: 16 <= i < 32 ==> f[i] as int + g[i] == 0xFF)
    && NamedOrNot(f, me.name)
  }

  lemma SumsOfBytes(a: int, b: int, c: int, d: int)
    requires 0 <= a <= 510 && 0 <= b <= 510 && 0 <= c <= 510 && 0 <= d <= 510
    requires a + 0x100 * b + 0x1_0000 * c + 0x100_0000 * d == 0xFFFF_FFFF
    ensures a == b == c == d == 0xFF
  {
  }

  lemma ComplementaryBytes(f: seq<byte>, g: seq<byte>, i: nat)
    requires i + 4 <= |f| && i + 4 <= |g| && WordAt(f, i) as int + WordAt(g, i) == 0xFFFF_FFFF
    ensures forall j :: i <= j < i + 4 ==> f[j] as int + g[j] == 0xFF
  {
    SumsOfBytes(f[i] as int + g[i], f[i + 1] as int + g[i + 1], f[i + 2] as int + g[i + 2], f[i + 3] as int + g[i + 3]);
  }

  lemma SameWord(f: seq<byte>, g: seq<byte>, i: nat)
    requires i + 4 <= |f| && i + 4 <= |g| && WordAt(f, i) == WordAt(g, i)
    ensures f[i..i + 4] == g[i..i + 4]
  {
    Le32Inverse(f[i..i + 4]);
    Le32Inverse(g[i..i + 4]);
    WordRead(f, i);
    WordRead(g, i);
  }

  lemma AnswerLaidOut(me: Handshake.Identity, q: Packet, f: seq<byte>, g: seq<byte>, magic: uint32)
    requires |g| >= 32 && g[0] == 126 && HeadRead(g, q) && BodyRead(g, q)
    requires |f| == 64 && HeadLaidOut(f, Handshake.Ack(me, q), magic) && BodyLaidOut(f, Handshake.Ack(me, q))
    ensures AnswerFrame(f, g, me)
  {
    ComplementaryBytes(f, g, 16);
    ComplementaryBytes(f, g, 20);
    ComplementaryBytes(f, g, 24);
    ComplementaryBytes(f, g, 28);
    SameWord(f, g, 4);
  }

  // Whatever greeting frame comes in, the answer's frame carries its complement.
  lemma AnswerBytes(me: Handshake.Identity, magic: uint32, g: seq<byte>, q: Packet)
    requires ParseFrame(g, magic) == Ok(q) && |g| >= 32 && g[0] == 126
    ensures match Handshake.Reply(me, q)
      case None => false
      case Some(a) => FrameOf(a, magic).Ok? && AnswerFrame(FrameOf(a, magic).value, g, me)
  {
    ParsedBytes(g, magic);
    MarshalledBytes(Handshake.Ack(me, q), magic);
    AnswerLaidOut(me, q, FrameOf(Handshake.Ack(me, q), magic).value, g, magic);
  }
}
