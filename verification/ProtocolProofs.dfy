/** Marshal and Unmarshal as inverses, and what the checksum detects. */
module ProtocolProofs {
  import opened Wrappers
  import opened Bytes
  import opened Protocol

  // ---- Marshal, then Unmarshal ---------------------------------------------

  // f is laid out as Marshal lays out p.
  ghost predicate Holds(f: seq<byte>, p: Packet) {
    && Missing(p).None? && p.header.typ < 0x100
    && |f| == FrameSize(p.header.typ)
    && f[0] == p.header.typ
    && FromLe32(f[4..8]) == p.header.id
    && FromLe32(f[8..12]) == p.header.src
    && FromLe32(f[12..16]) == p.header.des
    && f[16..] == NamedBody(p)
  }

  lemma FrameLayout(p: Packet, magic: uint32)
    requires Missing(p).None?
    ensures var f := Frame(p, magic);
      && |f| == FrameSize(p.header.typ)
      && f[0] == p.header.typ % 0x100
      && (p.header.typ < 0x100 ==> Holds(f, p))
      && Accepted(f, magic)
  {
    var rest := Covered(p, magic);
    var typ: byte, sum: byte := p.header.typ % 0x100, Sum(rest[..30]) % 0x100;
    var low: byte, high: byte := magic / 0x1_0000 % 0x100, magic / 0x100_0000;
    FrameSlices(typ, sum, low, high, Le32(p.header.id), Le32(p.header.src), Le32(p.header.des), NamedBody(p));
    MagicSplits(magic);
    Le32RoundTrip(p.header.id);
    Le32RoundTrip(p.header.src);
    Le32RoundTrip(p.header.des);
  }

  lemma FrameSlices(typ: byte, sum: byte, low: byte, high: byte,
                    a: seq<byte>, b: seq<byte>, c: seq<byte>, body: seq<byte>)
    requires |a| == |b| == |c| == 4 && |body| >= 16
    ensures var rest := [low, high] + (a + b + c) + body;
      var f := [typ, sum] + rest;
      && f[0] == typ && f[1] == sum && f[2] == low && f[3] == high
      && f[4..8] == a && f[8..12] == b && f[12..16] == c && f[16..] == body
      && f[2..32] == rest[..30]
  {
  }

  lemma MagicSplits(magic: uint32)
    ensures 0x100_0000 * (magic / 0x100_0000) + 0x1_0000 * (magic / 0x1_0000 % 0x100) == magic / 0x1_0000 * 0x1_0000
  {
    var high := magic / 0x1_0000;
    assert magic / 0x100_0000 == high / 0x100;
    assert high == 0x100 * (high / 0x100) + high % 0x100;
  }

  // Every packet whose type fits the type byte arrives as its normal form.
  lemma MarshalUnmarshal(p: Packet, magic: uint32)
    requires Missing(p).None? && p.header.typ < 0x100
    ensures SelfFraming(Frame(p, magic))
    ensures ParseFrame(Frame(p, magic), magic) == Ok(NormalForm(p))
  {
    var f := Frame(p, magic);
    FrameLayout(p, magic);
    assert Decoded(f) == NormalForm(p) by {
      if p.header.typ == KEYBOARD {
        KeyboardDecodes(p, f);
      } else if p.header.typ == MOUSE {
        MouseDecodes(p, f);
      } else if IsHandshake(p.header.typ) {
        HandshakeDecodes(p, f);
      } else if CarriesChunk(p.header.typ) {
        assert f[16..64] == f[16..];
      } else {
        UntypedDecodes(p, f);
      }
    }
  }

  lemma Int32RoundTrip(x: int32)
    ensures ToInt32(ToUint32(x)) == x
  {
  }

  lemma KeyboardDecodes(p: Packet, f: seq<byte>)
    requires Holds(f, p) && p.header.typ == KEYBOARD
    ensures Decoded(f) == NormalForm(p)
  {
    var k := p.keyboard.value;
    assert f[16..24] == f[16..][..8] == Le64(p.header.dateTime);
    assert f[24..28] == f[16..][8..12] == Le32(ToUint32(k.vk));
    assert f[28..32] == f[16..][12..16] == Le32(ToUint32(k.flags));
    Le64RoundTrip(p.header.dateTime);
    Le32RoundTrip(ToUint32(k.vk));
    Le32RoundTrip(ToUint32(k.flags));
  }

  lemma SliceOfSlice(s: seq<byte>, from: nat, to: nat, i: nat, j: nat)
    requires i <= j && from + j <= to <= |s|
    ensures s[from..to][i..j] == s[from + i..from + j]
  {
    var inner, outer := s[from..to][i..j], s[from + i..from + j];
    assert |inner| == j - i == |outer|;
    forall k | 0 <= k < j - i
      ensures inner[k] == outer[k]
    {
      assert inner[k] == s[from..to][i + k] == s[from + (i + k)];
    }
  }

  lemma FourSlices(a: seq<byte>, b: seq<byte>, c: seq<byte>, d: seq<byte>, f: seq<byte>)
    requires |a| == |b| == |c| == |d| == 4
    requires |f| >= 32 && f[16..32] == a + b + c + d
    ensures f[16..20] == a && f[20..24] == b && f[24..28] == c && f[28..32] == d
  {
    var w := a + b + c + d;
    assert w[0..4] == a && w[4..8] == b && w[8..12] == c && w[12..16] == d;
    SliceOfSlice(f, 16, 32, 0, 4);
    SliceOfSlice(f, 16, 32, 4, 8);
    SliceOfSlice(f, 16, 32, 8, 12);
    SliceOfSlice(f, 16, 32, 12, 16);
  }

  lemma FourWords(a: uint32, b: uint32, c: uint32, d: uint32, f: seq<byte>)
    requires |f| >= 32 && f[16..32] == Le32(a) + Le32(b) + Le32(c) + Le32(d)
    ensures FromLe32(f[16..20]) == a && FromLe32(f[20..24]) == b
    ensures FromLe32(f[24..28]) == c && FromLe32(f[28..32]) == d
  {
    FourSlices(Le32(a), Le32(b), Le32(c), Le32(d), f);
    Le32RoundTrip(a);
    Le32RoundTrip(b);
    Le32RoundTrip(c);
    Le32RoundTrip(d);
  }

  lemma MouseDecodes(p: Packet, f: seq<byte>)
    requires Holds(f, p) && p.header.typ == MOUSE
    ensures Decoded(f) == NormalForm(p)
  {
    var m := p.mouse.value;
    assert f[16..32] == f[16..];
    FourWords(ToUint32(m.x), ToUint32(m.y), ToUint32(m.wheelDelta), ToUint32(m.flags), f);
    Int32RoundTrip(m.x);
    Int32RoundTrip(m.y);
    Int32RoundTrip(m.wheelDelta);
    Int32RoundTrip(m.flags);
  }

  lemma HandshakeDecodes(p: Packet, f: seq<byte>)
    requires Holds(f, p) && IsHandshake(p.header.typ)
    ensures Decoded(f) == NormalForm(p)
  {
    var h := p.handshake.value;
    var words := Le32(h.m1) + Le32(h.m2) + Le32(h.m3) + Le32(h.m4);
    var tail := if p.name == [] then Zeros(32) else PadName(p.name);
    HandshakeBody(p);
    assert f[16..32] == f[16..][..16] == words;
    assert f[32..64] == f[16..][16..] == tail;
    FourWords(h.m1, h.m2, h.m3, h.m4, f);
    TrimZeros();
  }

  lemma HandshakeBody(p: Packet)
    requires Missing(p).None? && IsHandshake(p.header.typ)
    ensures var h := p.handshake.value;
      NamedBody(p) == Le32(h.m1) + Le32(h.m2) + Le32(h.m3) + Le32(h.m4)
                      + (if p.name == [] then Zeros(32) else PadName(p.name))
  {
    var h := p.handshake.value;
    var words := Le32(h.m1) + Le32(h.m2) + Le32(h.m3) + Le32(h.m4);
    assert Body(p) == words + Zeros(32);
    assert Body(p)[..16] == words;
  }

  lemma TrimZeros()
    ensures Trim(Zeros(32)) == [] == Trim(PadName([]))
  {
    TrimAppendBlanks([], Zeros(32));
    TrimAppendBlanks([], Spaces(32));
    assert [] + Zeros(32) == Zeros(32) && [] + Spaces(32) == Spaces(32);
    assert PadName([]) == Spaces(32);
  }

  predicate Untyped(t: uint32) {
    t != KEYBOARD && t != MOUSE && !IsHandshake(t) && !CarriesChunk(t)
  }

  lemma UntypedDecodes(p: Packet, f: seq<byte>)
    requires Holds(f, p) && Untyped(p.header.typ)
    ensures Decoded(f) == NormalForm(p)
  {
    UntypedBody(p);
    assert f[16..24] == f[16..][..8];
    Le64RoundTrip(p.header.dateTime);
    assert f[24..] == f[16..][8..];
    if IsBigPackage(p.header.typ) {
      assert f[32..64] == f[24..][8..];
    }
  }

  lemma UntypedBody(p: Packet)
    requires Missing(p).None? && Untyped(p.header.typ)
    ensures NamedBody(p)[..8] == Le64(p.header.dateTime)
    ensures NamedBody(p)[8..] == RawRegion(p)
  {
  }

  // The wire carries the low byte of the type only, so a frame tells its own
  // length exactly when the dropped bits do not change the size.
  lemma SelfFramingIff(p: Packet, magic: uint32)
    requires Missing(p).None?
    ensures SelfFraming(Frame(p, magic))
      <==> IsBigPackage(p.header.typ) == IsBigPackage(p.header.typ % 0x100)
  {
    FrameLayout(p, magic);
  }

  // ---- Unmarshal, then Marshal ---------------------------------------------

  // Bytes 32..63 as a second Marshal writes them.
  function NormalRegion(t: uint32, region: seq<byte>): (r: seq<byte>)
    requires |region| == 32
    ensures |r| == 32
  {
    if Trim(region) != [] then PadName(Trim(region))
    else if IsHandshake(t) then Zeros(32)
    else region
  }

  function NormalFrame(f: seq<byte>): (r: seq<byte>)
    requires SelfFraming(f)
    ensures |r| == |f|
  {
    if |f| == PACKAGE_SIZE || CarriesChunk(f[0]) then f
    else f[..32] + NormalRegion(f[0], f[32..])
  }

  // Re-marshalling an accepted frame reproduces it, except that the name field
  // of a 64-byte frame that carries no clipboard chunk is normalised.
  lemma UnmarshalMarshal(f: seq<byte>, magic: uint32)
    requires SelfFraming(f) && Accepted(f, magic)
    ensures ParseFrame(f, magic).Ok?
    ensures FrameOf(ParseFrame(f, magic).value, magic) == Ok(NormalFrame(f))
  {
    BodyRestored(f);
    HeaderRestored(f);
    NormalFrameKeepsHead(f);
    Reassembled(Decoded(f), f, NormalFrame(f), magic);
  }

  lemma NormalFrameKeepsHead(f: seq<byte>)
    requires SelfFraming(f)
    ensures NormalFrame(f)[..32] == f[..32]
  {
  }

  // A packet whose fields are the bytes of f marshals to g, when g is f with
  // another name region.
  lemma Reassembled(p: Packet, f: seq<byte>, g: seq<byte>, magic: uint32)
    requires SelfFraming(f) && Accepted(f, magic) && Missing(p).None? && p.header.typ == f[0]
    requires Le32(p.header.id) == f[4..8] && Le32(p.header.src) == f[8..12] && Le32(p.header.des) == f[12..16]
    requires |g| == |f| && g[..32] == f[..32] && NamedBody(p) == g[16..]
    ensures FrameOf(p, magic) == Ok(g)
  {
    MagicBytes(f, magic);
    HeadBytes(f, g);
    CutIntoFields(g);
    FieldsJoin([g[2], g[3]], g[4..8], g[8..12], g[12..16], g[16..]);
    HeadAndRest(g);
  }

  lemma CutIntoFields(g: seq<byte>)
    requires |g| >= 16
    ensures g[2..] == [g[2], g[3]] + g[4..8] + g[8..12] + g[12..16] + g[16..]
  {
  }

  lemma FieldsJoin(magic: seq<byte>, a: seq<byte>, b: seq<byte>, c: seq<byte>, body: seq<byte>)
    ensures magic + (a + b + c) + body == magic + a + b + c + body
  {
    Associative(magic, a + b, c);
    Associative(magic, a, b);
  }

  lemma HeadAndRest(g: seq<byte>)
    requires |g| >= 32
    ensures g[2..][..30] == g[2..32]
    ensures g == [g[0], g[1]] + g[2..]
  {
  }

  lemma HeadBytes(f: seq<byte>, g: seq<byte>)
    requires |g| == |f| >= 32 && g[..32] == f[..32]
    ensures forall i :: 0 <= i < 32 ==> g[i] == f[i]
    ensures forall i, j :: 0 <= i <= j <= 32 ==> g[i..j] == f[i..j]
  {
    assert forall i :: 0 <= i < 32 ==> g[i] == g[..32][i] && f[i] == f[..32][i];
  }

  lemma HeaderRestored(f: seq<byte>)
    requires SelfFraming(f)
    ensures var h := Decoded(f).header;
      h.typ == f[0] && Le32(h.id) == f[4..8] && Le32(h.src) == f[8..12] && Le32(h.des) == f[12..16]
  {
    Le32Inverse(f[4..8]);
    Le32Inverse(f[8..12]);
    Le32Inverse(f[12..16]);
  }

  lemma MagicBytes(f: seq<byte>, magic: uint32)
    requires |f| >= 24 && MagicMatches(f, magic)
    ensures f[2] == magic / 0x1_0000 % 0x100 && f[3] == magic / 0x100_0000
  {
    var high := magic / 0x1_0000;
    var b2: int, b3: int := f[2], f[3];
    assert high == 0x100 * b3 + b2;
    assert magic / 0x100_0000 == high / 0x100;
  }

  lemma BodyRestored(f: seq<byte>)
    requires SelfFraming(f)
    ensures Missing(Decoded(f)).None?
    ensures NamedBody(Decoded(f)) == NormalFrame(f)[16..]
  {
    var t := f[0];
    if t == KEYBOARD {
      KeyboardRestored(f);
    } else if t == MOUSE {
      MouseRestored(f);
    } else if IsHandshake(t) {
      HandshakeRestored(f);
    } else if CarriesChunk(t) {
      assert f[16..64] == f[16..];
      assert Fit(f[16..64], 48) == f[16..64];
    } else {
      UntypedRestored(f);
    }
  }

  lemma KeyboardRestored(f: seq<byte>)
    requires SelfFraming(f) && f[0] == KEYBOARD
    ensures Missing(Decoded(f)).None? && NamedBody(Decoded(f)) == f[16..]
  {
    Le64Inverse(f[16..24]);
    Le32Inverse(f[24..28]);
    Le32Inverse(f[28..32]);
    Uint32RoundTrip(FromLe32(f[24..28]));
    Uint32RoundTrip(FromLe32(f[28..32]));
    assert f[16..] == f[16..24] + f[24..28] + f[28..32];
  }

  lemma Uint32RoundTrip(x: uint32)
    ensures ToUint32(ToInt32(x)) == x
  {
  }

  lemma FourWordsRestored(f: seq<byte>)
    requires |f| >= 32
    ensures Le32(FromLe32(f[16..20])) + Le32(FromLe32(f[20..24]))
            + Le32(FromLe32(f[24..28])) + Le32(FromLe32(f[28..32])) == f[16..32]
  {
    Le32Inverse(f[16..20]);
    Le32Inverse(f[20..24]);
    Le32Inverse(f[24..28]);
    Le32Inverse(f[28..32]);
    assert f[16..32] == f[16..20] + f[20..24] + f[24..28] + f[28..32];
  }

  lemma MouseRestored(f: seq<byte>)
    requires SelfFraming(f) && f[0] == MOUSE
    ensures Missing(Decoded(f)).None? && NamedBody(Decoded(f)) == f[16..]
  {
    FourWordsRestored(f);
    Uint32RoundTrip(FromLe32(f[16..20]));
    Uint32RoundTrip(FromLe32(f[20..24]));
    Uint32RoundTrip(FromLe32(f[24..28]));
    Uint32RoundTrip(FromLe32(f[28..32]));
    assert f[16..32] == f[16..];
  }

  lemma HandshakeFields(f: seq<byte>)
    requires SelfFraming(f) && IsHandshake(f[0])
    ensures var p := Decoded(f);
      && p.header.typ == f[0] && p.name == Trim(f[32..])
      && p.handshake == Some(HandshakeData(FromLe32(f[16..20]), FromLe32(f[20..24]), FromLe32(f[24..28]), FromLe32(f[28..32])))
  {
    assert f[32..64] == f[32..];
  }

  lemma HandshakeRestored(f: seq<byte>)
    requires SelfFraming(f) && IsHandshake(f[0])
    ensures Missing(Decoded(f)).None? && NamedBody(Decoded(f)) == NormalFrame(f)[16..]
  {
    HandshakeFields(f);
    FourWordsRestored(f);
    HandshakeBody(Decoded(f));
    NormalFrameTail(f);
  }

  lemma NormalFrameTail(f: seq<byte>)
    requires SelfFraming(f) && |f| == PACKAGE_SIZE_EX && !CarriesChunk(f[0])
    ensures NormalFrame(f)[16..] == f[16..32] + NormalRegion(f[0], f[32..])
  {
  }

  lemma UntypedRestored(f: seq<byte>)
    requires SelfFraming(f) && Untyped(f[0])
    ensures Missing(Decoded(f)).None? && NamedBody(Decoded(f)) == NormalFrame(f)[16..]
  {
    var p := Decoded(f);
    Le64Inverse(f[16..24]);
    assert Fit(f[24..], |f| - 24) == f[24..];
    assert Body(p) == f[16..24] + f[24..] == f[16..];
    if IsBigPackage(f[0]) {
      assert f[32..64] == f[32..];
      assert Body(p)[..16] == f[16..32];
      assert f[16..] == f[16..32] + f[32..];
      NormalFrameTail(f);
    }
  }

  lemma NormalFrameIdempotent(f: seq<byte>, magic: uint32)
    requires SelfFraming(f)
    ensures SelfFraming(NormalFrame(f)) && NormalFrame(NormalFrame(f)) == NormalFrame(f)
    ensures Accepted(f, magic) ==> Accepted(NormalFrame(f), magic)
  {
    if |f| == PACKAGE_SIZE_EX && !CarriesChunk(f[0]) {
      var region := f[32..];
      TrimPadded(Trim(region));
      TrimAppendBlanks([], Zeros(32));
      assert [] + Zeros(32) == Zeros(32);
      assert NormalFrame(f)[32..] == NormalRegion(f[0], region);
      assert NormalFrame(f)[2..32] == f[2..32];
    }
  }

  // ---- Detection -----------------------------------------------------------

  // A change of exactly one byte of an accepted frame is rejected if and only
  // if it falls on bytes 1..31.  Byte 0 and the bytes from 32 on are outside
  // the sum.
  lemma OneByteDetected(f: seq<byte>, k: nat, v: byte, magic: uint32)
    requires |f| >= PACKAGE_SIZE && Accepted(f, magic)
    requires k < |f| && v != f[k]
    ensures ParseFrame(f[k := v], magic).Err? <==> 1 <= k < PACKAGE_SIZE
  {
    if 2 <= k < PACKAGE_SIZE {
      assert f[k := v][2..32] == f[2..32][k - 2 := v];
      SumUpdate(f[2..32], k - 2, v);
      SumsDiffer(Sum(f[2..32]), f[k], v);
    } else {
      assert f[k := v][2..32] == f[2..32];
    }
  }

  lemma SumsDiffer(sum: nat, before: byte, after: byte)
    requires before != after
    ensures (sum - before + after) % 0x100 != sum % 0x100
  {
  }
}
